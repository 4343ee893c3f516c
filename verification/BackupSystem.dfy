/**
 * backup_system.py: one backup run of a Device. The run pulls the manifest,
 * copies each entry of `folders_to_backup` in order with best-effort semantics,
 * and reports progress as the share of entries attempted.
 *
 * The file system and adb are inputs: the result of pulling and parsing the
 * manifest, whether the backup directory could be created, and for the entry
 * at each index whether its destination directory could be created and
 * whether the copy succeeded.
 */
module BackupSystem {
  import opened Wrappers
  import opened Text
  import opened Devices

  /**
   * What happens to one folder entry: an exception inside the entry (`os.makedirs`
   * or the `subprocess.run` of `adb pull` raised), or the pull ran and succeeded or not.
   */
  datatype EntryOutcome = EntryRaised | Copied(ok: bool)

  /** One `adb pull <source> <destination>` issued by the run. */
  datatype CopyCommand = CopyCommand(source: Option<string>, destination: string)

  /** The state of the loop after some entries: an exception was raised, the progress, every value progress took, the copies issued. */
  datatype Progress = Progress(aborted: bool, progress: real, writes: seq<real>, copies: seq<CopyCommand>)

  /** The end of a run: the final backup status and progress, every value progress took, the copies issued. */
  datatype Run = Run(status: BackupStatus, progress: real, writes: seq<real>, copies: seq<CopyCommand>)

  /** `(current_folder / total_folders) * 100` in exact arithmetic. */
  function Percent(k: nat, n: nat): real
    requires 0 < n
  {
    (k as real / n as real) * 100.0
  }

  lemma PercentMonotone(j: nat, k: nat, n: nat)
    requires 0 < n && j <= k
    ensures Percent(j, n) <= Percent(k, n)
  {
    assert k as real / n as real - j as real / n as real == (k - j) as real / n as real;
  }

  lemma PercentBounds(k: nat, n: nat)
    requires 0 < n && k <= n
    ensures 0.0 <= Percent(k, n) <= 100.0
    ensures Percent(k, n) == 100.0 <==> k == n
  {
    PercentMonotone(0, k, n);
    PercentMonotone(k, n, n);
    if k < n {
      assert k as real / n as real < 1.0;
    }
  }

  /** An entry the loop gets through without an exception: an object with a destination whose directory was created. */
  predicate Completes(e: FolderEntry, o: EntryOutcome) {
    e.Folder? && e.destination.Some? && o.Copied?
  }

  /** The copy issued for an entry: from its source to its destination under the backup directory. */
  function CopyFor(e: FolderEntry, dir: string): CopyCommand
    requires e.Folder? && e.destination.Some?
  {
    CopyCommand(e.source, PathJoin(dir, e.destination.value))
  }

  /** One entry: copied and progress advanced to k/N*100, or an exception leaves the loop. */
  function Step(p: Progress, e: FolderEntry, o: EntryOutcome, dir: string, k: nat, n: nat): Progress
    requires 0 < n
  {
    if Completes(e, o) then
      var pct := Percent(k, n);
      Progress(false, pct, p.writes + [pct], p.copies + [CopyFor(e, dir)])
    else p.(aborted := true)
  }

  /** The loop of `backup_device` over the first `k` entries. */
  function Loop(entries: seq<FolderEntry>, dir: string, outcome: nat -> EntryOutcome, k: nat): Progress
    requires k <= |entries|
    decreases k
  {
    if k == 0 then Progress(false, 0.0, [0.0], [])
    else
      var p := Loop(entries, dir, outcome, k - 1);
      if p.aborted then p else Step(p, entries[k - 1], outcome(k - 1), dir, k, |entries|)
  }

  /** A whole run, from "Backing Up" at 0 to "Up-to-date" at 100 or to "Error". */
  function Backup(read: ManifestRead, root: string, rootDirOk: bool, outcome: nat -> EntryOutcome): Run {
    var failed := Run(Error, 0.0, [0.0], []);
    match read
    case ReadRaised => failed
    case ReadOk(m) =>
      if m.phoneName.None? || !rootDirOk || m.folders.None? then failed
      else
        var entries := m.folders.value;
        var p := Loop(entries, PathJoin(root, m.phoneName.value), outcome, |entries|);
        if p.aborted then Run(Error, p.progress, p.writes, p.copies)
        else Run(UpToDate, 100.0, p.writes + [100.0], p.copies)
  }

  // ---------------------------------------------------------------------------
  // The loop
  // ---------------------------------------------------------------------------

  /** The loop's bookkeeping after `k` entries: one write of progress per copy after the initial 0. */
  lemma {:induction false} LoopShape(entries: seq<FolderEntry>, dir: string, outcome: nat -> EntryOutcome, k: nat)
    requires k <= |entries|
    ensures var p := Loop(entries, dir, outcome, k);
      && |p.copies| <= k
      && |p.writes| == |p.copies| + 1
      && p.writes[0] == 0.0
      && p.progress == p.writes[|p.copies|]
      && (!p.aborted <==> |p.copies| == k)
    decreases k
  {
    if k > 0 {
      LoopShape(entries, dir, outcome, k - 1);
    }
  }

  /** After the j-th copied entry progress was written as j/N*100. */
  lemma {:induction false} LoopWrites(entries: seq<FolderEntry>, dir: string, outcome: nat -> EntryOutcome, k: nat)
    requires k <= |entries|
    ensures var p := Loop(entries, dir, outcome, k);
      && |p.writes| == |p.copies| + 1
      && forall j :: 1 <= j <= |p.copies| ==> p.writes[j] == Percent(j, |entries|)
    decreases k
  {
    LoopShape(entries, dir, outcome, k);
    if k > 0 {
      LoopShape(entries, dir, outcome, k - 1);
      LoopWrites(entries, dir, outcome, k - 1);
      var p := Loop(entries, dir, outcome, k - 1);
      var q := Loop(entries, dir, outcome, k);
      if !p.aborted && Completes(entries[k - 1], outcome(k - 1)) {
        assert q.writes == p.writes + [Percent(k, |entries|)];
        forall j | 1 <= j <= |q.copies| ensures q.writes[j] == Percent(j, |entries|) {
          if j < k { assert q.writes[j] == p.writes[j]; }
        }
      } else {
        assert q.writes == p.writes && q.copies == p.copies;
      }
    }
  }

  /** The j-th copy is the one for the j-th entry, and that entry went through. */
  lemma {:induction false} LoopCopyAt(entries: seq<FolderEntry>, dir: string, outcome: nat -> EntryOutcome, k: nat, j: nat)
    requires k <= |entries|
    requires j < |Loop(entries, dir, outcome, k).copies|
    ensures j < |entries| && Completes(entries[j], outcome(j))
    ensures Loop(entries, dir, outcome, k).copies[j] == CopyFor(entries[j], dir)
    decreases k
  {
    LoopShape(entries, dir, outcome, k);
    LoopShape(entries, dir, outcome, k - 1);
    var p := Loop(entries, dir, outcome, k - 1);
    var q := Loop(entries, dir, outcome, k);
    if p.aborted {
      assert q == p;
      LoopCopyAt(entries, dir, outcome, k - 1, j);
    } else if !Completes(entries[k - 1], outcome(k - 1)) {
      assert q == p.(aborted := true);
      LoopCopyAt(entries, dir, outcome, k - 1, j);
    } else {
      assert q.copies == p.copies + [CopyFor(entries[k - 1], dir)];
      if j < |p.copies| {
        LoopCopyAt(entries, dir, outcome, k - 1, j);
      }
    }
  }

  lemma LoopCopies(entries: seq<FolderEntry>, dir: string, outcome: nat -> EntryOutcome, k: nat)
    requires k <= |entries|
    ensures var p := Loop(entries, dir, outcome, k);
      && |p.copies| <= k
      && forall j :: 0 <= j < |p.copies| ==>
           Completes(entries[j], outcome(j)) && p.copies[j] == CopyFor(entries[j], dir)
  {
    LoopShape(entries, dir, outcome, k);
    forall j | 0 <= j < |Loop(entries, dir, outcome, k).copies|
      ensures Completes(entries[j], outcome(j))
      ensures Loop(entries, dir, outcome, k).copies[j] == CopyFor(entries[j], dir)
    {
      LoopCopyAt(entries, dir, outcome, k, j);
    }
  }

  /** The loop is left at the first entry that does not go through. */
  lemma {:induction false} LoopAbortCause(entries: seq<FolderEntry>, dir: string, outcome: nat -> EntryOutcome, k: nat)
    requires k <= |entries|
    ensures var p := Loop(entries, dir, outcome, k);
      && |p.copies| <= k
      && (p.aborted ==> |p.copies| < k && !Completes(entries[|p.copies|], outcome(|p.copies|)))
    decreases k
  {
    if k > 0 {
      LoopShape(entries, dir, outcome, k - 1);
      LoopAbortCause(entries, dir, outcome, k - 1);
      var p := Loop(entries, dir, outcome, k - 1);
      var q := Loop(entries, dir, outcome, k);
      if p.aborted {
        assert q == p;
      } else if !Completes(entries[k - 1], outcome(k - 1)) {
        assert q == p.(aborted := true);
      } else {
        assert !q.aborted && |q.copies| == |p.copies| + 1;
      }
    }
  }

  /** Once an exception is raised the loop is left: later entries change nothing. */
  lemma {:induction false} LoopStaysAborted(entries: seq<FolderEntry>, dir: string, outcome: nat -> EntryOutcome, m: nat, k: nat)
    requires m <= k <= |entries|
    requires Loop(entries, dir, outcome, m).aborted
    ensures Loop(entries, dir, outcome, k) == Loop(entries, dir, outcome, m)
    decreases k
  {
    if k > m {
      LoopStaysAborted(entries, dir, outcome, m, k - 1);
    }
  }

  /** Progress never decreases from one write to the next. */
  lemma WritesNonDecreasing(writes: seq<real>, n: nat, c: nat)
    requires 0 < |writes| && writes[0] == 0.0
    requires c < |writes| && c <= n
    requires forall j :: 1 <= j <= c ==> 0 < n && writes[j] == Percent(j, n)
    requires forall j :: c < j < |writes| ==> writes[j] == 100.0
    ensures forall i, j :: 0 <= i <= j < |writes| ==> writes[i] <= writes[j]
  {
    forall i, j | 0 <= i <= j < |writes| ensures writes[i] <= writes[j] {
      if 1 <= j <= c {
        PercentMonotone(i, j, n);
        PercentMonotone(0, j, n);
      } else if c < j {
        if 1 <= i <= c { PercentBounds(i, n); }
      }
    }
  }

  // ---------------------------------------------------------------------------
  // Properties of a run
  // ---------------------------------------------------------------------------

  /** A run starts at 0, its progress never decreases, and it ends at its last written value. */
  lemma BackupProgressMonotone(read: ManifestRead, root: string, rootDirOk: bool, outcome: nat -> EntryOutcome)
    ensures var r := Backup(read, root, rootDirOk, outcome);
      && |r.writes| > 0
      && r.writes[0] == 0.0
      && r.progress == r.writes[|r.writes| - 1]
      && forall i, j :: 0 <= i <= j < |r.writes| ==> r.writes[i] <= r.writes[j]
  {
    var r := Backup(read, root, rootDirOk, outcome);
    if read.ReadOk? && read.manifest.phoneName.Some? && rootDirOk && read.manifest.folders.Some? {
      var entries := read.manifest.folders.value;
      var dir := PathJoin(root, read.manifest.phoneName.value);
      LoopShape(entries, dir, outcome, |entries|);
      LoopWrites(entries, dir, outcome, |entries|);
      var p := Loop(entries, dir, outcome, |entries|);
      WritesNonDecreasing(r.writes, |entries|, |p.copies|);
    }
  }

  /**
   * A run ends "Up-to-date" at 100 or "Error" below 100, and it ends
   * "Up-to-date" exactly when the manifest read, the backup directory was
   * created and every entry went through, whatever the copies returned.
   */
  lemma BackupTerminalState(read: ManifestRead, root: string, rootDirOk: bool, outcome: nat -> EntryOutcome)
    ensures var r := Backup(read, root, rootDirOk, outcome);
      && (r.status == UpToDate || r.status == Error)
      && (r.status == UpToDate ==> r.progress == 100.0)
      && (r.status == Error ==> r.progress < 100.0)
      && (r.status == UpToDate <==>
            && read.ReadOk? && read.manifest.phoneName.Some? && rootDirOk && read.manifest.folders.Some?
            && forall i :: 0 <= i < |read.manifest.folders.value| ==>
                 Completes(read.manifest.folders.value[i], outcome(i)))
  {
    if read.ReadOk? && read.manifest.phoneName.Some? && rootDirOk && read.manifest.folders.Some? {
      var entries := read.manifest.folders.value;
      var dir := PathJoin(root, read.manifest.phoneName.value);
      LoopShape(entries, dir, outcome, |entries|);
      LoopWrites(entries, dir, outcome, |entries|);
      LoopAbortCause(entries, dir, outcome, |entries|);
      LoopCopies(entries, dir, outcome, |entries|);
      var p := Loop(entries, dir, outcome, |entries|);
      if p.aborted && |p.copies| > 0 {
        PercentBounds(|p.copies|, |entries|);
      }
    }
  }

  /**
   * Entries are copied in manifest order, one copy per entry, from the source
   * to the destination joined under BACKUP_LOCATION/phone_name; after the k-th
   * entry progress is k/N*100, and a completed run copied every entry.
   */
  lemma BackupCopiesInOrder(m: Manifest, root: string, rootDirOk: bool, outcome: nat -> EntryOutcome)
    requires m.phoneName.Some? && rootDirOk && m.folders.Some?
    ensures var r := Backup(ReadOk(m), root, rootDirOk, outcome);
      var entries := m.folders.value;
      var dir := PathJoin(root, m.phoneName.value);
      && |r.copies| <= |entries|
      && |r.writes| >= |r.copies| + 1
      && (forall j :: 0 <= j < |r.copies| ==> Completes(entries[j], outcome(j)) && r.copies[j] == CopyFor(entries[j], dir))
      && (forall j :: 1 <= j <= |r.copies| ==> r.writes[j] == Percent(j, |entries|))
      && (r.status == UpToDate ==> |r.copies| == |entries|)
      && (r.status == Error ==> |r.copies| < |entries|)
      && (r.status == Error ==> |r.writes| == |r.copies| + 1 && !Completes(entries[|r.copies|], outcome(|r.copies|)))
  {
    var entries := m.folders.value;
    var dir := PathJoin(root, m.phoneName.value);
    LoopShape(entries, dir, outcome, |entries|);
    LoopWrites(entries, dir, outcome, |entries|);
    LoopCopies(entries, dir, outcome, |entries|);
    LoopAbortCause(entries, dir, outcome, |entries|);
  }

  /** A run that fails before the loop copies nothing and leaves progress at 0. */
  lemma BackupFailsEarly(read: ManifestRead, root: string, rootDirOk: bool, outcome: nat -> EntryOutcome)
    requires read.ReadRaised? || read.manifest.phoneName.None? || !rootDirOk || read.manifest.folders.None?
    ensures Backup(read, root, rootDirOk, outcome) == Run(Error, 0.0, [0.0], [])
  {
  }

  /** An empty folder list ends "Up-to-date" at 100 with nothing copied. */
  lemma BackupEmptyFolders(m: Manifest, root: string, outcome: nat -> EntryOutcome)
    requires m.phoneName.Some? && m.folders == Some([])
    ensures Backup(ReadOk(m), root, true, outcome) == Run(UpToDate, 100.0, [0.0, 100.0], [])
  {
  }

  lemma {:induction false} LoopIgnoresCopyResults(entries: seq<FolderEntry>, dir: string,
                                                  o1: nat -> EntryOutcome, o2: nat -> EntryOutcome, k: nat)
    requires k <= |entries|
    requires forall i :: 0 <= i < |entries| ==> o1(i).Copied? == o2(i).Copied?
    ensures Loop(entries, dir, o1, k) == Loop(entries, dir, o2, k)
    decreases k
  {
    if k > 0 {
      LoopIgnoresCopyResults(entries, dir, o1, o2, k - 1);
    }
  }

  /** A failed copy is only logged: which copies failed changes nothing about the run. */
  lemma BackupIgnoresCopyResults(read: ManifestRead, root: string, rootDirOk: bool,
                                 o1: nat -> EntryOutcome, o2: nat -> EntryOutcome)
    requires forall i :: o1(i).Copied? == o2(i).Copied?
    ensures Backup(read, root, rootDirOk, o1) == Backup(read, root, rootDirOk, o2)
  {
    if read.ReadOk? && read.manifest.phoneName.Some? && rootDirOk && read.manifest.folders.Some? {
      var entries := read.manifest.folders.value;
      LoopIgnoresCopyResults(entries, PathJoin(root, read.manifest.phoneName.value), o1, o2, |entries|);
    }
  }

  /**
   * `backup_device` as the file stands: its first step, pull_json, formats a
   * command with JSON_PATH, which device_manager.py never imports; the NameError
   * lands in backup_device's `except`, whatever the manifest on the phone says.
   */
  function BackupAsWritten(read: ManifestRead, root: string, rootDirOk: bool, outcome: nat -> EntryOutcome): Run {
    Backup(ReadRaised, root, rootDirOk, outcome)
  }

  /** As written, every backup ends "Error" at 0 with nothing copied. */
  lemma BackupAsWrittenAlwaysFails(read: ManifestRead, root: string, rootDirOk: bool, outcome: nat -> EntryOutcome)
    ensures BackupAsWritten(read, root, rootDirOk, outcome) == Run(Error, 0.0, [0.0], [])
  {
  }

  // ---------------------------------------------------------------------------
  // backup_device
  // ---------------------------------------------------------------------------

  /**
   * `backup_device`: writes the backup status and progress of the Device as the
   * run goes and returns the copies it issued; nothing else of the Device changes.
   */
  method BackupDevice(device: Device, read: ManifestRead, backupRoot: string, rootDirOk: bool,
                      outcome: nat -> EntryOutcome)
      returns (copies: seq<CopyCommand>, ghost writes: seq<real>)
    modifies device`backupStatus, device`backupProgress
    ensures var r := Backup(read, backupRoot, rootDirOk, outcome);
      && device.State() == old(device.State()).(backupStatus := r.status, backupProgress := r.progress)
      && copies == r.copies
      && writes == r.writes
  {
    device.backupStatus := BackingUp;
    device.backupProgress := 0.0;
    writes := [0.0];
    copies := [];
    match read {
      case ReadRaised =>
        device.backupStatus := Error;
      case ReadOk(m) =>
        if m.phoneName.None? {
          device.backupStatus := Error;
          return;
        }
        var backupDir := PathJoin(backupRoot, m.phoneName.value);
        if !rootDirOk {
          device.backupStatus := Error;
          return;
        }
        if m.folders.None? {
          device.backupStatus := Error;
          return;
        }
        var folders := m.folders.value;
        var total := |folders|;
        var current := 0;
        for i := 0 to |folders|
          invariant current == i
          invariant device.backupStatus == BackingUp
          invariant Loop(folders, backupDir, outcome, i) == Progress(false, device.backupProgress, writes, copies)
        {
          current := current + 1;
          match folders[i] {
            case NotAnObject =>
              device.backupStatus := Error;
              LoopStaysAborted(folders, backupDir, outcome, i + 1, |folders|);
              return;
            case Folder(source, destination) =>
              if destination.None? {
                device.backupStatus := Error;
                LoopStaysAborted(folders, backupDir, outcome, i + 1, |folders|);
                return;
              }
              var destPath := PathJoin(backupDir, destination.value);
              match outcome(i) {
                case EntryRaised =>
                  device.backupStatus := Error;
                  LoopStaysAborted(folders, backupDir, outcome, i + 1, |folders|);
                  return;
                case Copied(_) =>
                  // a failed copy is only logged
                  copies := copies + [CopyCommand(source, destPath)];
              }
              device.backupProgress := Percent(current, total);
              writes := writes + [device.backupProgress];
          }
        }
        device.backupStatus := UpToDate;
        device.backupProgress := 100.0;
        writes := writes + [100.0];
    }
  }
}
