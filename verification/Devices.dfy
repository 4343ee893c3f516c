/**
 * device_manager.py: the Device entity with its connectivity and identification
 * state machine, and the DeviceManager registry keyed by (vendor id, product id).
 *
 * Every adb invocation is an input value: the output lines of `adb devices`
 * (or None when the command raised), the outcome of the `ls` probe of the
 * manifest path, and the result of pulling and parsing the manifest.
 */
module Devices {
  import opened Wrappers
  import opened Text

  // ---------------------------------------------------------------------------
  // Values
  // ---------------------------------------------------------------------------

  /** `status`: the strings "Offline" and "Online". */
  datatype Status = Offline | Online

  /** `backup_status`: "Unknown", "Backing Up", "Up-to-date" and "Error". */
  datatype BackupStatus = Unknown | BackingUp | UpToDate | Error

  /** One element of `folders_to_backup`: an object with optional keys, or some other JSON value. */
  datatype FolderEntry = Folder(source: Option<string>, destination: Option<string>) | NotAnObject

  /**
   * The manifest file as parsed by `json.load`, as far as the core reads it:
   * each key is None when absent or null.
   */
  datatype Manifest = Manifest(
    phoneId: Option<string>,
    phoneName: Option<string>,
    backupLocation: Option<string>,
    imageFilename: Option<string>,
    folders: Option<seq<FolderEntry>>)

  /** A `subprocess.run` call: it raised, or it exited with a return code and a stderr text. */
  datatype CommandOutcome = Raised | Exited(returnCode: int, stderr: string)

  /**
   * Pulling the manifest to the temporary file, opening it and `json.load`:
   * either one of them raised, or the file parsed to an object.
   */
  datatype ManifestRead = ReadRaised | ReadOk(manifest: Manifest)

  /** What the adb link answers during one `connect`. */
  datatype ConnectInputs = ConnectInputs(
    adbDevices: Option<seq<string>>,
    probe: CommandOutcome,
    read: ManifestRead)

  /** The mutable attributes of a Device, as one value. */
  datatype DeviceState = DeviceState(
    serial: Option<string>,
    name: Option<string>,
    status: Status,
    backupStatus: BackupStatus,
    backupProgress: real,
    imageFilename: Option<string>,
    phoneId: Option<string>,
    handle: Option<string>,
    identified: bool)

  /** The identification triple (phone_id, name, image_filename). */
  datatype Identity = Identity(phoneId: Option<string>, name: Option<string>, imageFilename: Option<string>)

  function IdentityOf(s: DeviceState): Identity {
    Identity(s.phoneId, s.name, s.imageFilename)
  }

  function ManifestIdentity(m: Manifest): Identity {
    Identity(m.phoneId, m.phoneName, m.imageFilename)
  }

  /** The state of a Device just constructed. */
  const Initial := DeviceState(None, None, Offline, Unknown, 0.0, None, None, None, false)

  // ---------------------------------------------------------------------------
  // get_serial
  // ---------------------------------------------------------------------------

  /**
   * `re.match(r"(\w+)\s+device", line)`, and group 1 when it matches. Since word
   * characters and whitespace are disjoint, the group is the maximal leading run
   * of word characters and the whitespace run after it is maximal too.
   */
  function MatchSerial(line: string): Option<string> {
    var n := Span(line, IsWordChar);
    if n == 0 then None
    else
      var m := n + Span(line[n..], IsSpace);
      if m == n then None
      else if "device" <= line[m..] then Some(line[..n])
      else None
  }

  /** The regular expression as a language: `w`, then whitespace up to `j`, then "device". */
  ghost predicate SerialPatternAt(line: string, w: string, j: nat) {
    && 0 < |w| < j
    && j + 6 <= |line|
    && line[..|w|] == w
    && (forall i :: 0 <= i < |w| ==> IsWordChar(w[i]))
    && (forall i :: |w| <= i < j ==> IsSpace(line[i]))
    && line[j..j + 6] == "device"
  }

  lemma MatchSerialSound(line: string)
    requires MatchSerial(line).Some?
    ensures exists j: nat :: SerialPatternAt(line, MatchSerial(line).value, j)
  {
    var n := Span(line, IsWordChar);
    var m := n + Span(line[n..], IsSpace);
    assert SerialPatternAt(line, line[..n], m);
  }

  lemma MatchSerialComplete(line: string, w: string, j: nat)
    requires SerialPatternAt(line, w, j)
    ensures MatchSerial(line) == Some(w)
  {
    var n := |w|;
    assert !IsWordChar(line[n]) by { assert IsSpace(line[n]); }
    SpanUnique(line, IsWordChar, n);
    var rest := line[n..];
    assert forall i :: 0 <= i < j - n ==> IsSpace(rest[i]) by {
      forall i | 0 <= i < j - n ensures IsSpace(rest[i]) { assert rest[i] == line[n + i]; }
    }
    assert !IsSpace(rest[j - n]) by { assert rest[j - n] == line[j] == 'd'; }
    SpanUnique(rest, IsSpace, j - n);
    assert line[j..][..6] == "device";
  }

  /** The loop of `get_serial` over the lines of `adb devices`: the first line that matches. */
  function FirstSerial(lines: seq<string>): Option<string>
    decreases |lines|
  {
    if |lines| == 0 then None
    else match MatchSerial(lines[0])
      case Some(w) => Some(w)
      case None => FirstSerial(lines[1..])
  }

  /** `get_serial`: None when `adb devices` raised or no line matched. */
  function GetSerial(adbDevices: Option<seq<string>>): Option<string> {
    match adbDevices
    case None => None
    case Some(lines) => FirstSerial(lines)
  }

  /** FirstSerial is the word of the first matching line, and None iff no line matches. */
  lemma {:induction false} FirstSerialIsFirstMatch(lines: seq<string>)
    ensures FirstSerial(lines).None? <==> forall i :: 0 <= i < |lines| ==> MatchSerial(lines[i]).None?
    ensures FirstSerial(lines).Some? ==>
      exists i :: 0 <= i < |lines| && MatchSerial(lines[i]) == FirstSerial(lines)
        && forall k :: 0 <= k < i ==> MatchSerial(lines[k]).None?
    decreases |lines|
  {
    if |lines| == 0 {
    } else if MatchSerial(lines[0]).Some? {
      assert FirstSerial(lines) == MatchSerial(lines[0]);
    } else {
      var rest := lines[1..];
      assert FirstSerial(lines) == FirstSerial(rest);
      FirstSerialIsFirstMatch(rest);
      assert forall i :: 1 <= i < |lines| ==> lines[i] == rest[i - 1];
      if FirstSerial(rest).Some? {
        var i :| 0 <= i < |rest| && MatchSerial(rest[i]) == FirstSerial(rest)
          && forall k :: 0 <= k < i ==> MatchSerial(rest[k]).None?;
        assert lines[i + 1] == rest[i];
        assert forall k :: 0 <= k < i + 1 ==> MatchSerial(lines[k]).None? by {
          forall k | 0 <= k < i + 1 ensures MatchSerial(lines[k]).None? {
            if k > 0 { assert lines[k] == rest[k - 1]; }
          }
        }
      }
    }
  }

  /** A serial reported by get_serial is never empty, so it is always truthy. */
  lemma {:induction false} FirstSerialNonEmpty(lines: seq<string>)
    ensures FirstSerial(lines).Some? ==> |FirstSerial(lines).value| > 0
    decreases |lines|
  {
    if |lines| > 0 && MatchSerial(lines[0]).None? {
      FirstSerialNonEmpty(lines[1..]);
    }
  }

  // ---------------------------------------------------------------------------
  // check_json and push_json
  // ---------------------------------------------------------------------------

  /** `check_json`: the `ls` of the manifest path exited with 0 and did not say "No such file". */
  function CheckJson(returnCode: int, stderr: string): (found: bool)
    ensures found <==> returnCode == 0 && !exists i: nat :: OccursAt(stderr, "No such file", i)
  {
    ContainsIffOccurs(stderr, "No such file");
    returnCode == 0 && !Contains(stderr, "No such file")
  }

  /**
   * The value `push_json` returns: True only when the temporary file was written
   * and `adb push` exited with 0; a raised exception or a non-zero code gives False.
   */
  function PushJson(tempWritten: bool, push: CommandOutcome): (ok: bool)
  {
    tempWritten && push.Exited? && push.returnCode == 0
  }

  /**
   * `push_json` as the file stands: device_manager.py never imports JSON_PATH,
   * so formatting the push command raises NameError, which the `except
   * Exception` turns into False whatever the link would have answered.
   */
  function PushJsonAsWritten(tempWritten: bool, push: CommandOutcome): bool {
    false
  }

  /** As written, push_json fails even on a push that PushJson accepts. */
  lemma PushJsonAsWrittenFails(tempWritten: bool, push: CommandOutcome)
    ensures !PushJsonAsWritten(tempWritten, push)
    ensures PushJson(true, Exited(0, "")) && !PushJsonAsWritten(true, Exited(0, ""))
  {
  }

  // ---------------------------------------------------------------------------
  // connect and disconnect
  // ---------------------------------------------------------------------------

  /** The state after `connect`, as a function of the state before and the link's answers. */
  function ConnectStep(s: DeviceState, io: ConnectInputs): (r: DeviceState)
    // connect never touches the backup fields or the device handle
    ensures r.backupStatus == s.backupStatus && r.backupProgress == s.backupProgress
    ensures r.handle == s.handle
    // the serial is the first attached device's, whichever device this is
    ensures r.serial == GetSerial(io.adbDevices)
    ensures r.status == Online <==> Truthy(r.serial)
    // identification is all or nothing
    ensures IdentityOf(r) == IdentityOf(s)
         || (io.read.ReadOk? && IdentityOf(r) == ManifestIdentity(io.read.manifest))
    ensures r.identified ==> s.identified || io.read.ReadOk?
  {
    var serial := GetSerial(io.adbDevices);
    if Truthy(serial) then
      var online := s.(serial := serial, status := Online);
      match io.probe
      case Raised => online
      case Exited(code, err) =>
        if CheckJson(code, err) then
          match io.read
          case ReadRaised => online
          case ReadOk(m) =>
            online.(phoneId := m.phoneId, name := m.phoneName,
                    imageFilename := m.imageFilename, identified := true)
        else online.(identified := false)
    else s.(serial := serial, status := Offline)
  }

  /** No serial: the device goes Offline and nothing else but the serial changes. */
  lemma ConnectWithoutSerial(s: DeviceState, io: ConnectInputs)
    requires GetSerial(io.adbDevices).None?
    ensures ConnectStep(s, io) == s.(serial := None, status := Offline)
  {
  }

  /** A serial and a manifest that reads: Online and identified from the manifest, on every poll. */
  lemma ConnectIdentifies(s: DeviceState, io: ConnectInputs, code: int, err: string, m: Manifest)
    requires Truthy(GetSerial(io.adbDevices))
    requires io.probe == Exited(code, err) && CheckJson(code, err)
    requires io.read == ReadOk(m)
    ensures var r := ConnectStep(s, io);
      && r.status == Online && r.identified
      && r.phoneId == m.phoneId && r.name == m.phoneName && r.imageFilename == m.imageFilename
  {
  }

  /** A serial but no manifest: identified is reset while the old identity fields are kept. */
  lemma ConnectManifestMissing(s: DeviceState, io: ConnectInputs, code: int, err: string)
    requires Truthy(GetSerial(io.adbDevices))
    requires io.probe == Exited(code, err) && !CheckJson(code, err)
    ensures var r := ConnectStep(s, io);
      r.status == Online && !r.identified && IdentityOf(r) == IdentityOf(s)
  {
  }

  /** A serial and a probe or read that raises: identified and the identity are unchanged. */
  lemma ConnectSwallowsErrors(s: DeviceState, io: ConnectInputs)
    requires Truthy(GetSerial(io.adbDevices))
    requires io.probe.Raised? || (CheckJson(io.probe.returnCode, io.probe.stderr) && io.read.ReadRaised?)
    ensures var r := ConnectStep(s, io);
      r == s.(serial := GetSerial(io.adbDevices), status := Online)
  {
  }

  /**
   * `connect` as the file stands: formatting check_json's command raises
   * NameError (JSON_PATH is not imported), and the bare `except` swallows it,
   * exactly as if the probe itself had raised.
   */
  function ConnectStepAsWritten(s: DeviceState, io: ConnectInputs): DeviceState {
    ConnectStep(s, io.(probe := Raised))
  }

  /** As written, a poll never identifies a device nor reads its manifest. */
  lemma ConnectAsWrittenNeverIdentifies(s: DeviceState, io: ConnectInputs)
    ensures ConnectStepAsWritten(s, io).identified == s.identified
    ensures IdentityOf(ConnectStepAsWritten(s, io)) == IdentityOf(s)
    ensures ConnectStepAsWritten(s, io).status == ConnectStep(s, io).status
  {
  }

  // ---------------------------------------------------------------------------
  // The Device object
  // ---------------------------------------------------------------------------

  class Device {
    const vendorId: int
    const productId: int
    var serial: Option<string>
    var name: Option<string>
    var status: Status
    var backupStatus: BackupStatus
    var backupProgress: real
    var imageFilename: Option<string>
    var phoneId: Option<string>
    /** The `device` attribute; the source only ever stores None in it. */
    var handle: Option<string>
    var identified: bool

    function State(): DeviceState
      reads this
    {
      DeviceState(serial, name, status, backupStatus, backupProgress,
                  imageFilename, phoneId, handle, identified)
    }

    constructor (vendorId: int, productId: int)
      ensures this.vendorId == vendorId && this.productId == productId
      ensures State() == Initial
    {
      this.vendorId := vendorId;
      this.productId := productId;
      serial := None;
      name := None;
      status := Offline;
      backupStatus := Unknown;
      backupProgress := 0.0;
      imageFilename := None;
      phoneId := None;
      handle := None;
      identified := false;
    }

    /** One poll of this device: refresh the serial, then try to identify it. */
    method Connect(io: ConnectInputs)
      modifies this
      ensures State() == ConnectStep(old(State()), io)
    {
      serial := GetSerial(io.adbDevices);
      if Truthy(serial) {
        status := Online;
        match io.probe
        case Raised =>
        case Exited(code, err) =>
          if CheckJson(code, err) {
            match io.read
            case ReadRaised =>
            case ReadOk(m) =>
              phoneId := m.phoneId;
              name := m.phoneName;
              imageFilename := m.imageFilename;
              identified := true;
          } else {
            identified := false;
          }
      } else {
        status := Offline;
      }
    }

    /** Offline, with the backup fields and the handle reset; identity is kept. */
    method Disconnect()
      modifies this
      ensures State() == old(State()).(status := Offline, backupStatus := Unknown,
                                       backupProgress := 0.0, handle := None)
    {
      status := Offline;
      backupStatus := Unknown;
      backupProgress := 0.0;
      handle := None;
    }
  }

  // ---------------------------------------------------------------------------
  // The registry
  // ---------------------------------------------------------------------------

  type Key = (int, int)

  class DeviceManager {
    var devices: map<Key, Device>

    /** Each key owns its own Device, and that Device carries the key's ids. */
    ghost predicate Valid()
      reads this
    {
      && (forall k :: k in devices ==> devices[k].vendorId == k.0 && devices[k].productId == k.1)
      && (forall k1, k2 :: k1 in devices && k2 in devices && k1 != k2 ==> devices[k1] != devices[k2])
    }

    constructor ()
      ensures Valid() && devices == map[]
    {
      devices := map[];
    }

    /** A fresh default Device under the key, replacing any previous one. */
    method AddDevice(vendorId: int, productId: int)
      requires Valid()
      modifies this
      ensures Valid()
      ensures devices.Keys == old(devices.Keys) + {(vendorId, productId)}
      ensures fresh(devices[(vendorId, productId)])
      ensures devices[(vendorId, productId)].State() == Initial
      ensures forall k :: k in old(devices) && k != (vendorId, productId) ==> devices[k] == old(devices[k])
    {
      var d := new Device(vendorId, productId);
      devices := devices[(vendorId, productId) := d];
    }

    /** The key is removed when present; otherwise nothing changes. */
    method RemoveDevice(vendorId: int, productId: int)
      requires Valid()
      modifies this
      ensures Valid()
      ensures devices == old(devices) - {(vendorId, productId)}
      ensures (vendorId, productId) !in old(devices) ==> devices == old(devices)
    {
      if (vendorId, productId) in devices {
        devices := devices - {(vendorId, productId)};
      }
    }

    /** The Device registered under the key, which carries those ids. */
    function GetDevice(vendorId: int, productId: int): (d: Option<Device>)
      requires Valid()
      reads this
      ensures d.Some? <==> (vendorId, productId) in devices
      ensures d.Some? ==> d.value == devices[(vendorId, productId)]
      ensures d.Some? ==> d.value.vendorId == vendorId && d.value.productId == productId
    {
      if (vendorId, productId) in devices then Some(devices[(vendorId, productId)]) else None
    }

    /** A snapshot of the registered Devices: each one exactly once. */
    method GetAllDevices() returns (ds: seq<Device>)
      requires Valid()
      ensures |ds| == |devices|
      ensures forall i :: 0 <= i < |ds| ==> ds[i] in devices.Values
      ensures forall k :: k in devices ==> devices[k] in ds
      ensures forall i, j :: 0 <= i < j < |ds| ==> ds[i] != ds[j]
    {
      ds := [];
      var todo := devices.Keys;
      ghost var ks: seq<Key> := [];
      while todo != {}
        invariant todo <= devices.Keys
        invariant |ds| == |ks| && |ks| + |todo| == |devices.Keys|
        invariant forall i :: 0 <= i < |ks| ==> ks[i] in devices && ks[i] !in todo && ds[i] == devices[ks[i]]
        invariant forall k :: k in devices && k !in todo ==> devices[k] in ds
        invariant forall i, j :: 0 <= i < j < |ds| ==> ds[i] != ds[j]
        decreases |todo|
      {
        var k :| k in todo;
        assert forall i :: 0 <= i < |ds| ==> ds[i] != devices[k] by {
          forall i | 0 <= i < |ds| ensures ds[i] != devices[k] { assert ks[i] != k; }
        }
        ds := ds + [devices[k]];
        ks := ks + [k];
        todo := todo - {k};
      }
      forall i | 0 <= i < |ds| ensures ds[i] in devices.Values {
        assert ks[i] in devices;
      }
    }

    /**
     * One pass of `update_device_status`: every registered Device is connected
     * once, with the link's answers for its key; the registry itself is unchanged.
     */
    method PollOnce(io: Key -> ConnectInputs)
      requires Valid()
      modifies devices.Values
      ensures forall k :: k in devices ==> devices[k].State() == ConnectStep(old(devices[k].State()), io(k))
    {
      var todo := devices.Keys;
      while todo != {}
        invariant todo <= devices.Keys
        invariant forall k :: k in devices && k !in todo ==>
          devices[k].State() == ConnectStep(old(devices[k].State()), io(k))
        invariant forall k :: k in todo ==> devices[k].State() == old(devices[k].State())
        decreases |todo|
      {
        var k :| k in todo;
        devices[k].Connect(io(k));
        todo := todo - {k};
      }
    }
  }
}
