/**
 * app.py: the image-name check, the parse of `adb devices -l`, the manifest the
 * add-device form generates, and the add-device route's decision to register.
 */
module App {
  import opened Wrappers
  import opened Text
  import opened Devices
  import opened BackupSystem

  // ---------------------------------------------------------------------------
  // allowed_file
  // ---------------------------------------------------------------------------

  /** `ALLOWED_EXTENSIONS`. */
  const AllowedExtensions: set<string> := {"png", "jpg", "jpeg", "gif"}

  /**
   * `allowed_file`: the text after the last '.', lower-cased, is an allowed
   * extension. Lower-casing is ASCII; no other character lower-cases to a
   * string that completes one of the four extensions.
   */
  function AllowedFile(filename: string): (ok: bool)
    ensures '.' !in filename ==> !ok
  {
    match LastIndexOf(filename, '.')
    case None => false
    case Some(i) => LowerAscii(filename[i + 1..]) in AllowedExtensions
  }

  /** A dot with no dot after it is the last one. */
  ghost predicate LastDot(filename: string, i: int) {
    0 <= i < |filename| && filename[i] == '.' && forall j :: i < j < |filename| ==> filename[j] != '.'
  }

  /** allowed_file accepts exactly the names whose text after the last dot, lower-cased, is allowed. */
  lemma AllowedFileIff(filename: string)
    ensures AllowedFile(filename) <==>
      exists i :: LastDot(filename, i) && LowerAscii(filename[i + 1..]) in AllowedExtensions
  {
    var r := LastIndexOf(filename, '.');
    if r.Some? {
      assert LastDot(filename, r.value);
      forall i | LastDot(filename, i)
        ensures i == r.value
      {
      }
    }
  }

  /** Names that differ only in the case of ASCII letters are accepted or rejected alike. */
  lemma AllowedFileIgnoresCase(a: string, b: string)
    requires SameUpToCase(a, b)
    ensures AllowedFile(a) == AllowedFile(b)
  {
    assert forall j :: 0 <= j < |a| ==> (a[j] == '.' <==> b[j] == '.');
    assert ('.' in a) == ('.' in b) by {
      if '.' in a { var j :| 0 <= j < |a| && a[j] == '.'; assert b[j] == '.'; }
      if '.' in b { var j :| 0 <= j < |b| && b[j] == '.'; assert a[j] == '.'; }
    }
    var ra := LastIndexOf(a, '.');
    var rb := LastIndexOf(b, '.');
    if ra.Some? {
      var i := ra.value;
      assert rb.Some?;
      assert rb.value == i;
      var sa, sb := a[i + 1..], b[i + 1..];
      assert SameUpToCase(sa, sb) by {
        forall k | 0 <= k < |sa|
          ensures CaseMates(sa[k], sb[k])
        {
          assert sa[k] == a[i + 1 + k] && sb[k] == b[i + 1 + k];
        }
      }
      LowerAsciiCaseless(a[i + 1..], b[i + 1..]);
    }
  }

  /** Only the last extension counts, whatever its case. */
  lemma AcceptsLastExtension(name: string)
    requires name == "a.tar.PNG"
    ensures AllowedFile(name)
  {
    AllowedFileIff(name);
    assert LastDot(name, 5);
    var ext := name[6..];
    assert ext == "PNG";
    assert LowerAscii(ext) == "png";
  }

  /** An allowed extension that is not the last one does not count. */
  lemma RejectsEarlierExtension(name: string)
    requires name == "png.txt"
    ensures !AllowedFile(name)
  {
    AllowedFileIff(name);
    forall i | LastDot(name, i)
      ensures LowerAscii(name[i + 1..]) !in AllowedExtensions
    {
      assert i == 3;
      var ext := name[4..];
      assert ext == "txt";
      assert LowerAscii(ext) == "txt";
    }
  }

  /** A bare extension without a dot is rejected. */
  lemma RejectsNoDot(name: string)
    requires name == "png"
    ensures !AllowedFile(name)
  {
    assert forall k :: 0 <= k < |name| ==> name[k] != '.';
  }

  // ---------------------------------------------------------------------------
  // get_connected_device_info
  // ---------------------------------------------------------------------------

  /** What `get_connected_device_info` returns: (serial, vendor_id, product_id). */
  datatype DeviceInfo = DeviceInfo(serial: Option<string>, vendorId: Option<string>, productId: Option<string>)

  const NoInfo := DeviceInfo(None, None, None)

  /** A line that describes a device: it mentions "device" and is not the header. */
  predicate Qualifies(line: string) {
    Contains(line, "device") && !("List of devices" <= line)
  }

  lemma QualifyingLineHasWords(line: string)
    requires Contains(line, "device")
    ensures |Words(line)| > 0
  {
    ContainsChar(line, "device", 0);
    var k :| 0 <= k < |line| && line[k] == 'd';
    FirstWord(line, k);
  }

  /** `part.split(":")[1]` of the last part that contains `tag`, or None. */
  function LastTagged(parts: seq<string>, tag: string): Option<string>
    requires |tag| > 0 && tag[|tag| - 1] == ':'
    decreases |parts|
  {
    if |parts| == 0 then None
    else
      var last := parts[|parts| - 1];
      if Contains(last, tag) then
        ContainsChar(last, tag, |tag| - 1);
        Some(Split(last, ':')[1])
      else LastTagged(parts[..|parts| - 1], tag)
  }

  /** LastTagged is the field of the last tagged part, and None iff no part is tagged. */
  lemma {:induction false} LastTaggedIsLast(parts: seq<string>, tag: string)
    requires |tag| > 0 && tag[|tag| - 1] == ':'
    ensures LastTagged(parts, tag).None? <==> forall i :: 0 <= i < |parts| ==> !Contains(parts[i], tag)
    ensures LastTagged(parts, tag).Some? ==>
      exists i :: 0 <= i < |parts| && Contains(parts[i], tag)
        && (forall j :: i < j < |parts| ==> !Contains(parts[j], tag))
        && ':' in parts[i] && LastTagged(parts, tag).value == Split(parts[i], ':')[1]
    decreases |parts|
  {
    if |parts| > 0 {
      var n := |parts| - 1;
      var init := parts[..n];
      assert forall i :: 0 <= i < n ==> init[i] == parts[i];
      if Contains(parts[n], tag) {
        ContainsChar(parts[n], tag, |tag| - 1);
      } else {
        LastTaggedIsLast(init, tag);
      }
    }
  }

  /** The triple for one qualifying line: its first word, then the last vendor and product fields. */
  function InfoOf(line: string): DeviceInfo
    requires Qualifies(line)
  {
    QualifyingLineHasWords(line);
    var parts := Words(line);
    DeviceInfo(Some(parts[0]), LastTagged(parts, "vendor:"), LastTagged(parts, "product:"))
  }

  /** The body of the loop for a qualifying line: the first token, then every part scanned for the two tags. */
  method DeviceLineInfo(line: string) returns (info: DeviceInfo)
    requires Qualifies(line)
    ensures info == InfoOf(line)
  {
    QualifyingLineHasWords(line);
    var parts := Words(line);
    var serial := parts[0];
    var vendorId: Option<string> := None;
    var productId: Option<string> := None;
    for j := 0 to |parts|
      invariant vendorId == LastTagged(parts[..j], "vendor:")
      invariant productId == LastTagged(parts[..j], "product:")
    {
      var part := parts[j];
      assert parts[..j + 1][..j] == parts[..j];
      if Contains(part, "vendor:") {
        ContainsChar(part, "vendor:", 6);
        vendorId := Some(Split(part, ':')[1]);
      }
      if Contains(part, "product:") {
        ContainsChar(part, "product:", 7);
        productId := Some(Split(part, ':')[1]);
      }
    }
    assert parts[..|parts|] == parts;
    info := DeviceInfo(Some(serial), vendorId, productId);
  }

  /**
   * `get_connected_device_info` over the lines of `adb devices -l` (None when the
   * command raised): the first qualifying line decides, and no later line is read.
   */
  method ConnectedDeviceInfo(adbOutput: Option<seq<string>>) returns (info: DeviceInfo)
    ensures adbOutput.None? ==> info == NoInfo
    ensures adbOutput.Some? ==>
      ((forall i :: 0 <= i < |adbOutput.value| ==> !Qualifies(adbOutput.value[i])) <==> info == NoInfo)
    ensures adbOutput.Some? ==>
      forall i :: (0 <= i < |adbOutput.value| && Qualifies(adbOutput.value[i])
        && forall k :: 0 <= k < i ==> !Qualifies(adbOutput.value[k])) ==> info == InfoOf(adbOutput.value[i])
  {
    if adbOutput.None? {
      return NoInfo;
    }
    var lines := adbOutput.value;
    for i := 0 to |lines|
      invariant forall k :: 0 <= k < i ==> !Qualifies(lines[k])
    {
      var line := lines[i];
      if Contains(line, "device") && !("List of devices" <= line) {
        info := DeviceLineInfo(line);
        return;
      }
    }
    return NoInfo;
  }

  // ---------------------------------------------------------------------------
  // The add-device route
  // ---------------------------------------------------------------------------

  /** The JSON document the form generates, before `json.dumps`. */
  function NewManifest(phoneId: string, phoneName: Option<string>, imageFilename: string): Manifest {
    Manifest(Some(phoneId), phoneName, Some("/sdcard/Documents/BackupConfig"), Some(imageFilename), Some([]))
  }

  /** How the route ends. */
  datatype AddResult =
    | MissingIds      // a vendor or product id is None or empty
    | InvalidIds      // `int()` raised, which the route does not catch
    | UnknownDevice   // no Device is registered under the key
    | PushFailed      // push_json returned False
    | Registered(key: Key)

  /** `(int(vendor_id), int(product_id))` when both are non-empty and parse. */
  function ParsedKey(info: DeviceInfo): Option<Key> {
    if !Truthy(info.vendorId) || !Truthy(info.productId) then None
    else match (ParseInt(info.vendorId.value), ParseInt(info.productId.value))
      case (Some(v), Some(p)) => Some((v, p))
      case _ => None
  }

  /**
   * The route's decision: register only a key that is already registered, and
   * only when the manifest push succeeded.
   */
  function Decide(info: DeviceInfo, registered: set<Key>, pushed: bool): (r: AddResult)
    ensures !Truthy(info.vendorId) || !Truthy(info.productId) ==> r == MissingIds
    ensures r.Registered? <==> ParsedKey(info).Some? && ParsedKey(info).value in registered && pushed
    ensures r.Registered? ==> r.key == ParsedKey(info).value && r.key in registered
  {
    if !Truthy(info.vendorId) || !Truthy(info.productId) then MissingIds
    else
      var v := ParseInt(info.vendorId.value);
      var p := ParseInt(info.productId.value);
      if v.None? || p.None? then InvalidIds
      else if (v.value, p.value) !in registered then UnknownDevice
      else if pushed then Registered((v.value, p.value))
      else PushFailed
  }

  /**
   * A POST to `/add_device` with the result of get_connected_device_info, the
   * form's phone name, the saved image's name, a fresh phone id, and the outcome
   * of push_json's file write and `adb push`. Returns how it ended and the
   * manifest pushed, if a push was attempted.
   */
  method AddDeviceRoute(manager: DeviceManager, info: DeviceInfo, phoneId: string,
                        phoneName: Option<string>, imageFilename: string,
                        tempWritten: bool, push: CommandOutcome)
      returns (result: AddResult, pushedManifest: Option<Manifest>)
    requires manager.Valid()
    modifies manager
    ensures manager.Valid()
    ensures result == Decide(info, old(manager.devices.Keys), PushJson(tempWritten, push))
    ensures pushedManifest.Some? <==> ParsedKey(info).Some? && ParsedKey(info).value in old(manager.devices)
    ensures pushedManifest.Some? ==> pushedManifest.value == NewManifest(phoneId, phoneName, imageFilename)
    // the registry never gains a key: a registered key gets a fresh default Device
    ensures manager.devices.Keys == old(manager.devices.Keys)
    ensures !result.Registered? ==> manager.devices == old(manager.devices)
    ensures result.Registered? ==>
      && fresh(manager.devices[result.key])
      && manager.devices[result.key].State() == Initial
      && forall k :: k in old(manager.devices) && k != result.key ==> manager.devices[k] == old(manager.devices[k])
  {
    pushedManifest := None;
    if !Truthy(info.vendorId) || !Truthy(info.productId) {
      return MissingIds, None;
    }
    var vendorId := ParseInt(info.vendorId.value);
    var productId := ParseInt(info.productId.value);
    if vendorId.None? || productId.None? {
      return InvalidIds, None;
    }
    var device := manager.GetDevice(vendorId.value, productId.value);
    var manifest := NewManifest(phoneId, phoneName, imageFilename);
    if device.None? {
      return UnknownDevice, None;
    }
    pushedManifest := Some(manifest);
    if PushJson(tempWritten, push) {
      manager.AddDevice(vendorId.value, productId.value);
      result := Registered((vendorId.value, productId.value));
    } else {
      result := PushFailed;
    }
  }

  /** As written, push_json always fails, so the route never registers a device. */
  lemma AddDeviceAsWrittenNeverRegisters(info: DeviceInfo, registered: set<Key>, tempWritten: bool, push: CommandOutcome)
    ensures !Decide(info, registered, PushJsonAsWritten(tempWritten, push)).Registered?
  {
  }

  /**
   * The registry starts empty and the route registers only a key it already
   * holds, so the first POST to `/add_device` of a run never registers a phone.
   */
  method EmptyRegistryStaysEmpty(info: DeviceInfo, phoneId: string, phoneName: Option<string>,
                                 imageFilename: string, tempWritten: bool, push: CommandOutcome)
      returns (result: AddResult, manager: DeviceManager)
    ensures !result.Registered?
    ensures ParsedKey(info).Some? ==> result == UnknownDevice
    ensures manager.devices == map[]
  {
    manager := new DeviceManager();
    var pushed;
    result, pushed := AddDeviceRoute(manager, info, phoneId, phoneName, imageFilename, tempWritten, push);
  }

  /**
   * The decision the add-device form evidently intends: a phone whose ids
   * parse is registered when its manifest was pushed, whether or not its key
   * was known before.
   */
  function DecideIntended(info: DeviceInfo, pushed: bool): (r: AddResult)
    ensures !Truthy(info.vendorId) || !Truthy(info.productId) ==> r == MissingIds
    ensures r.Registered? <==> ParsedKey(info).Some? && pushed
    ensures r.Registered? ==> r.key == ParsedKey(info).value
    ensures r != UnknownDevice
  {
    if !Truthy(info.vendorId) || !Truthy(info.productId) then MissingIds
    else
      var v := ParseInt(info.vendorId.value);
      var p := ParseInt(info.productId.value);
      if v.None? || p.None? then InvalidIds
      else if pushed then Registered((v.value, p.value))
      else PushFailed
  }

  /** The route as written decides as intended, except that it turns away every key it does not hold. */
  lemma DecideIsIntendedForKnownKeys(info: DeviceInfo, registered: set<Key>, pushed: bool)
    ensures Decide(info, registered, pushed)
         == if ParsedKey(info).Some? && ParsedKey(info).value !in registered then UnknownDevice
            else DecideIntended(info, pushed)
  {
  }

  /** The route with the intended decision: an unknown phone gets a fresh Device once its manifest is pushed. */
  method AddDeviceRouteIntended(manager: DeviceManager, info: DeviceInfo, phoneId: string,
                                phoneName: Option<string>, imageFilename: string,
                                tempWritten: bool, push: CommandOutcome)
      returns (result: AddResult, pushedManifest: Option<Manifest>)
    requires manager.Valid()
    modifies manager
    ensures manager.Valid()
    ensures result == DecideIntended(info, PushJson(tempWritten, push))
    ensures pushedManifest.Some? <==> ParsedKey(info).Some?
    ensures pushedManifest.Some? ==> pushedManifest.value == NewManifest(phoneId, phoneName, imageFilename)
    ensures !result.Registered? ==> manager.devices == old(manager.devices)
    ensures result.Registered? ==>
      && manager.devices.Keys == old(manager.devices.Keys) + {result.key}
      && fresh(manager.devices[result.key])
      && manager.devices[result.key].State() == Initial
      && forall k :: k in old(manager.devices) && k != result.key ==> manager.devices[k] == old(manager.devices[k])
  {
    pushedManifest := None;
    if !Truthy(info.vendorId) || !Truthy(info.productId) {
      return MissingIds, None;
    }
    var vendorId := ParseInt(info.vendorId.value);
    var productId := ParseInt(info.productId.value);
    if vendorId.None? || productId.None? {
      return InvalidIds, None;
    }
    pushedManifest := Some(NewManifest(phoneId, phoneName, imageFilename));
    if PushJson(tempWritten, push) {
      manager.AddDevice(vendorId.value, productId.value);
      result := Registered((vendorId.value, productId.value));
    } else {
      result := PushFailed;
    }
  }

  /** With the intended decision, the first registration of a run does add the phone. */
  method FirstRegistrationIntended(info: DeviceInfo, phoneId: string, phoneName: Option<string>,
                                   imageFilename: string, tempWritten: bool, push: CommandOutcome)
      returns (result: AddResult, manager: DeviceManager)
    ensures result.Registered? <==> ParsedKey(info).Some? && PushJson(tempWritten, push)
    ensures manager.devices.Keys == if result.Registered? then {result.key} else {}
  {
    manager := new DeviceManager();
    var pushed;
    result, pushed := AddDeviceRouteIntended(manager, info, phoneId, phoneName, imageFilename, tempWritten, push);
  }

  // ---------------------------------------------------------------------------
  // The generated manifest, read back
  // ---------------------------------------------------------------------------

  /** A pushed manifest read back by a poll identifies the device with the form's values. */
  lemma NewManifestIdentifies(s: DeviceState, lines: seq<string>, code: int, err: string,
                              phoneId: string, phoneName: Option<string>, imageFilename: string)
    requires FirstSerial(lines).Some? && CheckJson(code, err)
    ensures var r := ConnectStep(s, ConnectInputs(Some(lines), Exited(code, err),
                                                  ReadOk(NewManifest(phoneId, phoneName, imageFilename))));
      && r.status == Online && r.identified
      && r.phoneId == Some(phoneId) && r.name == phoneName && r.imageFilename == Some(imageFilename)
      && r.backupStatus == s.backupStatus
  {
    FirstSerialNonEmpty(lines);
  }

  /**
   * Backing up from a freshly generated manifest copies nothing: it ends
   * "Up-to-date" at 100, or "Error" when the form gave no phone name or the
   * backup directory could not be created.
   */
  lemma NewManifestBackup(phoneId: string, phoneName: Option<string>, imageFilename: string,
                          root: string, rootDirOk: bool, outcome: nat -> EntryOutcome)
    ensures Backup(ReadOk(NewManifest(phoneId, phoneName, imageFilename)), root, rootDirOk, outcome)
         == if phoneName.Some? && rootDirOk then Run(UpToDate, 100.0, [0.0, 100.0], [])
            else Run(Error, 0.0, [0.0], [])
  {
  }

  // ---------------------------------------------------------------------------
  // One device from registration to backup
  // ---------------------------------------------------------------------------

  /** A word run, then a whitespace run, then a character other than 'd': no serial. */
  lemma NoSerialAfter(line: string, n: nat, m: nat)
    requires 0 < n < m < |line|
    requires forall i :: 0 <= i < n ==> IsWordChar(line[i])
    requires forall i :: n <= i < m ==> IsSpace(line[i])
    requires !IsSpace(line[m]) && line[m] != 'd'
    ensures MatchSerial(line).None?
  {
    assert !IsWordChar(line[n]) by { assert IsSpace(line[n]); }
    SpanUnique(line, IsWordChar, n);
    var rest := line[n..];
    assert forall i :: 0 <= i < m - n ==> IsSpace(rest[i]) by {
      forall i | 0 <= i < m - n ensures IsSpace(rest[i]) { assert rest[i] == line[n + i]; }
    }
    assert rest[m - n] == line[m];
    SpanUnique(rest, IsSpace, m - n);
    assert line[m..][0] == line[m];
  }

  /** The header of `adb devices` names no serial. */
  lemma HeaderHasNoSerial(header: string)
    requires header == "List of devices attached"
    ensures MatchSerial(header).None?
  {
    assert header[0] == 'L' && header[1] == 'i' && header[2] == 's' && header[3] == 't';
    assert header[4] == ' ' && header[5] == 'o';
    NoSerialAfter(header, 4, 5);
  }

  /** A phone's line of `adb devices` names its serial. */
  lemma PhoneLineSerial(line: string)
    requires line == "ABC123\tdevice"
    ensures MatchSerial(line) == Some("ABC123")
  {
    assert line[..6] == "ABC123";
    assert line[7..13] == "device";
    assert SerialPatternAt(line, "ABC123", 7);
    MatchSerialComplete(line, "ABC123", 7);
  }

  /** `adb devices` with one attached phone: the header does not match, the phone's line does. */
  lemma {:induction false} ScenarioSerial(lines: seq<string>)
    requires lines == ["List of devices attached", "ABC123\tdevice"]
    ensures FirstSerial(lines) == Some("ABC123")
  {
    HeaderHasNoSerial(lines[0]);
    PhoneLineSerial(lines[1]);
    SecondLineSerial(lines, "ABC123");
  }

  lemma {:induction false} SecondLineSerial(lines: seq<string>, w: string)
    requires |lines| == 2 && MatchSerial(lines[0]).None? && MatchSerial(lines[1]) == Some(w)
    ensures FirstSerial(lines) == Some(w)
  {
    assert lines[1..][1..] == [];
  }

  /** The scenario's poll, on a freshly registered Device. */
  lemma ScenarioConnect(io: ConnectInputs, m: Manifest)
    requires io == ConnectInputs(Some(["List of devices attached", "ABC123\tdevice"]), Exited(0, ""), ReadOk(m))
    ensures ConnectStep(Initial, io)
         == DeviceState(Some("ABC123"), m.phoneName, Online, Unknown, 0.0, m.imageFilename, m.phoneId, None, true)
  {
    ScenarioSerial(io.adbDevices.value);
    assert CheckJson(0, "");
  }

  /** Register (6353, 146) in an empty registry and poll it once with the link's answers `io`. */
  method RegisterAndPoll(io: ConnectInputs) returns (device: Device)
    ensures fresh(device)
    ensures device.State() == ConnectStep(Initial, io)
  {
    var manager := new DeviceManager();
    manager.AddDevice(6353, 146);
    var key := (6353, 146);
    device := manager.devices[key];
    manager.PollOnce(k => io);
  }

  /**
   * A registered device polled once while its phone is attached and carries a
   * manifest with no folders is identified and still "Unknown" for backup; a
   * backup then ends "Up-to-date" at 100.
   */
  method EndToEndScenario() returns (polled: DeviceState, backedUp: DeviceState)
    ensures polled.status == Online && polled.serial == Some("ABC123") && polled.identified
    ensures polled.phoneId == Some("p1") && polled.name == Some("Pixel") && polled.imageFilename == Some("pixel.png")
    ensures polled.backupStatus == Unknown && polled.backupProgress == 0.0
    ensures backedUp == polled.(backupStatus := UpToDate, backupProgress := 100.0)
  {
    var manifest := Manifest(Some("p1"), Some("Pixel"), None, Some("pixel.png"), Some([]));
    var io := ConnectInputs(Some(["List of devices attached", "ABC123\tdevice"]), Exited(0, ""), ReadOk(manifest));
    var device := RegisterAndPoll(io);
    ScenarioConnect(io, manifest);
    polled := device.State();
    var outcome: nat -> EntryOutcome := i => Copied(true);
    BackupEmptyFolders(manifest, "/backups", outcome);
    var copies, writes := BackupDevice(device, ReadOk(manifest), "/backups", true, outcome);
    backedUp := device.State();
  }
}
