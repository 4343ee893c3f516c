# AutoBackUp core in Dafny

AutoBackUp keeps a registry of Android phones, each keyed by its USB vendor and
product id. A poller watches each phone over adb and identifies it from a JSON
manifest stored on the phone. The system backs up the folders that manifest
lists into a local directory named after the phone. A small web front end
registers phones and generates their manifests.

This project models the sequential core of that system and proves what it does.
Every adb call, file access and JSON parse is an input value: the output lines of
`adb devices` (or None when the command raised), the outcome of a command
(`Raised`, or `Exited(code, stderr)`), and the manifest as read (`ReadRaised`, or
`ReadOk(manifest)` with optional fields).

- `Wrappers.dfy`: `Option`, and Python truthiness of an optional string.
- `Text.dfy`: the Python string built-ins the core relies on:
  - `sub in s`;
  - `str.split()` and `str.split(':')`, with `':'.join` as its inverse;
  - `rsplit('.', 1)` and ASCII `lower()`;
  - `int()` on a token;
  - POSIX `os.path.join` of two components.
- `Devices.dfy` (device_manager.py):
  - a `Device` class whose fields `Connect` and `Disconnect` update in place. Its `State()` view is proved equal to the pure transition `ConnectStep`;
  - `get_serial` as a first-match scan with the regular expression `(\w+)\s+device` written out;
  - `check_json` and the value `push_json` returns;
  - a `DeviceManager` class over a `map<(int, int), Device>`. It has add, remove, get, the snapshot of all devices, and one pass of the status poller.
- `BackupSystem.dfy` (backup_system.py):
  - the run of `backup_device` as a pure function `Backup`, built from a per-entry `Step` and a `Loop`;
  - the method `BackupDevice`, which writes the Device's backup fields as the source does. It is proved to end in the state `Backup` gives.
- `App.dfy` (app.py):
  - `allowed_file`;
  - `get_connected_device_info`, as a method with the source's nested loops and early return;
  - the manifest the add-device form generates;
  - the add-device route's decision. The route is a method that changes the registry;
  - one device taken from registration through a poll to a backup.

Progress is an exact real, `k / N * 100`. Integers are unbounded, as Python's are.

### Intended behaviour that the code does not deliver

Each item below states a behaviour the system is meant to have, then what the code does. The model follows the code in each case.

- **Connect without a serial.** Intended: a connect that finds no serial resets the backup state to Unknown and the progress to 0. Code: `connect` does neither; only `disconnect` resets those fields (`Devices.ConnectStep`, `Devices.ConnectWithoutSerial`).
- **When the manifest is read.** Intended: the manifest is read only while the device is unidentified. Code: `connect` reads it on every poll and overwrites the identity each time (`Devices.ConnectIdentifies`).
- **Partial identity.** Intended: identification either sets the whole identity or leaves it untouched. Code: it is not all-or-nothing, in two ways:
  - a missing manifest sets `identified` to False but keeps the old identity fields (`Devices.ConnectManifestMissing`);
  - a manifest without `phone_name` still identifies the device, with its name None.
- **Failed copies.** Intended: a failed copy shows in the terminal state. Code: the run reports "Up-to-date" whatever the copies returned (`BackupSystem.BackupIgnoresCopyResults`, `BackupSystem.BackupTerminalState`).
- **Adding a device.** Intended: the add-device form registers a new phone. Code: the route registers a device only when a Device is already registered under its key, and then replaces that Device with a fresh, unidentified one (`App.AddDeviceRoute`). Since the registry starts empty, no phone can ever be added (see Findings).

## Model

| member | source | states |
|---|---|---|
| Text.ContainsIffOccurs | app.py:25 | `sub in s` holds exactly when `sub` occurs at some position of `s` |
| Text.Words | app.py:26 | `str.split()` yields non-empty words, none of which contains a whitespace character |
| Text.WordsTile | app.py:26 | the string is its `split()` words put back between its gaps, and there is one gap more than there are words |
| Text.GapsAreSpace | app.py:26 | every gap around the words of `split()` is whitespace |
| Text.GapsSeparate | app.py:26 | every gap between two words is non-empty; with WordsTile and GapsAreSpace, the words are exactly the maximal runs of non-whitespace characters, in order |
| Text.FirstWord | app.py:26-27 | a line with a non-whitespace character has a first word, and it is the first maximal run of non-whitespace characters |
| Text.Split | app.py:31-33 | `split(':')` yields at least one field and no field contains ':'; there are two fields or more exactly when ':' occurs |
| Text.SplitJoin | app.py:31-33 | joining the fields of `split(':')` with ':' gives back the string |
| Text.LowerAscii | app.py:19 | ASCII lower-casing keeps the length and leaves no ASCII capital letter |
| Text.LowerAsciiCaseless | app.py:19 | two strings ASCII-lower-case to the same string exactly when they differ only in the case of ASCII letters |
| Text.LastIndexOf | app.py:19 | `rsplit('.', 1)` splits at a '.' that no later '.' follows; there is none exactly when '.' does not occur |
| Text.ParseDecimal | app.py:68 | `int()` reads back the decimal text of any integer, negative ones included |
| Text.PathJoinUnder | backup_system.py:27 | `os.path.join(a, b)` ends with `b`. An absolute `b` replaces `a`. A relative `b` lands under `a`, with one '/' between them when `a` is non-empty and does not end in one |
| Devices.MatchSerialSound | device_manager.py:59-61 | a serial returned by the match is a run of word characters, then whitespace, then "device", at the start of the line |
| Devices.MatchSerialComplete | device_manager.py:59-61 | a line that starts with word characters, whitespace and "device" yields exactly that word |
| Devices.FirstSerialIsFirstMatch | device_manager.py:53-64 | get_serial is None exactly when no line matches; otherwise it is the word of the first matching line |
| Devices.FirstSerialNonEmpty | device_manager.py:24 | a serial found by get_serial is never empty, so a found serial always puts the device Online |
| Devices.CheckJson | device_manager.py:66-71 | True exactly when the probe exited with 0 and its stderr contains no "No such file" |
| Devices.PushJsonAsWrittenFails | device_manager.py:89 | as written, push_json returns False even for a push that exits with 0 |
| Devices.ConnectStep | device_manager.py:22-45 | connect never touches the backup fields or the handle; the serial is the first attached device's; Online exactly when the serial is truthy; the identity is either kept or replaced entirely by the manifest's, and only a successful read can set `identified` |
| Devices.ConnectWithoutSerial | device_manager.py:44-45 | without a serial the device goes Offline, and nothing but the serial and the status changes |
| Devices.ConnectIdentifies | device_manager.py:24-37 | a serial, an existing manifest and a successful read make the device Online and identified, with the manifest's phone_id, phone_name and image_filename, on every poll |
| Devices.ConnectManifestMissing | device_manager.py:40-41 | a missing manifest resets `identified` and keeps the old identity fields |
| Devices.ConnectSwallowsErrors | device_manager.py:42-43 | a probe or read that raises changes nothing but the serial and the Online status |
| Devices.ConnectAsWrittenNeverIdentifies | device_manager.py:68 | as written, a poll never changes `identified` or the identity fields |
| Devices.Device.constructor | device_manager.py:9-20 | a new Device holds its ids, is Offline and "Unknown" at progress 0, unidentified, with no serial, name, phone id or image |
| Devices.Device.Connect | device_manager.py:22-45 | the Device's new state is ConnectStep of its old state and the link's answers |
| Devices.Device.Disconnect | device_manager.py:47-51 | Offline, "Unknown", progress 0 and no handle; the serial, identity and `identified` are kept |
| Devices.DeviceManager.constructor | device_manager.py:109-110 | the registry starts empty |
| Devices.DeviceManager.AddDevice | device_manager.py:114-116 | the key maps to a fresh Device in the default state, replacing any previous one; every other key keeps its Device |
| Devices.DeviceManager.RemoveDevice | device_manager.py:118-121 | exactly that key is removed, and an absent key leaves the registry unchanged |
| Devices.DeviceManager.GetDevice | device_manager.py:123-125 | a Device is returned exactly when the key is registered, and it carries that key's ids |
| Devices.DeviceManager.GetAllDevices | device_manager.py:143-145 | the snapshot lists every registered Device exactly once and nothing else |
| Devices.DeviceManager.PollOnce | device_manager.py:127-131 | each registered Device is connected once, with the answers for its key |
| BackupSystem.PercentMonotone | backup_system.py:54 | `k / N * 100` does not decrease as `k` grows |
| BackupSystem.PercentBounds | backup_system.py:54 | progress after k of N entries lies in [0, 100], and is 100 exactly after the last entry |
| BackupSystem.LoopShape | backup_system.py:33-54 | after k entries the loop has written progress once per copy after the initial 0, its progress is the last write, and it is still running exactly when all k entries were copied |
| BackupSystem.LoopWrites | backup_system.py:37-54 | the j-th progress write is j/N*100 |
| BackupSystem.LoopCopyAt | backup_system.py:36-49 | the j-th copy belongs to the j-th entry, which went through |
| BackupSystem.LoopStaysAborted | backup_system.py:60-62 | once an exception leaves the loop, later entries change nothing |
| BackupSystem.LoopCopies | backup_system.py:36-49 | the j-th copy of the loop is the j-th entry's source and its destination joined under the backup directory |
| BackupSystem.LoopAbortCause | backup_system.py:39-43 | the loop stops at the first entry that is not an object, has no destination, or inside which `os.makedirs` or the pull's `subprocess.run` raised |
| BackupSystem.BackupProgressMonotone | backup_system.py:14-58 | a run's progress writes start at 0 and never decrease, and the final progress is the last value written |
| BackupSystem.BackupTerminalState | backup_system.py:57-62 | a run ends "Up-to-date" at 100 or "Error" below 100. It ends "Up-to-date" exactly when the manifest read, had a name and a folder list, the backup directory was made, and every entry went through |
| BackupSystem.BackupCopiesInOrder | backup_system.py:33-54 | entries are copied in list order, one copy each. After the k-th entry progress is k/N*100. A finished run copied every entry; a failed one stopped at the entry that caused it |
| BackupSystem.BackupFailsEarly | backup_system.py:20-30 | an unreadable manifest, a missing phone_name or folder list, or a backup directory that cannot be made gives "Error" at 0 with nothing copied |
| BackupSystem.BackupEmptyFolders | backup_system.py:33-58 | a manifest with a phone name and an empty folder list, with the backup directory made, ends "Up-to-date" at 100 with nothing copied |
| BackupSystem.LoopIgnoresCopyResults | backup_system.py:49-51 | within the loop, whether a copy succeeded changes nothing |
| BackupSystem.BackupIgnoresCopyResults | backup_system.py:49-58 | which copies failed changes nothing about a run |
| BackupSystem.BackupAsWrittenAlwaysFails | backup_system.py:20 | as written, every run ends "Error" at 0 with nothing copied |
| BackupSystem.BackupDevice | backup_system.py:10-62 | the Device's backup status and progress end as the run prescribes, the copies issued are the run's, and no other field of the Device changes |
| App.AllowedFile | app.py:18-19 | a name without '.' is rejected |
| App.AllowedFileIff | app.py:13-19 | a name is accepted exactly when the text after its last '.', lower-cased, is png, jpg, jpeg or gif |
| App.AllowedFileIgnoresCase | app.py:18-19 | two names that differ only in the case of ASCII letters are both accepted or both rejected |
| App.AcceptsLastExtension | app.py:19 | "a.tar.PNG" is accepted: only the last extension counts, whatever its case |
| App.RejectsEarlierExtension | app.py:19 | "png.txt" is rejected |
| App.RejectsNoDot | app.py:19 | "png", which has no dot, is rejected |
| App.LastTaggedIsLast | app.py:28-33 | the id is the second ':'-field of the last token containing the tag, and None exactly when no token contains it |
| App.DeviceLineInfo | app.py:26-34 | for a qualifying line the serial is its first token, and the vendor and product ids come from the last tokens tagged "vendor:" and "product:" |
| App.ConnectedDeviceInfo | app.py:21-37 | (None, None, None) when adb raised or no line qualifies, and only then; otherwise the triple of the first qualifying line |
| App.Decide | app.py:59-87 | a falsy id registers nothing; the route registers exactly when both ids parse, their key is already registered and push_json returned True |
| App.AddDeviceRoute | app.py:56-90 | the outcome is Decide's. A manifest is pushed exactly when the key is already registered. The registry never gains a key. Only a registration changes it, replacing that key's Device with a fresh one |
| App.AddDeviceAsWrittenNeverRegisters | app.py:83-84 | as written, the route never registers a device |
| App.EmptyRegistryStaysEmpty | app.py:16 | a POST to the route on a fresh, empty registry never registers a phone, turns away every key that parses, and leaves the registry empty |
| App.DecideIntended | app.py:59-87 | the intended decision: a falsy id registers nothing, and a phone is registered exactly when both ids parse and the push succeeded, whether or not its key was known |
| App.DecideIsIntendedForKnownKeys | app.py:68-87 | the route's decision is the intended one, except that a parsed key the registry does not hold is turned away |
| App.AddDeviceRouteIntended | app.py:56-90 | the route with the intended decision: the outcome is DecideIntended's, and a registration adds exactly its key, with a fresh default Device |
| App.FirstRegistrationIntended | app.py:16 | with the intended decision, the first POST on an empty registry registers the phone exactly when its ids parse and the push succeeded, and the registry then holds exactly that key |
| App.NewManifestIdentifies | app.py:74-80 | a generated manifest read back by a poll identifies the device with the form's phone id, name and image |
| App.NewManifestBackup | app.py:74-80 | backing up from a generated manifest copies nothing; it ends "Up-to-date" at 100 when the form gave a name and the backup directory was made, and "Error" otherwise |
| App.HeaderHasNoSerial | device_manager.py:58-61 | the "List of devices attached" header yields no serial |
| App.PhoneLineSerial | device_manager.py:58-61 | the line "ABC123\tdevice" yields the serial "ABC123" |
| App.ScenarioConnect | device_manager.py:22-37 | a first poll with that phone attached and a readable manifest identifies the fresh Device |
| App.RegisterAndPoll | device_manager.py:127-131 | a Device just added to an empty registry and polled once is fresh and in the state ConnectStep gives from the default state |
| App.EndToEndScenario | device_manager.py:127-131 | a device registered as (6353, 146) and polled once is Online, identified as "Pixel" and still "Unknown" for backup; a backup from its empty folder list then ends "Up-to-date" at 100 |

## Findings

| source | as written | input that shows it | evidently intended | confidence | as-written member | corrected member |
|---|---|---|---|---|---|---|
| device_manager.py:68 | check_json formats JSON_PATH, which device_manager.py never imports. The NameError is caught by connect's bare `except` | any poll of a registered phone that is attached | JSON_PATH imported from my_config, as app.py and backup_system.py do, so that connect identifies the phone | high; not executed | Devices.ConnectAsWrittenNeverIdentifies | Devices.ConnectIdentifies |
| device_manager.py:89 | push_json formats the same undefined name, and its `except Exception` returns False | a POST to /add_device for a registered phone whose push would succeed | the push is attempted, and its result decides the registration | high; not executed | App.AddDeviceAsWrittenNeverRegisters | App.Decide |
| device_manager.py:74 | pull_json formats the same undefined name. It is backup_device's first step, so the run lands in its `except` | any backup | the manifest is pulled, and the run copies its folders | high; not executed | BackupSystem.BackupAsWrittenAlwaysFails | BackupSystem.BackupTerminalState |
| device_manager.py:110 | the registry starts empty, and the add-device route calls add_device only after get_device has found a Device under the key (app.py:82-84), so the registry never gains a key | the first POST to /add_device of a run, with ids that parse and a push that succeeds | a phone whose ids parse and whose manifest was pushed is registered under its key | medium; not executed | App.EmptyRegistryStaysEmpty | App.DecideIntended |

The rest of the model assumes JSON_PATH is defined, and keeps the route's registration as written: App.AddDeviceRoute decides by App.Decide, and App.AddDeviceRouteIntended is the corrected route. The check, pull and push outcomes are then inputs, and a NameError shows up as `Raised` or `ReadRaised`.

## Left out

- adb, the shell and the file system:
  - every subprocess call and the command strings;
  - the temporary manifest file, `open`, `os.remove`, `os.makedirs` and `os.path.exists`.

  Each is an input value. Creating a backup directory is a bool; an entry of the backup loop is `EntryRaised` (`os.makedirs` or the `subprocess.run` of the pull raised) or `Copied(ok)`.
- `splitlines()`: adb output arrives already split into lines.
- JSON parsing and `json.dumps`: the manifest is a datatype with optional fields. JSON values of the wrong type are not modelled:
  - a non-string `phone_name`;
  - a `folders_to_backup` that is an object or a string rather than a list.

  A folder entry that is not an object is modelled as `NotAnObject`.
- Devices.MatchSerial: `\w` is modelled for ASCII letters, digits and '_' only. Python's Unicode word characters are left out.
- Text.LowerAscii: Python's `lower()` also lowers non-ASCII cased letters, and can change the length (U+0130 lowers to two characters); it can also make strings that differ in non-ASCII case equal ('Σ' and 'σ', U+212A and 'k'). allowed_file's result does not change: the four extensions are ASCII, and only two non-ASCII characters lower to text holding an ASCII letter: U+212A gives 'k', which none of the extensions contains, and U+0130 gives 'i' followed by U+0307, which none of them contains either.
- App.AddDeviceRoute: the `int()` at app.py:68 is not inside a `try`. An id that does not parse makes the route itself raise ValueError after the uploaded image was saved (app.py:64-66); the outcome `InvalidIds` stands for that unhandled exception.
- Text.ParseInt: digits are ASCII only. Surrounding whitespace is not stripped, which only matters for tokens that `split()` never produces.
- Text.ParseInt: CPython 3.11 and later, and the security releases that brought the same change to older lines, reject a decimal string of more than 4300 digits with ValueError; the model accepts digit strings of any length.
- Text.ParseDecimal: the round trip is stated for every integer. Under CPython's digit limit it holds only for integers of at most 4300 digits.
- Threads:
  - the lock;
  - the `while self.running` loop with its 5-second sleep;
  - `start_monitoring`, `stop_monitoring` and the `running` flag;
  - `start_backup_thread`.

  One sequential pass of the poller is modelled.
- start_backup: the route that starts a backup and then sets "Backing Up", racing the backup thread, is not part of this model.
- Devices.DeviceManager.PollOnce: dict iteration order is not modelled; the devices are independent, so the order does not change the result.
- Devices.DeviceManager.GetAllDevices: the snapshot's order (dict insertion order) is not stated.
- BackupSystem.BackupDevice: the "Backing Up" status during the run is a loop invariant, not part of the contract. The contract states the initial progress 0 only through the ghost list of progress writes.
- BackupSystem.BackupDevice: the unused `device_manager` parameter is dropped. BACKUP_LOCATION is a parameter.
- The IEEE rounding of `current_folder / total_folders * 100`: progress is an exact real.
- Flask:
  - routing, templates, `flash`, `send_image`, teardown;
  - `secure_filename`, saving the uploaded image and `uuid4`.

  The image's file name and the phone id are parameters of the route.
- The stale temporary file: when a pull fails, its result is ignored and an old temporary file may be read. This is covered only in that `ReadOk` may carry any manifest.
