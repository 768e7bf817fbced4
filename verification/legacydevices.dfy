/** The earlier `androidDebuggingLib.Device` class: the same device record with nullable
    fields, constructors that fall back to an unset record instead of raising, a `getState`
    with the same refresh rule, and a `push` that reports problems by printing instead of
    raising. Its own `PlatformTools` and `Command` classes are not part of this model: the
    listing they would produce is an explicit parameter (fully set records, as the current
    `PlatformTools.getDevices` yields), and commands are the current `Command` builder. */
module LegacyDevices {
  import opened Wrappers
  import opened JavaText
  import opened Commands
  import Platform
  import Devices

  /** A legacy device. `None` stands for a Java `null` field; the transport id of a record
      no constructor filled in is 0. */
  datatype LegacyDevice = LegacyDevice(
    serial: Option<string>,
    state: Option<string>,
    model: Option<string>,
    transportId: int,
    adbPath: Option<string>)

  /** The record a constructor leaves when it copies nothing. */
  const Unset: LegacyDevice := LegacyDevice(None, None, None, 0, None)

  /** The five-argument constructor: every field as given. */
  function NewLegacyDevice(serial: string, state: string, model: string, transportId: int, adbPath: string): (d: LegacyDevice)
    ensures d.serial == Some(serial) && d.state == Some(state) && d.model == Some(model)
    ensures d.transportId == transportId && d.adbPath == Some(adbPath)
  {
    LegacyDevice(Some(serial), Some(state), Some(model), transportId, Some(adbPath))
  }

  function GetSerial(d: LegacyDevice): Option<string> { d.serial }

  function GetModel(d: LegacyDevice): Option<string> { d.model }

  function GetTransportId(d: LegacyDevice): int { d.transportId }

  /** The getters give back what the constructor stored. */
  lemma GettersReturnStored(serial: string, state: string, model: string, transportId: int, adbPath: string)
    ensures GetSerial(NewLegacyDevice(serial, state, model, transportId, adbPath)) == Some(serial)
    ensures GetModel(NewLegacyDevice(serial, state, model, transportId, adbPath)) == Some(model)
    ensures GetTransportId(NewLegacyDevice(serial, state, model, transportId, adbPath)) == transportId
  {
  }

  /** A listed device as the legacy constructors copy it, field by field. */
  function Copy(d: Platform.Device): (c: LegacyDevice)
    ensures c == NewLegacyDevice(d.serial, d.state, d.model, d.transportId, d.adbPath)
  {
    LegacyDevice(Some(d.serial), Some(d.state), Some(d.model), d.transportId, Some(d.adbPath))
  }

  /** The index constructor: the guard admits every index up to and including the list's
      size, so the size itself (and any negative index) reaches `get` and raises, while an
      index past the size skips the copy and leaves the record unset. */
  function LegacyDeviceAt(devices: seq<Platform.Device>, i: int): (r: Result<LegacyDevice>)
    ensures 0 <= i < |devices| ==> r == Ok(Copy(devices[i]))
    ensures i < 0 || i == |devices| ==> r == Err(IndexOutOfBounds)
    ensures i > |devices| ==> r == Ok(Unset)
  {
    if |devices| >= i then
      if 0 <= i < |devices| then Ok(Copy(devices[i])) else Err(IndexOutOfBounds)
    else Ok(Unset)
  }

  /** The no-argument constructor: the first listed device, or an unset record when nothing
      is listed. It never raises. */
  function LegacyFirstDevice(devices: seq<Platform.Device>): (d: LegacyDevice)
    ensures devices != [] ==> d == Copy(devices[0])
    ensures devices == [] ==> d == Unset
  {
    if |devices| > 0 then Copy(devices[0]) else Unset
  }

  /** The two revisions' index constructors agree on every index in range; the legacy one
      answers an index past the size with an unset record where the current one raises, and
      the legacy no-argument constructor answers an empty listing with an unset record where
      the current one raises. */
  lemma ConstructorsAcrossRevisions(devices: seq<Platform.Device>, i: int)
    ensures 0 <= i < |devices| ==>
              Devices.DeviceAt(devices, i).Ok? && LegacyDeviceAt(devices, i) == Ok(Copy(Devices.DeviceAt(devices, i).value))
    ensures i > |devices| ==> Devices.DeviceAt(devices, i).Err? && LegacyDeviceAt(devices, i) == Ok(Unset)
    ensures i < 0 || i == |devices| ==> Devices.DeviceAt(devices, i).Err? && LegacyDeviceAt(devices, i).Err?
    ensures devices != [] ==> Devices.FirstDevice(devices) == Ok(devices[0]) && LegacyFirstDevice(devices) == Copy(devices[0])
    ensures devices == [] ==> Devices.FirstDevice(devices).Err? && LegacyFirstDevice(devices) == Unset
  {
  }

  /** Whether a listed entry matches the device: `equals` on the listed serial, which is
      false against a `null` serial. */
  predicate Matches(listed: Platform.Device, serial: Option<string>) {
    serial == Some(listed.serial)
  }

  /** `getState` against a fresh listing, with the listed device's state read as the loop
      evidently means to read it (the recursion as written is the same as in the current
      revision; see `Devices.StateAsWritten`). The state is the one the current revision's
      refresh gives, and a record without a serial always goes "offline". Only the state
      field changes. */
  method LegacyGetState(d: LegacyDevice, devices: seq<Platform.Device>) returns (r: LegacyDevice, state: string)
    ensures d.serial.Some? ==> state == Devices.LastMatchState(devices, d.serial.value)
    ensures d.serial.None? ==> state == "offline"
    ensures r == d.(state := Some(state))
  {
    var current := d.state;
    var index := -1;
    var i := 0;
    assert devices[..0] == [];
    while i < |devices|
      invariant 0 <= i <= |devices|
      invariant -1 <= index < i
      invariant index < 0 ==> current == d.state
      invariant index < 0 && d.serial.Some? ==> Devices.LastMatchState(devices[..i], d.serial.value) == "offline"
      invariant index >= 0 ==> d.serial.Some? && current == Some(Devices.LastMatchState(devices[..i], d.serial.value))
    {
      if d.serial.Some? {
        Devices.LastMatchStep(devices, d.serial.value, i);
      }
      if Matches(devices[i], d.serial) {
        current := Some(devices[i].state);
        index := i;
      }
      i := i + 1;
    }
    assert devices[..i] == devices;
    if index < 0 {
      current := Some("offline");
    }
    state := current.value;
    r := d.(state := current);
  }

  /** What `push` prints when the local path does not exist. */
  const MissingFileMessage := "File does not exist"

  /** What `push` prints for each output line reporting a missing remote file. */
  const PushFailedMessage := "Push Failed: No such file or directory on device"

  /** A field as string concatenation and `String.format` render it: `null` prints as the
      word "null". */
  function Render(field: Option<string>): string {
    match field
    case Some(s) => s
    case None => "null"
  }

  /** The lines `push` prints while scanning a command's output, one per line that reports
      a missing remote file (what that amounts to is `PushFailuresMeaning`). */
  function PushFailures(lines: seq<string>): seq<string>
    decreases |lines|
  {
    if lines == [] then [] else PushFailures(lines[..|lines| - 1]) + FailureLine(lines[|lines| - 1])
  }

  /** Only failure lines are printed, never more than there are output lines, and at least
      one exactly when some output line reports a missing remote file. */
  lemma {:induction false} PushFailuresMeaning(lines: seq<string>)
    ensures |PushFailures(lines)| <= |lines|
    ensures forall m :: m in PushFailures(lines) ==> m == PushFailedMessage
    ensures PushFailures(lines) != [] <==> exists i :: 0 <= i < |lines| && Contains(lines[i], NoSuchFileMarker)
    decreases |lines|
  {
    if lines != [] {
      var init := lines[..|lines| - 1];
      PushFailuresMeaning(init);
      assert forall i :: 0 <= i < |init| ==> init[i] == lines[i];
    }
  }

  /** What scanning one output line prints. */
  function FailureLine(line: string): seq<string> {
    if Contains(line, NoSuchFileMarker) then [PushFailedMessage] else []
  }

  /** Scanning one more line adds at most its own failure line. */
  lemma PushFailuresStep(lines: seq<string>, i: int)
    requires 0 <= i < |lines|
    ensures PushFailures(lines[..i + 1]) == PushFailures(lines[..i]) + FailureLine(lines[i])
  {
    assert lines[..i + 1][..i] == lines[..i];
  }

  /** The scanning loop of `push`, line by line over the command's output. */
  method ReportPushFailures(c: Command) returns (printed: seq<string>)
    ensures printed == PushFailures(c.output)
  {
    printed := [];
    var i := 0;
    while i < |c.output|
      invariant 0 <= i <= |c.output|
      invariant printed == PushFailures(c.output[..i])
    {
      PushFailuresStep(c.output, i);
      var line := GetOutput(c, i).value;
      if Contains(line, NoSuchFileMarker) {
        printed := printed + [PushFailedMessage];
      }
      i := i + 1;
    }
    assert c.output[..i] == c.output;
  }

  /** What a legacy `push` does: the command it executed, if any, and the lines it printed.
      It never raises. */
  datatype PushReport = PushReport(executed: Option<Command>, printed: seq<string>)

  /** The legacy command line for a push; a `null` field enters it as "null". */
  function LegacyPushCommand(d: LegacyDevice, local: Devices.LocalPath, remotePath: string): (c: Command)
    ensures c.command == Render(d.adbPath) && c.output == []
    ensures c.args == ["-s", Render(d.serial), "push", local.absolutePath, Devices.PushTarget(local, remotePath)]
  {
    Command(Render(d.adbPath), ["-s", Render(d.serial), "push", local.absolutePath, Devices.PushTarget(local, remotePath)], [])
  }

  /** `push`: a missing local path prints a single complaint and runs nothing; a directory
      or file is pushed exactly as the current revision pushes it, and each output line that
      reports a missing remote file prints one failure line; a path that is neither runs
      nothing and prints nothing. */
  function LegacyPush(d: LegacyDevice, local: Devices.LocalPath, remotePath: string, run: Capture): (r: PushReport)
    ensures !local.present ==> r == PushReport(None, [MissingFileMessage])
    ensures r.executed.Some? <==> local.present && (local.isDirectory || local.isFile)
    ensures r.executed.Some? ==> r.executed.value == LegacyPushCommand(d, local, remotePath).(output := Devices.RunLines(run))
    ensures local.present ==> forall m :: m in r.printed ==> m == PushFailedMessage
    ensures local.present ==>
              (r.printed != [] <==> r.executed.Some? && AnyLineContains(Devices.RunLines(run), NoSuchFileMarker))
  {
    if !local.present then PushReport(None, [MissingFileMessage])
    else if local.isDirectory || local.isFile then
      var ran := Devices.Execute(LegacyPushCommand(d, local, remotePath), run);
      PushFailuresMeaning(ran.output);
      PushReport(Some(ran), PushFailures(ran.output))
    else PushReport(None, PushFailures([]))
  }

  /** On a fully set record, the legacy `push` runs the very command the current revision
      runs, and it prints a failure line exactly when the current revision raises. */
  lemma PushAcrossRevisions(d: Platform.Device, local: Devices.LocalPath, remotePath: string, run: Capture)
    ensures LegacyPush(Copy(d), local, remotePath, run).executed == Devices.Push(d, local, remotePath, run).executed
    ensures local.present ==>
              (LegacyPush(Copy(d), local, remotePath, run).printed != [] <==> Devices.Push(d, local, remotePath, run).raised.Some?)
    ensures !local.present ==>
              && LegacyPush(Copy(d), local, remotePath, run).printed == [MissingFileMessage]
              && Devices.Push(d, local, remotePath, run).raised == Some(FileNotFound)
  {
  }
}
