/** The current `Device` class: a discovered device and the bridge commands addressed to
    it. Every operation is a decision over explicit inputs: the device's fields, the facts
    `java.io.File` would report about a local path, and the lines one run of the bridge
    would print. Its result says which command, if any, is executed (with the output the
    run appended to it) and which exception, if any, escapes. */
module Devices {
  import opened Wrappers
  import opened JavaText
  import opened Commands
  import opened Platform

  /** What `java.io.File` reports about a local path: the path as given, whether it
      exists and what it is, its absolute form, and the last name of that path (`getName`,
      which for an existing path is also what `Paths.get(absolutePath).getFileName()`
      renders as). */
  datatype LocalPath = LocalPath(path: string, present: bool, isFile: bool, isDirectory: bool,
                                 absolutePath: string, name: string)

  /** The command an operation executed, if any, and the exception it raised, if any. */
  datatype Outcome = Outcome(executed: Option<Command>, raised: Option<JavaException>)

  /** The discovery the constructors and `getState` run: the no-argument tools. */
  function Discover(run: Capture): Result<seq<Device>> {
    GetDevices(DefaultPlatformTools(), run)
  }

  // ---------------------------------------------------------------------------------------
  // Constructors

  /** `Device(i)` on an already discovered list: the guard `size >= i` lets `i == size`
      and negative indices through to `List.get`, which throws; larger ones throw from the
      guard. The five fields copied are the whole record. */
  function DeviceAt(devices: seq<Device>, i: int): (r: Result<Device>)
    ensures r.Ok? <==> 0 <= i < |devices|
    ensures r.Ok? ==> r.value == devices[i]
    ensures r.Err? ==> r.error == IndexOutOfBounds
  {
    if |devices| >= i then
      if 0 <= i < |devices| then Ok(devices[i]) else Err(IndexOutOfBounds)
    else Err(IndexOutOfBounds)
  }

  /** `Device()` on an already discovered list. */
  function FirstDevice(devices: seq<Device>): (r: Result<Device>)
    ensures r.Ok? <==> |devices| > 0
    ensures r.Ok? ==> r.value == devices[0]
    ensures r.Err? ==> r.error == Runtime
  {
    if |devices| > 0 then Ok(devices[0]) else Err(Runtime)
  }

  /** `Device(i)` in full: discovery first, whose failure escapes, then the index. */
  function NewDeviceAt(run: Capture, i: int): (r: Result<Device>)
    ensures var listing := Discover(run);
            && (r.Ok? <==> listing.Ok? && 0 <= i < |listing.value|)
            && (listing.Err? ==> r == Err(listing.error))
            && (listing.Ok? && r.Err? ==> r.error == IndexOutOfBounds)
  {
    var devices :- Discover(run);
    DeviceAt(devices, i)
  }

  /** `Device()` in full. */
  function NewFirstDevice(run: Capture): (r: Result<Device>)
    ensures var listing := Discover(run);
            && (r.Ok? <==> listing.Ok? && |listing.value| > 0)
            && (listing.Err? ==> r == Err(listing.error))
            && (listing.Ok? && r.Err? ==> r.error == Runtime)
  {
    var devices :- Discover(run);
    FirstDevice(devices)
  }

  /** A device built by index is the one parsed from the matching non-header, non-blank
      line of the listing, and it runs the bridge as "adb". */
  lemma ConstructedFromListing(run: Capture, i: int)
    requires NewDeviceAt(run, i).Ok?
    ensures var lines := run.stdout + run.stderr;
            && |lines| > 1
            && 0 <= i < |DeviceLines(lines[1..])|
            && Ok(NewDeviceAt(run, i).value) == ParseLine(DeviceLines(lines[1..])[i], "adb")
            && NewDeviceAt(run, i).value.adbPath == "adb"
  {
    GetDevicesSpec(DefaultPlatformTools(), run);
  }

  /** The two constructors agree on a non-empty listing; on an empty one both throw, but
      different exceptions. */
  lemma FirstIsIndexZero(run: Capture)
    ensures NewFirstDevice(run).Ok? <==> NewDeviceAt(run, 0).Ok?
    ensures NewFirstDevice(run).Ok? ==> NewFirstDevice(run).value == NewDeviceAt(run, 0).value
    ensures Discover(run).Ok? && Discover(run).value == [] ==>
              NewFirstDevice(run) == Err(Runtime) && NewDeviceAt(run, 0) == Err(IndexOutOfBounds)
  {
  }

  // ---------------------------------------------------------------------------------------
  // getState

  /** `k` is the last entry of the listing whose serial is `serial`. */
  predicate IsLastMatch(devices: seq<Device>, serial: string, k: int) {
    && 0 <= k < |devices|
    && devices[k].serial == serial
    && forall j :: k < j < |devices| ==> devices[j].serial != serial
  }

  /** The state a fresh listing gives a device with this serial, scanning from the back:
      that of the last entry with an equal serial, or "offline" when there is none (see
      `LastMatchStateMeaning`). */
  function LastMatchState(devices: seq<Device>, serial: string): string
    decreases |devices|
  {
    if devices == [] then "offline"
    else if devices[|devices| - 1].serial == serial then devices[|devices| - 1].state
    else LastMatchState(devices[..|devices| - 1], serial)
  }

  /** The refreshed state is "offline" when no entry has the serial, and otherwise the state
      of the last entry that has it. */
  lemma {:induction false} LastMatchStateMeaning(devices: seq<Device>, serial: string)
    ensures (forall j :: 0 <= j < |devices| ==> devices[j].serial != serial) ==> LastMatchState(devices, serial) == "offline"
    ensures (exists j :: 0 <= j < |devices| && devices[j].serial == serial) ==>
              exists k :: IsLastMatch(devices, serial, k) && LastMatchState(devices, serial) == devices[k].state
    decreases |devices|
  {
    if devices != [] {
      var init := devices[..|devices| - 1];
      var last := devices[|devices| - 1];
      LastMatchStateMeaning(init, serial);
      assert forall j :: 0 <= j < |init| ==> init[j] == devices[j];
      assert init + [last] == devices;
      if last.serial == serial {
        assert IsLastMatch(devices, serial, |devices| - 1);
      } else {
        LastMatchExtends(init, last, serial, LastMatchState(init, serial));
      }
    }
  }

  /** Scanning one more entry: a match takes over, anything else keeps the state so far. */
  lemma LastMatchStep(devices: seq<Device>, serial: string, i: int)
    requires 0 <= i < |devices|
    ensures LastMatchState(devices[..i + 1], serial)
         == if devices[i].serial == serial then devices[i].state else LastMatchState(devices[..i], serial)
  {
    assert devices[..i + 1][..i] == devices[..i];
  }

  /** A later entry with another serial leaves the last match where it was. */
  lemma LastMatchExtends(init: seq<Device>, last: Device, serial: string, st: string)
    requires last.serial != serial
    requires (exists j :: 0 <= j < |init| && init[j].serial == serial) ==>
               exists k :: IsLastMatch(init, serial, k) && st == init[k].state
    ensures (exists j :: 0 <= j < |init| + 1 && (init + [last])[j].serial == serial) ==>
              exists k :: IsLastMatch(init + [last], serial, k) && st == (init + [last])[k].state
  {
    if exists j :: 0 <= j < |init| + 1 && (init + [last])[j].serial == serial {
      var j :| 0 <= j < |init| + 1 && (init + [last])[j].serial == serial;
      assert init[j].serial == serial;
      var k :| IsLastMatch(init, serial, k) && st == init[k].state;
      assert IsLastMatch(init + [last], serial, k);
    }
  }

  /** The state refresh of `getState` against a fresh listing, with the listed device's
      state read as the loop evidently means to read it (see `StateAsWritten`). Nothing but
      the state changes. */
  method RefreshState(d: Device, devices: seq<Device>) returns (r: Device)
    ensures r == d.(state := LastMatchState(devices, d.serial))
  {
    var state := d.state;
    var index := -1;
    var i := 0;
    assert devices[..0] == [];
    while i < |devices|
      invariant 0 <= i <= |devices|
      invariant -1 <= index < i
      invariant index < 0 ==> state == d.state && LastMatchState(devices[..i], d.serial) == "offline"
      invariant index >= 0 ==> state == LastMatchState(devices[..i], d.serial)
    {
      LastMatchStep(devices, d.serial, i);
      if devices[i].serial == d.serial {
        state := devices[i].state;
        index := i;
      }
      i := i + 1;
    }
    assert devices[..i] == devices;
    if index < 0 {
      state := "offline";
    }
    r := d.(state := state);
  }

  /** `getState` in full: discovery, whose failure escapes, then the refresh. The returned
      string is the new state. */
  method GetState(d: Device, run: Capture) returns (r: Result<Device>)
    ensures Discover(run).Err? ==> r == Err(Discover(run).error)
    ensures Discover(run).Ok? ==> r == Ok(d.(state := LastMatchState(Discover(run).value, d.serial)))
  {
    var listing := Discover(run);
    if listing.Err? {
      return Err(listing.error);
    }
    var refreshed := RefreshState(d, listing.value);
    return Ok(refreshed);
  }

  /** The loop of `getState` as written: a matching entry's state is read by calling
      `getState` on that entry, which runs a fresh discovery and scans it again for the same
      serial. The listing is taken to be the same on every discovery; `depth` is the call
      depth left before the stack is exhausted, and `None` means it was. */
  function StateAsWritten(devices: seq<Device>, serial: string, state: string, depth: nat): Option<string>
    decreases depth, 0, 0
  {
    if depth == 0 then None else ScanAsWritten(devices, serial, 0, state, -1, depth - 1)
  }

  /** The loop from entry `i`, with the state and matched index so far. */
  function ScanAsWritten(devices: seq<Device>, serial: string, i: nat, state: string, index: int, depth: nat): Option<string>
    requires i <= |devices|
    decreases depth, 1, |devices| - i
  {
    if i == |devices| then Some(if index < 0 then "offline" else state)
    else if devices[i].serial == serial then
      match StateAsWritten(devices, devices[i].serial, devices[i].state, depth)
      case None => None
      case Some(s) => ScanAsWritten(devices, serial, i + 1, s, i, depth)
    else ScanAsWritten(devices, serial, i + 1, state, index, depth)
  }

  lemma {:induction false} ScanReachesMatch(devices: seq<Device>, serial: string, i: nat, state: string, index: int, depth: nat, k: nat)
    requires i <= k < |devices| && devices[k].serial == serial
    requires forall j :: i <= j <= k && devices[j].serial == serial ==>
               StateAsWritten(devices, serial, devices[j].state, depth) == None
    ensures ScanAsWritten(devices, serial, i, state, index, depth) == None
    decreases k - i
  {
    if devices[i].serial != serial {
      ScanReachesMatch(devices, serial, i + 1, state, index, depth, k);
    }
  }

  /** As written, `getState` never returns for a device that is still listed: every
      matching entry calls `getState` again with the same serial, however deep the stack. */
  lemma {:induction false} ListedDeviceExhaustsStack(devices: seq<Device>, serial: string, state: string, depth: nat, k: nat)
    requires 0 <= k < |devices| && devices[k].serial == serial
    ensures StateAsWritten(devices, serial, state, depth) == None
    decreases depth
  {
    if depth > 0 {
      forall j | 0 <= j <= k && devices[j].serial == serial
        ensures StateAsWritten(devices, serial, devices[j].state, depth - 1) == None
      {
        ListedDeviceExhaustsStack(devices, serial, devices[j].state, depth - 1, k);
      }
      ScanReachesMatch(devices, serial, 0, state, -1, depth - 1, k);
    }
  }

  lemma {:induction false} ScanWithoutMatch(devices: seq<Device>, serial: string, i: nat, state: string, depth: nat)
    requires i <= |devices|
    requires forall j :: i <= j < |devices| ==> devices[j].serial != serial
    ensures ScanAsWritten(devices, serial, i, state, -1, depth) == Some("offline")
    decreases |devices| - i
  {
    if i < |devices| {
      ScanWithoutMatch(devices, serial, i + 1, state, depth);
    }
  }

  /** As written, a device that is no longer listed gets "offline" from one call, as the
      refresh does. */
  lemma UnlistedDeviceGoesOffline(devices: seq<Device>, serial: string, state: string, depth: nat)
    requires depth > 0
    requires forall j :: 0 <= j < |devices| ==> devices[j].serial != serial
    ensures StateAsWritten(devices, serial, state, depth) == Some("offline")
    ensures StateAsWritten(devices, serial, state, depth) == Some(LastMatchState(devices, serial))
  {
    ScanWithoutMatch(devices, serial, 0, state, depth - 1);
    LastMatchStateMeaning(devices, serial);
  }

  // ---------------------------------------------------------------------------------------
  // Commands addressed to the device

  /** `new Command(adbPath, "-s", serialNo, words...)` */
  function AdbCommand(d: Device, words: seq<string>): (c: Command)
    ensures c.command == d.adbPath && c.args == ["-s", d.serial] + words && c.output == []
  {
    NewCommand(d.adbPath, ["-s", d.serial] + words)
  }

  /** The command runs the device's bridge and selects the device by its serial. */
  predicate AddressedTo(c: Command, d: Device) {
    c.command == d.adbPath && |c.args| >= 2 && c.args[0] == "-s" && c.args[1] == d.serial
  }

  /** An executed command, if any, is addressed to the device. */
  predicate OutcomeAddressedTo(r: Outcome, d: Device) {
    r.executed.Some? ==> AddressedTo(r.executed.value, d)
  }

  /** The output of a run, as the command that ran holds it. */
  function RunLines(run: Capture): seq<string> {
    run.stdout + run.stderr
  }

  /** `exec` on a command built afresh: its output is exactly the run's lines. */
  function Execute(c: Command, run: Capture): (ran: Command)
    requires c.output == []
    ensures ran == Command(c.command, c.args, RunLines(run))
  {
    ExecAppends(c, run);
    assert c.output + run.stdout + run.stderr == RunLines(run);
    Exec(c, run)
  }

  /** The exception the output scan of `push`, `pull` and `uninstall` raises, if any. */
  function ScanOutput(output: seq<string>): (e: Option<JavaException>)
    ensures e.Some? <==> AnyLineContains(output, NoSuchFileMarker)
    ensures e.Some? ==> e.value == FileNotFound
  {
    if AnyLineContains(output, NoSuchFileMarker) then Some(FileNotFound) else None
  }

  /** `addArg` on a freshly built device command. */
  lemma AddArgVector(d: Device, words: seq<string>, arg: string)
    ensures AddArg(AdbCommand(d, words), arg) == Command(d.adbPath, ["-s", d.serial] + words + [arg], [])
  {
    AddArgAppends(AdbCommand(d, words), arg);
  }

  const PackagePrefix: string := "package:"

  /** One output line of `pm list packages` as the loop reads it. */
  predicate ListsPackage(line: string) {
    line != " " && line != "" && StartsWith(line, PackagePrefix)
  }

  /** The package names the loop of `getPackages` collects from `lines`, in order. */
  function PackagesOf(lines: seq<string>): (r: seq<string>)
    ensures |r| <= |lines|
    ensures forall x :: x in r ==>
              exists i :: 0 <= i < |lines| && StartsWith(lines[i], PackagePrefix) && x == DeleteAll(lines[i], PackagePrefix)
    ensures forall i :: 0 <= i < |lines| && StartsWith(lines[i], PackagePrefix) ==> DeleteAll(lines[i], PackagePrefix) in r
    decreases |lines|
  {
    if lines == [] then []
    else
      var init := lines[..|lines| - 1];
      var last := lines[|lines| - 1];
      var r := PackagesOf(init) + (if ListsPackage(last) then [DeleteAll(last, PackagePrefix)] else []);
      assert forall i :: 0 <= i < |init| ==> lines[i] == init[i];
      r
  }

  /** Packages are collected line by line: the list for two batches of output is the two
      lists one after the other. */
  lemma {:induction false} PackagesOfAppend(a: seq<string>, b: seq<string>)
    ensures PackagesOf(a + b) == PackagesOf(a) + PackagesOf(b)
    decreases |b|
  {
    if b != [] {
      var b' := b[..|b| - 1];
      assert (a + b)[..|a + b| - 1] == a + b';
      assert (a + b)[|a + b| - 1] == b[|b| - 1];
      PackagesOfAppend(a, b');
    } else {
      assert a + b == a;
    }
  }

  lemma PackagesOfSnoc(lines: seq<string>, i: nat)
    requires i < |lines|
    ensures PackagesOf(lines[..i + 1])
         == PackagesOf(lines[..i]) + (if ListsPackage(lines[i]) then [DeleteAll(lines[i], PackagePrefix)] else [])
  {
    assert lines[..i + 1][..i] == lines[..i];
  }

  /** A line that does not start with the prefix contributes nothing; one that does
      contributes its text with every copy of the prefix deleted. */
  lemma PackagesOfOneLine(line: string)
    ensures !StartsWith(line, PackagePrefix) ==> PackagesOf([line]) == []
    ensures StartsWith(line, PackagePrefix) ==> PackagesOf([line]) == [DeleteAll(line, PackagePrefix)]
  {
    assert [line][..0] == [];
  }

  /** The loop of `getPackages` over the output of a command, read line by line with
      `getOutput(i)`. */
  method CollectPackages(shell: Command) returns (packages: seq<string>)
    ensures packages == PackagesOf(shell.output)
  {
    packages := [];
    var i := 0;
    while i < |shell.output|
      invariant 0 <= i <= |shell.output|
      invariant packages == PackagesOf(shell.output[..i])
    {
      var line := GetOutput(shell, i).value;
      PackagesOfSnoc(shell.output, i);
      if line != " " && line != "" && StartsWith(line, PackagePrefix) {
        packages := packages + [DeleteAll(line, PackagePrefix)];
      }
      i := i + 1;
    }
    assert shell.output[..i] == shell.output;
  }

  /** `getPackages`: list the packages on the device and collect them. */
  method GetPackages(d: Device, run: Capture) returns (packages: seq<string>, shell: Command)
    ensures shell.output == RunLines(run)
    ensures shell.args == ["-s", d.serial, "shell", "pm", "list", "packages"] && AddressedTo(shell, d)
    ensures packages == PackagesOf(RunLines(run))
  {
    var pm := AdbCommand(d, ["shell", "pm", "list", "packages"]);
    assert pm.output == [] && pm.args == ["-s", d.serial, "shell", "pm", "list", "packages"];
    shell := Execute(pm, run);
    assert shell.output == RunLines(run);
    packages := CollectPackages(shell);
  }

  /** The destination `push` gives the bridge: the remote directory itself for a local
      directory, the file's name under it for a local file. */
  function PushTarget(local: LocalPath, remotePath: string): string {
    if local.isDirectory then remotePath else remotePath + "/" + local.name
  }

  /** `push(localPath, remotePath)`. A local path that exists but is neither a directory nor
      a regular file executes nothing and raises nothing. */
  function Push(d: Device, local: LocalPath, remotePath: string, run: Capture): (r: Outcome)
    ensures !local.present ==> r == Outcome(None, Some(FileNotFound))
    ensures r.executed.Some? <==> local.present && (local.isDirectory || local.isFile)
    ensures r.executed.Some? ==>
              && r.executed.value.args == ["-s", d.serial, "push", local.absolutePath, PushTarget(local, remotePath)]
              && r.executed.value.output == RunLines(run)
    ensures local.present ==>
              (r.raised.Some? <==> r.executed.Some? && AnyLineContains(RunLines(run), NoSuchFileMarker))
    ensures r.raised.Some? ==> r.raised.value == FileNotFound
    ensures OutcomeAddressedTo(r, d)
  {
    if !local.present then Outcome(None, Some(FileNotFound))
    else if local.isDirectory || local.isFile then
      var target := PushTarget(local, remotePath);
      AddArgVector(d, ["push", local.absolutePath], target);
      assert ["-s", d.serial] + ["push", local.absolutePath] + [target]
          == ["-s", d.serial, "push", local.absolutePath, target];
      var ran := Execute(AddArg(AdbCommand(d, ["push", local.absolutePath]), target), run);
      Outcome(Some(ran), ScanOutput(ran.output))
    else Outcome(None, ScanOutput([]))
  }

  /** The destination `pull` gives the bridge: under a local directory, the remote path's
      last name after a backslash; otherwise the local path itself. */
  function PullTarget(remotePath: string, local: LocalPath): string {
    if local.isDirectory then local.path + "\\" + FileName(remotePath) else local.path
  }

  /** `pull(remotePath, localPath)` */
  function Pull(d: Device, remotePath: string, local: LocalPath, run: Capture): (r: Outcome)
    ensures !local.present ==> r == Outcome(None, Some(FileNotFound))
    ensures local.present ==> r.executed.Some?
    ensures r.executed.Some? ==>
              && r.executed.value.args == ["-s", d.serial, "pull", remotePath, PullTarget(remotePath, local)]
              && r.executed.value.output == RunLines(run)
    ensures local.present ==> (r.raised.Some? <==> AnyLineContains(RunLines(run), NoSuchFileMarker))
    ensures r.raised.Some? ==> r.raised.value == FileNotFound
    ensures OutcomeAddressedTo(r, d)
  {
    if !local.present then Outcome(None, Some(FileNotFound))
    else
      var target := PullTarget(remotePath, local);
      AddArgVector(d, ["pull", remotePath], target);
      assert ["-s", d.serial] + ["pull", remotePath] + [target] == ["-s", d.serial, "pull", remotePath, target];
      var ran := Execute(AddArg(AdbCommand(d, ["pull", remotePath]), target), run);
      Outcome(Some(ran), ScanOutput(ran.output))
  }

  /** `pull(remotePath, localPath, preserve)`: "-a" right after "pull" exactly when
      `preserve`; nothing is scanned and nothing raised. */
  function PullPreserve(d: Device, remotePath: string, local: LocalPath, preserve: bool, run: Capture): (r: Outcome)
    ensures r.raised == None
    ensures r.executed.Some? <==> local.present
    ensures r.executed.Some? ==>
              && r.executed.value.args
                 == ["-s", d.serial, "pull"] + (if preserve then ["-a"] else []) + [remotePath, PullTarget(remotePath, local)]
              && r.executed.value.output == RunLines(run)
    ensures OutcomeAddressedTo(r, d)
  {
    if !local.present then Outcome(None, None)
    else
      var paths := [remotePath, PullTarget(remotePath, local)];
      var flagged := if preserve then AddArg(AdbCommand(d, ["pull"]), "-a") else AdbCommand(d, ["pull"]);
      PreservingPullArgs(d, preserve, paths);
      var ran := Execute(AddArgs(flagged, paths), run);
      Outcome(Some(ran), None)
  }

  /** The arguments of the three-argument `pull` before it runs. */
  lemma PreservingPullArgs(d: Device, preserve: bool, paths: seq<string>)
    ensures var pull := AdbCommand(d, ["pull"]);
            var flagged := if preserve then AddArg(pull, "-a") else pull;
            && AddArgs(flagged, paths).args == ["-s", d.serial, "pull"] + (if preserve then ["-a"] else []) + paths
            && AddArgs(flagged, paths).command == d.adbPath
            && AddArgs(flagged, paths).output == []
  {
    AddArgVector(d, ["pull"], "-a");
  }

  /** The two `pull`s run the same transfer: without "-a" the three-argument one executes
      exactly the command of the two-argument one, with "-a" the same command with the flag
      inserted; only the two-argument one turns a not-found line into an exception. */
  lemma PullVariantsAgree(d: Device, remotePath: string, local: LocalPath, run: Capture)
    requires local.present
    ensures PullPreserve(d, remotePath, local, false, run).executed == Pull(d, remotePath, local, run).executed
    ensures var plain := Pull(d, remotePath, local, run).executed.value.args;
            var kept := PullPreserve(d, remotePath, local, true, run).executed.value.args;
            kept == plain[..3] + ["-a"] + plain[3..]
    ensures PullPreserve(d, remotePath, local, true, run).raised == None
  {
    var plain := Pull(d, remotePath, local, run).executed.value;
    var target := PullTarget(remotePath, local);
    assert ["-s", d.serial, "pull"] + [] + [remotePath, target] == plain.args;
    assert ["-s", d.serial, "pull"] + ["-a"] + [remotePath, target] == plain.args[..3] + ["-a"] + plain.args[3..];
  }

  /** Under a local directory the pulled file keeps its remote name, whether or not the
      remote path ends with a slash. */
  lemma PullIntoDirectoryKeepsName(d: Device, dir: string, name: string, local: LocalPath, run: Capture)
    requires name != [] && '/' !in name
    requires local.present && local.isDirectory
    ensures Pull(d, dir + "/" + name, local, run).executed.value.args[4] == local.path + "\\" + name
    ensures Pull(d, dir + "/" + name + "/", local, run).executed.value.args[4] == local.path + "\\" + name
  {
    FileNameOfChild(dir, name);
  }

  const ApkSuffix: string := ".apk"

  /** The check both `install`s make: an existing regular file whose name ends in ".apk". */
  predicate Installable(p: LocalPath) {
    p.present && p.isFile && EndsWith(p.name, ApkSuffix)
  }

  /** `install(packagePath)`: never raises. */
  function Install(d: Device, package: LocalPath, run: Capture): (r: Outcome)
    ensures r.raised == None
    ensures r.executed.Some? <==> Installable(package)
    ensures r.executed.Some? ==>
              r.executed.value.args == ["-s", d.serial, "install", package.absolutePath]
              && r.executed.value.output == RunLines(run)
    ensures OutcomeAddressedTo(r, d)
  {
    if package.present && package.isFile && EndsWith(package.name, ApkSuffix) then
      Outcome(Some(Execute(AdbCommand(d, ["install", package.absolutePath]), run)), None)
    else Outcome(None, None)
  }

  /** `install(packagePath, args...)`: the extra arguments, in order, between "install" and
      the package. */
  function InstallWith(d: Device, package: LocalPath, extra: seq<string>, run: Capture): (r: Outcome)
    ensures r.raised == None
    ensures r.executed.Some? <==> Installable(package)
    ensures r.executed.Some? ==>
              r.executed.value.args == ["-s", d.serial, "install"] + extra + [package.absolutePath]
              && r.executed.value.output == RunLines(run)
    ensures OutcomeAddressedTo(r, d)
  {
    if package.present && package.isFile && EndsWith(package.name, ApkSuffix) then
      var c := AddArg(AddArgs(AdbCommand(d, ["install"]), extra), package.absolutePath);
      Outcome(Some(Execute(c, run)), None)
    else Outcome(None, None)
  }

  /** With no extra arguments the two `install`s do the same thing. */
  lemma InstallVariantsAgree(d: Device, package: LocalPath, run: Capture)
    ensures InstallWith(d, package, [], run) == Install(d, package, run)
  {
    var a := InstallWith(d, package, [], run);
    var b := Install(d, package, run);
    if a.executed.Some? {
      assert a.executed.value.args == b.executed.value.args;
    }
  }

  /** The check `installMultiple` makes: a regular file whose name ends in ".apk". It does
      not ask whether the file exists, which `isFile` already implies for `java.io.File`. */
  predicate Selectable(p: LocalPath) {
    p.isFile && EndsWith(p.name, ApkSuffix)
  }

  /** The combinations of facts `java.io.File` can report: only an existing path is a file
      or a directory, and never both. */
  predicate WellFormed(p: LocalPath) {
    (p.isFile || p.isDirectory) ==> p.present && !(p.isFile && p.isDirectory)
  }

  /** On well-formed path facts, the paths `installMultiple` selects are exactly the
      absolute paths of the packages the single `install` would install. */
  lemma SelectedAreInstallable(packages: seq<LocalPath>)
    requires forall i :: 0 <= i < |packages| ==> WellFormed(packages[i])
    ensures forall x :: x in ApkPaths(packages) <==>
              exists i :: 0 <= i < |packages| && Installable(packages[i]) && x == packages[i].absolutePath
  {
    assert forall i :: 0 <= i < |packages| ==> (Selectable(packages[i]) <==> Installable(packages[i]));
  }

  /** The absolute paths `installMultiple` adds, in order. */
  function ApkPaths(packages: seq<LocalPath>): (r: seq<string>)
    ensures |r| <= |packages|
    ensures forall x :: x in r <==> exists i :: 0 <= i < |packages| && Selectable(packages[i]) && x == packages[i].absolutePath
    decreases |packages|
  {
    if packages == [] then []
    else
      var init := packages[..|packages| - 1];
      var last := packages[|packages| - 1];
      assert forall i :: 0 <= i < |init| ==> packages[i] == init[i];
      ApkPaths(init) + (if Selectable(last) then [last.absolutePath] else [])
  }

  /** Packages are selected one by one in input order: the paths selected from two
      batches are the first batch's followed by the second's. */
  lemma {:induction false} ApkPathsAppend(a: seq<LocalPath>, b: seq<LocalPath>)
    ensures ApkPaths(a + b) == ApkPaths(a) + ApkPaths(b)
    decreases |b|
  {
    if b != [] {
      var b' := b[..|b| - 1];
      assert (a + b)[..|a + b| - 1] == a + b';
      assert (a + b)[|a + b| - 1] == b[|b| - 1];
      ApkPathsAppend(a, b');
    } else {
      assert a + b == a;
    }
  }

  /** A single package contributes its absolute path once when it is selectable, and
      nothing otherwise. */
  lemma ApkPathsOfOne(p: LocalPath)
    ensures Selectable(p) ==> ApkPaths([p]) == [p.absolutePath]
    ensures !Selectable(p) ==> ApkPaths([p]) == []
  {
    assert [p][..0] == [];
  }

  /** `installMultiple(packagePaths...)`: the loop builds the command from the selected
      packages, and the command is never executed. */
  method InstallMultiple(d: Device, packages: seq<LocalPath>) returns (built: Command, r: Outcome)
    ensures built.args == ["-s", d.serial, "install-multiple"] + ApkPaths(packages)
    ensures built.output == [] && AddressedTo(built, d)
    ensures r == Outcome(None, None)
  {
    built := AdbCommand(d, ["install-multiple"]);
    var i := 0;
    while i < |packages|
      invariant 0 <= i <= |packages|
      invariant built.args == ["-s", d.serial, "install-multiple"] + ApkPaths(packages[..i])
      invariant built.command == d.adbPath && built.output == []
    {
      assert packages[..i + 1][..i] == packages[..i];
      if packages[i].isFile && EndsWith(packages[i].name, ApkSuffix) {
        built := AddArg(built, packages[i].absolutePath);
      }
      i := i + 1;
    }
    assert packages[..i] == packages;
    r := Outcome(None, None);
  }

  /** `installMultiple` as evidently intended: the command built from the selected packages
      is executed, like every other command of the class, and nothing is raised. */
  function InstallMultipleExecuted(d: Device, packages: seq<LocalPath>, run: Capture): (r: Outcome)
    ensures r.raised == None && r.executed.Some?
    ensures r.executed.value.args == ["-s", d.serial, "install-multiple"] + ApkPaths(packages)
    ensures r.executed.value.output == RunLines(run)
    ensures OutcomeAddressedTo(r, d)
  {
    var built := AddArgs(AdbCommand(d, ["install-multiple"]), ApkPaths(packages));
    Outcome(Some(Execute(built, run)), None)
  }

  /** `uninstall(application)`: raises exactly when a line of the output carries the
      no-such-file marker. */
  function Uninstall(d: Device, application: string, run: Capture): (r: Outcome)
    ensures r.executed.Some?
    ensures r.executed.value.args == ["-s", d.serial, "uninstall", application]
    ensures r.executed.value.output == RunLines(run)
    ensures r.raised.Some? <==> exists i :: 0 <= i < |RunLines(run)| && Contains(RunLines(run)[i], NoSuchFileMarker)
    ensures r.raised.Some? ==> r.raised.value == FileNotFound
    ensures OutcomeAddressedTo(r, d)
  {
    var ran := Execute(AdbCommand(d, ["uninstall", application]), run);
    Outcome(Some(ran), ScanOutput(ran.output))
  }

  /** `enableVerity` */
  function EnableVerity(d: Device, run: Capture): (r: Outcome)
    ensures r.raised == None && r.executed.Some?
    ensures r.executed.value.args == ["-s", d.serial, "enable-verity"] && r.executed.value.output == RunLines(run)
    ensures OutcomeAddressedTo(r, d)
  {
    Outcome(Some(Execute(AdbCommand(d, ["enable-verity"]), run)), None)
  }

  /** `disableVerity` */
  function DisableVerity(d: Device, run: Capture): (r: Outcome)
    ensures r.raised == None && r.executed.Some?
    ensures r.executed.value.args == ["-s", d.serial, "disable-verity"] && r.executed.value.output == RunLines(run)
    ensures OutcomeAddressedTo(r, d)
  {
    Outcome(Some(Execute(AdbCommand(d, ["disable-verity"]), run)), None)
  }

  /** The options `reboot` passes on. */
  const RebootOptions: set<string> := {"bootloader", "recovery", "sideload", "sideload-auto-reboot"}

  /** `reboot(option)`: an unknown option raises before anything runs. */
  function Reboot(d: Device, option: string, run: Capture): (r: Outcome)
    ensures r.executed.Some? <==> r.raised.None?
    ensures r.executed.Some? <==>
              option == "bootloader" || option == "recovery" || option == "sideload" || option == "sideload-auto-reboot"
    ensures r.executed.Some? ==>
              r.executed.value.args == ["-s", d.serial, "reboot", option] && r.executed.value.output == RunLines(run)
    ensures r.raised.Some? ==> r.raised.value == Runtime
    ensures OutcomeAddressedTo(r, d)
  {
    if option in RebootOptions then Outcome(Some(Execute(AdbCommand(d, ["reboot", option]), run)), None)
    else Outcome(None, Some(Runtime))
  }

  /** A transfer or an uninstall whose output carries no not-found marker never raises. */
  lemma CleanOutputRaisesNothing(d: Device, local: LocalPath, remotePath: string, application: string, run: Capture)
    requires forall i :: 0 <= i < |RunLines(run)| ==> !Contains(RunLines(run)[i], NoSuchFileMarker)
    requires local.present
    ensures Push(d, local, remotePath, run).raised == None
    ensures Pull(d, remotePath, local, run).raised == None
    ensures Uninstall(d, application, run).raised == None
  {
  }
}
