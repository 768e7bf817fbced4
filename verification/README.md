# adbTools in Dafny

A model of the core of `adbTools`, a small Java wrapper around the Android Debug Bridge
(`adb`) command-line tool. The model covers:

- the `Command` builder, which assembles a program name and argument list, runs it and
  accumulates its output lines;
- `PlatformTools`, which runs `adb devices -l` and parses each listed line into a `Device`;
- `AndroidFile`, which classifies a path on the device as a file or directory with three
  anchored regular expressions and derives its extension and name;
- the current `adbTools.Device`, whose operations build `adb -s <serial> ...` commands (push,
  pull, install, uninstall, verity, reboot, package listing, state refresh);
- the earlier `androidDebuggingLib.Device`, with nullable fields and a printing `push`.

Nothing runs a process here. Each run of the bridge is a `Capture`: the lines it would
print on standard output and standard error. Each local path is a `Devices.LocalPath`: the
facts `java.io.File` would report about it. Every operation of a device returns which
command it executed, with the output it collected, and which exception escaped, if any.

Modules, one per file:

- `Wrappers` (wrappers.dfy): `Option`, `Result` and the Java exceptions that can escape.
- `JavaText` (java_text.dfy): the `java.lang.String` operations the code relies on, in
  Java's own terms:
  - `indexOf` gives -1 when the text is absent;
  - `substring` throws on bad bounds;
  - `replace(x, "")` deletes every non-overlapping occurrence from left to right;
  - `Integer.parseInt` accepts only the 32-bit range.
- `Commands` (commands.dfy): `Command.java`.
- `AndroidFiles` (androidfiles.dfy): `AndroidFile.java`.
- `Platform` (platform.dfy) and `ListingLines` (listing_lines.dfy): `PlatformTools.java`.
  `ListingLines` proves what the chain of `substring`/`replace` calls gives on a well-formed
  `adb devices -l` line.
- `Devices` (devices.dfy): `adbTools/Device.java`.
- `LegacyDevices` (legacydevices.dfy): `androidDebuggingLib/Device.java`.

Two behaviours of `PlatformTools.getDevices` worth knowing:

- A listing line that cannot be parsed makes `getDevices` throw for the whole listing. It
  is not skipped.
- The state field is read correctly only when the gap after the serial is a multiple of
  nine spaces. The code deletes every run of nine spaces and then cuts at the first space
  left, so any other gap gives the empty state.

## Model

| member | source | states |
|---|---|---|
| Commands.NewCommand | androidDebuggingLib/src/adbTools/Command.java:30-51 | a new command, from an argument list or from separate arguments, has the given program and arguments, in order, and no output |
| Commands.AddArg | androidDebuggingLib/src/adbTools/Command.java:153-155 | one argument is appended at the end; earlier arguments, program and output are untouched |
| Commands.AddArgs | androidDebuggingLib/src/adbTools/Command.java:164-168 | the arguments are appended in order; program and output are untouched |
| Commands.SetCommand | androidDebuggingLib/src/adbTools/Command.java:131-133 | only the program changes |
| Commands.SetArgs | androidDebuggingLib/src/adbTools/Command.java:142-144 | only the argument list changes |
| Commands.ToString | androidDebuggingLib/src/adbTools/Command.java:110-122 | with no arguments the text is the program alone; otherwise it starts with the program, two spaces and the first argument |
| Commands.ToStringTokens | androidDebuggingLib/src/adbTools/Command.java:110-122 | when the program and every argument are non-empty and hold no whitespace, splitting the rendered command line on whitespace gives back exactly the program followed by the arguments |
| Commands.TokensOfJoinArgs | androidDebuggingLib/src/adbTools/Command.java:113-116 | the joined argument text splits back into the arguments |
| Commands.GetOutput | androidDebuggingLib/src/adbTools/Command.java:83-90 | a line is returned exactly for an index inside the output; every other index raises IndexOutOfBoundsException |
| Commands.Exec | androidDebuggingLib/src/adbTools/Command.java:175-199 | output keeps the earlier lines, then the standard-output lines, then the standard-error lines; program and arguments are unchanged |
| Commands.ExecAccumulates | androidDebuggingLib/src/adbTools/Command.java:182-192 | executing twice accumulates both runs' lines after the earlier output |
| Commands.AnyLineContains | androidDebuggingLib/src/adbTools/Device.java:203-209 | the output scan fires exactly when some line contains the marker |
| Platform.DefaultPlatformTools | androidDebuggingLib/src/adbTools/PlatformTools.java:24-26 | the no-argument tools use the program "adb" |
| Platform.GetAdbPath | androidDebuggingLib/src/adbTools/PlatformTools.java:64-66 | the getter returns the stored path, so tools are rebuilt from it |
| Platform.DevicesCommand | androidDebuggingLib/src/adbTools/PlatformTools.java:36 | the discovery command is the tools' program with `devices -l` and no output |
| Platform.LeadingToken | androidDebuggingLib/src/adbTools/PlatformTools.java:45 | the cut up to the first space, with spaces deleted, is the text before that space, or empty when there is none |
| Platform.FieldsOf | androidDebuggingLib/src/adbTools/PlatformTools.java:49 | the remaining field text holds no space |
| Platform.ModelOf | androidDebuggingLib/src/adbTools/PlatformTools.java:51 | the model cut succeeds exactly when `model:` occurs no later than `device:`, and otherwise throws StringIndexOutOfBoundsException |
| Platform.TransportIdOf | androidDebuggingLib/src/adbTools/PlatformTools.java:54-55 | a transport id is a 32-bit integer; failures are StringIndexOutOfBounds or NumberFormat |
| Platform.ParseLine | androidDebuggingLib/src/adbTools/PlatformTools.java:45-57 | a parsed device carries the line's serial and state cuts and the tools' path; a failing line throws StringIndexOutOfBounds or NumberFormat |
| Platform.DeviceLines | androidDebuggingLib/src/adbTools/PlatformTools.java:44 | every kept line is a non-blank line of the output and every non-blank line is kept; the order and multiplicity of the kept lines are stated by `Platform.DeviceLinesAppend` |
| Platform.ParseListing | androidDebuggingLib/src/adbTools/PlatformTools.java:41-60 | a successful listing has one device per kept line |
| Platform.GetDevices | androidDebuggingLib/src/adbTools/PlatformTools.java:35-62 | `getDevices` parses the run's standard output followed by its standard error with the tools' path |
| Platform.ParseListingOkIff | androidDebuggingLib/src/adbTools/PlatformTools.java:41-60 | the listing succeeds if and only if every kept line parses |
| Platform.ParseListingValues | androidDebuggingLib/src/adbTools/PlatformTools.java:41-60 | the i-th device is the parse of the i-th kept line |
| Platform.ParseListingFirstError | androidDebuggingLib/src/adbTools/PlatformTools.java:41-60 | a failing listing throws the exception of the first kept line that fails, all before it parsing |
| Platform.DeviceLinesAppend | androidDebuggingLib/src/adbTools/PlatformTools.java:44 | line filtering distributes over concatenation |
| Platform.ParseListingAppend | androidDebuggingLib/src/adbTools/PlatformTools.java:41-60 | listing two blocks of lines is listing each in turn, the first failure winning |
| Platform.BlankLinesListNothing | androidDebuggingLib/src/adbTools/PlatformTools.java:44 | blank, single-space and newline lines list no device |
| Platform.HeaderOnlyListsNothing | androidDebuggingLib/src/adbTools/PlatformTools.java:41 | an output holding only the header, or the header and blank lines, lists no device |
| Platform.HeaderIgnored | androidDebuggingLib/src/adbTools/PlatformTools.java:41 | the first line never influences the listing |
| Platform.GetDevicesSpec | androidDebuggingLib/src/adbTools/PlatformTools.java:35-62 | `getDevices` succeeds if and only if every non-blank line after the header parses; then it lists one device per such line, in order, each the parse of its line and carrying the tools' path |
| Platform.DefaultToolsPath | androidDebuggingLib/src/adbTools/PlatformTools.java:24-26 | every device listed by the default tools carries "adb" |
| Platform.FieldsOfIsSubsequence | androidDebuggingLib/src/adbTools/PlatformTools.java:45-49 | the field text only deletes characters of the line, never adds any |
| Platform.ParsedLineHoldsMarkers | androidDebuggingLib/src/adbTools/PlatformTools.java:51-55 | a line that parses contains the `model:`, `device:` and `transport_id:` markers, possibly spread out |
| Platform.ColonFreeLineThrows | androidDebuggingLib/src/adbTools/PlatformTools.java:51 | a line without a colon never parses |
| Platform.BadLineAbortsListing | androidDebuggingLib/src/adbTools/PlatformTools.java:41-60 | one failing non-blank line after the header makes the whole call throw |
| ListingLines.GapDeleted | androidDebuggingLib/src/adbTools/PlatformTools.java:46 | deleting nine-space runs leaves the gap's remainder modulo nine |
| ListingLines.SerialStage | androidDebuggingLib/src/adbTools/PlatformTools.java:45-46 | on a line of serial, gap and fields the serial is cut exactly, and what remains is the gap modulo nine followed by the fields |
| ListingLines.StateStage | androidDebuggingLib/src/adbTools/PlatformTools.java:48-49 | the state is read only when no gap remains; otherwise it is empty and the state word joins the field text |
| ListingLines.ModelStage | androidDebuggingLib/src/adbTools/PlatformTools.java:51 | on compacted fields the model cut gives exactly the model |
| ListingLines.TransportStage | androidDebuggingLib/src/adbTools/PlatformTools.java:52-55 | after the model is deleted the transport id is the parse of the id text |
| ListingLines.LineStages | androidDebuggingLib/src/adbTools/PlatformTools.java:45-49 | a well-formed line gives its serial, its state exactly when the gap is a multiple of nine, and its compacted fields |
| ListingLines.ParseWellFormedLine | androidDebuggingLib/src/adbTools/PlatformTools.java:45-57 | a well-formed line parses to its serial, its state (empty unless the gap is a multiple of nine), model and transport id, or throws the id's NumberFormatException |
| ListingLines.SampleLine | androidDebuggingLib/src/adbTools/PlatformTools.java:45-57 | the parse of a typical `ABC123 ... device product:x model:Pixel_5 device:redfin transport_id:<id>` line |
| ListingLines.PixelLine | androidDebuggingLib/src/adbTools/PlatformTools.java:45-57 | with a nine-space gap that line gives serial ABC123, state device, model Pixel_5, id 3 |
| ListingLines.ShortGapLosesState | androidDebuggingLib/src/adbTools/PlatformTools.java:46-48 | with any other gap the state is empty |
| ListingLines.NonNumericIdThrows | androidDebuggingLib/src/adbTools/PlatformTools.java:54-55 | a non-numeric transport id throws NumberFormatException |
| AndroidFiles.SuffixMatch | androidDebuggingLib/src/adbTools/AndroidFile.java:30-33 | the anchored regex (separator, word characters, end) matches at exactly one position, or nowhere |
| AndroidFiles.SplitHead | androidDebuggingLib/src/adbTools/AndroidFile.java:34 | `split(regex)[0]` is the text before the match, the whole text without a match, and throws ArrayIndexOutOfBounds when the match starts the text |
| AndroidFiles.NewAndroidFile | androidDebuggingLib/src/adbTools/AndroidFile.java:27-36 | the path is kept; an extension is recorded exactly when the path ends in a dot and word characters; a path that is only such a suffix throws |
| AndroidFiles.IsFile | androidDebuggingLib/src/adbTools/AndroidFile.java:45-49 | a file is a path ending in a dot and word characters |
| AndroidFiles.IsDir | androidDebuggingLib/src/adbTools/AndroidFile.java:58-60 | a directory is a path with no such ending |
| AndroidFiles.DirIsNotFile | androidDebuggingLib/src/adbTools/AndroidFile.java:58-60 | every path is exactly one of file or directory |
| AndroidFiles.GetExtension | androidDebuggingLib/src/adbTools/AndroidFile.java:69-76 | a file gets back the extension its constructor stored, and only a file gets one; a directory gives null |
| AndroidFiles.ExtensionOfFile | androidDebuggingLib/src/adbTools/AndroidFile.java:34 | `stem.ext` has extension `.ext` when `.ext` does not contain the stem |
| AndroidFiles.ExtensionUnderDirectory | androidDebuggingLib/src/adbTools/AndroidFile.java:34 | a file under a directory has extension `.ext` |
| AndroidFiles.NoExtensionForDirectory | androidDebuggingLib/src/adbTools/AndroidFile.java:33-35 | `dir/name`, with a non-empty name made only of word characters, records no extension |
| AndroidFiles.GetFileName | androidDebuggingLib/src/adbTools/AndroidFile.java:85-98 | the name is never longer than the path, a directory's name holds no slash, and failures are ArrayIndexOutOfBounds |
| AndroidFiles.FileNameAfterParent | androidDebuggingLib/src/adbTools/AndroidFile.java:87 | a file `base.ext` after a non-word character, under a directory, is named `base.ext` |
| AndroidFiles.FileNameOfFile | androidDebuggingLib/src/adbTools/AndroidFile.java:86-87 | `dir/base.ext` is named `base.ext` |
| AndroidFiles.FileNameOfDirectory | androidDebuggingLib/src/adbTools/AndroidFile.java:89-92 | `dir/name`, with `name` made of word characters, is named `name` when `/name` does not contain `dir` |
| AndroidFiles.FileNameOfSlashedDirectory | androidDebuggingLib/src/adbTools/AndroidFile.java:94-95 | `dir/name/`, with `name` made of word characters, is named `name` when `/name/` does not contain `dir` |
| AndroidFiles.FileNameExample | androidDebuggingLib/src/adbTools/AndroidFile.java:85-87 | `/a/b/c.txt` is named `c.txt` |
| AndroidFiles.DirectoryNameExamples | androidDebuggingLib/src/adbTools/AndroidFile.java:89-95 | `/a/b/c` and `/a/b/c/` are named `c` |
| AndroidFiles.ExtensionExample | androidDebuggingLib/src/adbTools/AndroidFile.java:27-35 | `/sdcard/app.apk` has extension `.apk` |
| AndroidFiles.Exists | androidDebuggingLib/src/adbTools/AndroidFile.java:108-117 | a file exists exactly when no listing line reports "No such file or directory" or "inaccessible or not found" |
| AndroidFiles.ToStringGivesPath | androidDebuggingLib/src/adbTools/AndroidFile.java:137-139 | the string form of a file is the path it was built from |
| AndroidFiles.IntendedFileName | androidDebuggingLib/src/adbTools/AndroidFile.java:85-98 | the intended name is a slash-free ending of the path with its trailing slashes removed |
| AndroidFiles.IntendedFileNameOfChild | androidDebuggingLib/src/adbTools/AndroidFile.java:85-98 | the intended name of `dir/name` and `dir/name/` is `name`, whatever the extension field |
| AndroidFiles.IntendedFileNameOfBareName | androidDebuggingLib/src/adbTools/AndroidFile.java:87 | the intended name of a bare slash-free name is the name itself |
| AndroidFiles.FileNameDropsEarlierDots | androidDebuggingLib/src/adbTools/AndroidFile.java:87 | as written, `dir/a.b.c` is named `b.c`, where `a.b.c` is intended |
| AndroidFiles.ArchiveNameTruncated | androidDebuggingLib/src/adbTools/AndroidFile.java:87 | as written, `/sdcard/archive.tar.gz` is named `tar.gz` |
| AndroidFiles.DirectoryNameLosesRecurringParent | androidDebuggingLib/src/adbTools/AndroidFile.java:92 | as written, `/a/ab` is named `b`, because deleting the parent `/a` also deletes it inside the name |
| AndroidFiles.FileNameWithoutParentThrows | androidDebuggingLib/src/adbTools/AndroidFile.java:87-92 | as written, a bare file name and a one-level directory such as `/base` throw ArrayIndexOutOfBounds |
| AndroidFiles.BareFileNameThrows | androidDebuggingLib/src/adbTools/AndroidFile.java:87 | as written, `c.txt` throws ArrayIndexOutOfBounds |
| AndroidFiles.IntendedExtension | androidDebuggingLib/src/adbTools/AndroidFile.java:30-35 | the intended extension exists exactly for files and is a dot and word characters ending the path |
| AndroidFiles.IntendedExtensionOfFile | androidDebuggingLib/src/adbTools/AndroidFile.java:34 | the intended extension of `stem.ext` is `.ext`, and the code gives it when `.ext` does not contain the stem |
| AndroidFiles.ExtensionLosesRecurringStem | androidDebuggingLib/src/adbTools/AndroidFile.java:34 | as written, `a.a` gets the extension `.`, where `.a` is intended |
| JavaText.ParseIntToString | androidDebuggingLib/src/adbTools/PlatformTools.java:54-55 | every 32-bit transport id printed in decimal parses back to itself |
| Devices.DeviceAt | androidDebuggingLib/src/adbTools/Device.java:59-69 | an index selects the listed device exactly when it is in range; otherwise IndexOutOfBoundsException |
| Devices.FirstDevice | androidDebuggingLib/src/adbTools/Device.java:83-93 | the first device is selected exactly when the listing is non-empty; otherwise RuntimeException |
| Devices.NewDeviceAt | androidDebuggingLib/src/adbTools/Device.java:55-70 | construction by index succeeds exactly when discovery succeeds and the index is in range; a discovery exception propagates unchanged |
| Devices.NewFirstDevice | androidDebuggingLib/src/adbTools/Device.java:79-94 | construction of the first device succeeds exactly when discovery lists something; a discovery exception propagates |
| Devices.ConstructedFromListing | androidDebuggingLib/src/adbTools/Device.java:55-66 | a constructed device is the parse of the i-th non-blank line after the header, with program "adb" |
| Devices.FirstIsIndexZero | androidDebuggingLib/src/adbTools/Device.java:55-94 | the first-device constructor agrees with index 0; on an empty listing one raises RuntimeException and the other IndexOutOfBoundsException |
| Devices.LastMatchStateMeaning | androidDebuggingLib/src/adbTools/Device.java:139-148 | the refreshed state is "offline" when no entry has the serial, and otherwise the state of the last entry that does |
| Devices.RefreshState | androidDebuggingLib/src/adbTools/Device.java:134-150 | the refresh loop sets the state to the last matching entry's (or "offline") and changes nothing else |
| Devices.GetState | androidDebuggingLib/src/adbTools/Device.java:134-150 | `getState` propagates a discovery exception, and otherwise returns the device with only its state refreshed |
| Devices.ListedDeviceExhaustsStack | androidDebuggingLib/src/adbTools/Device.java:141-142 | as written, a device still listed never gets a state: every match calls `getState` again with the same serial, at every depth |
| Devices.UnlistedDeviceGoesOffline | androidDebuggingLib/src/adbTools/Device.java:146-148 | as written, a device no longer listed does get "offline", which agrees with the refresh |
| Devices.PackagesOf | androidDebuggingLib/src/adbTools/Device.java:169-174 | every package comes from an output line starting with `package:`, with every occurrence of `package:` in the line deleted, and every such line gives one; order and multiplicity are stated by `Devices.PackagesOfAppend` and `Devices.PackagesOfOneLine` |
| Devices.PackagesOfAppend | androidDebuggingLib/src/adbTools/Device.java:169-174 | package collection distributes over concatenated output |
| Devices.PackagesOfOneLine | androidDebuggingLib/src/adbTools/Device.java:171-172 | a single line gives its package exactly when it starts with `package:` |
| Devices.CollectPackages | androidDebuggingLib/src/adbTools/Device.java:169-174 | the loop over the output collects exactly the packages of the output, in order |
| Devices.GetPackages | androidDebuggingLib/src/adbTools/Device.java:163-178 | runs `shell pm list packages` on the device and returns the packages of the run's lines |
| Devices.Push | androidDebuggingLib/src/adbTools/Device.java:189-213 | a missing local path raises FileNotFoundException without running; a directory is pushed to the remote path, a file to the remote path plus `/` and its name; a path that is neither runs nothing; an executed push raises exactly when an output line reports a missing file |
| Devices.Pull | androidDebuggingLib/src/adbTools/Device.java:215-239 | a missing local path raises; otherwise the pull always runs, into `local\name` for a directory or the local path itself, and raises exactly when an output line reports a missing file |
| Devices.PullPreserve | androidDebuggingLib/src/adbTools/Device.java:241-259 | never raises; runs exactly when the local path exists, with `-a` before the paths exactly when preserving |
| Devices.PullVariantsAgree | androidDebuggingLib/src/adbTools/Device.java:215-259 | the preserving pull without `-a` runs the same command as the plain pull, and with `-a` inserts it after `pull` |
| Devices.PullIntoDirectoryKeepsName | androidDebuggingLib/src/adbTools/Device.java:222 | pulling `dir/name` (or `dir/name/`) into a local directory targets `local\name` |
| Devices.Install | androidDebuggingLib/src/adbTools/Device.java:261-270 | never raises; runs `install <absolute path>` exactly for an existing file whose name ends in `.apk` |
| Devices.InstallWith | androidDebuggingLib/src/adbTools/Device.java:272-285 | as `install`, with the extra arguments between `install` and the path, in order |
| Devices.InstallVariantsAgree | androidDebuggingLib/src/adbTools/Device.java:261-285 | with no extra arguments both installs do the same |
| Devices.ApkPaths | androidDebuggingLib/src/adbTools/Device.java:297-301 | the selected paths are exactly the absolute paths of the regular files named `*.apk`; order and multiplicity are stated by `Devices.ApkPathsAppend` and `Devices.ApkPathsOfOne` (for well-formed path facts, where `isFile` implies the file exists, exactly the installable ones; see `Devices.SelectedAreInstallable`) |
| Devices.ApkPathsAppend | androidDebuggingLib/src/adbTools/Device.java:297-301 | the paths selected from two batches of packages are those of the first batch followed by those of the second |
| Devices.ApkPathsOfOne | androidDebuggingLib/src/adbTools/Device.java:298-300 | a single package contributes its absolute path once exactly when it is a regular file named `*.apk`, and nothing otherwise |
| Devices.SelectedAreInstallable | androidDebuggingLib/src/adbTools/Device.java:261-301 | for the path facts `java.io.File` can report, `installMultiple` selects exactly the paths `install` would install |
| Devices.InstallMultiple | androidDebuggingLib/src/adbTools/Device.java:287-302 | as written, the command lists the selected paths after `install-multiple`, but it is never executed and nothing is raised |
| Devices.InstallMultipleExecuted | androidDebuggingLib/src/adbTools/Device.java:287-302 | as intended, that command is executed with the run's output |
| Devices.Uninstall | androidDebuggingLib/src/adbTools/Device.java:304-313 | always runs `uninstall <application>` and raises exactly when an output line reports a missing file |
| Devices.EnableVerity | androidDebuggingLib/src/adbTools/Device.java:315-318 | runs `enable-verity` and raises nothing |
| Devices.DisableVerity | androidDebuggingLib/src/adbTools/Device.java:320-323 | runs `disable-verity` and raises nothing |
| Devices.Reboot | androidDebuggingLib/src/adbTools/Device.java:325-334 | runs `reboot <option>` exactly for bootloader, recovery, sideload and sideload-auto-reboot, and raises RuntimeException, running nothing, for any other option |
| Devices.CleanOutputRaisesNothing | androidDebuggingLib/src/adbTools/Device.java:203-209 | when no output line reports a missing file, push, pull and uninstall raise nothing for an existing local path |
| LegacyDevices.NewLegacyDevice | androidDebuggingLib/src/androidDebuggingLib/Device.java:32-38 | the five-argument constructor stores every field as given |
| LegacyDevices.GettersReturnStored | androidDebuggingLib/src/androidDebuggingLib/Device.java:89-117 | the serial, model and transport-id getters return what the constructor stored |
| LegacyDevices.Copy | androidDebuggingLib/src/androidDebuggingLib/Device.java:55-59 | a listed device is copied field by field |
| LegacyDevices.LegacyDeviceAt | androidDebuggingLib/src/androidDebuggingLib/Device.java:48-61 | an index in range copies that device; the size itself and negative indices raise IndexOutOfBoundsException; an index past the size leaves every field unset |
| LegacyDevices.LegacyFirstDevice | androidDebuggingLib/src/androidDebuggingLib/Device.java:70-83 | the first device is copied, or every field stays unset for an empty listing; nothing is raised |
| LegacyDevices.ConstructorsAcrossRevisions | androidDebuggingLib/src/androidDebuggingLib/Device.java:48-83 | both revisions' constructors select the same device in range; past the size and on an empty listing the legacy ones leave the record unset where the current ones raise |
| LegacyDevices.LegacyGetState | androidDebuggingLib/src/androidDebuggingLib/Device.java:97-113 | the legacy refresh gives the same state as the current one, "offline" for a record without a serial, and changes only the state |
| LegacyDevices.PushFailuresMeaning | androidDebuggingLib/src/androidDebuggingLib/Device.java:142-147 | only failure lines are printed, at most one per output line, and at least one exactly when an output line reports a missing file |
| LegacyDevices.ReportPushFailures | androidDebuggingLib/src/androidDebuggingLib/Device.java:142-147 | the scanning loop prints exactly those failure lines |
| LegacyDevices.LegacyPushCommand | androidDebuggingLib/src/androidDebuggingLib/Device.java:133-139 | the push command names the device and the paths as the current revision does, with a null field rendered "null" |
| LegacyDevices.LegacyPush | androidDebuggingLib/src/androidDebuggingLib/Device.java:128-151 | a missing local path prints "File does not exist" and runs nothing; a file or directory is pushed and each failure line printed; nothing is ever raised |
| LegacyDevices.PushAcrossRevisions | androidDebuggingLib/src/androidDebuggingLib/Device.java:128-151 | on a fully set device the legacy push runs the same command as the current one and prints a failure exactly when the current one raises |

## Left out

- Process execution: `Runtime.exec`, the stream readers and the printed IOException stack
  trace are not modelled. A run is the `Capture` of lines it would print, given as a
  parameter and independent of the command line. `Commands.ToStringTokens` states which
  words the runtime would see.
- File system queries: `File.exists`, `isFile`, `isDirectory`, `getAbsolutePath` and the
  local `getName`/`Path.getFileName` are facts in `Devices.LocalPath`, given as parameters.
- Remote `File.getName` in `pull`: modelled with Unix path rules (trailing slashes
  dropped, text after the last slash). The platform's own normalisation is not modelled.
- `PlatformTools(String)` (PlatformTools.java:15-22): it depends only on a file-system query
  and a printed message, and no modelled operation uses it.
- `toString` of both `Device` classes: `String.format` layout is not modelled.
- `AndroidFile.equals`: it compares references, which have no counterpart in a value model.
- `AndroidFile.pull`: it delegates to a `Device.pull(AndroidFile, String)` that neither
  device class defines.
- `AndroidFile.exists`: the device's `shell` method is not part of this model. The listing
  it returns is a parameter.
- Regular expressions: `$` also matches before a final line terminator, and that case is
  not modelled. Paths are taken to hold no line terminators. `\w` is the ASCII word class.
  The case-insensitive flag has no effect on these patterns.
- List aliasing: `Command(String, List)` and `setArgs` share the caller's list, and
  `getOutput()` exposes the live list. The model has value semantics.
- `System.out.println`: the legacy `push` returns its printed lines instead of printing them.
- `androidDebuggingLib.PlatformTools` and `androidDebuggingLib.Command` are not part of this
  model. The legacy listing is a parameter of fully set records, and legacy commands use
  the current `Command` builder.
- Devices.StateAsWritten: assumes the same listing on every nested discovery. Its `depth`
  parameter stands for the stack space left, so "never returns" is stated for every finite
  depth.
- Devices.GetState: it models the loop as evidently intended. The
  recursion as written is the finding below.
- LegacyDevices.LegacyGetState: like `Devices.GetState`, it models the loop as evidently
  intended. The recursion as written at androidDebuggingLib/Device.java:104-105 is the same
  as in the current revision, and `Devices.StateAsWritten` is its as-written counterpart.
- AndroidFiles.Exists: the command `exists` sends, `"ls" + pathToFile`, has no space after
  `ls`, so the device receives `ls/sdcard/...`. The model takes the listing that command
  returns as a parameter and does not model the malformed command text.
- Devices.LocalPath: its facts are not constrained against each other. `java.io.File`
  never reports `isFile` or `isDirectory` for a missing path, nor both at once; the model
  admits those combinations. `Devices.WellFormed` names the combinations `File` can report,
  and `Devices.SelectedAreInstallable` relies on it.
- JavaText.ParseInt: only the ASCII digits `0`-`9` are modelled. `Integer.parseInt` also
  accepts the other Unicode decimal digits, which a transport id would not carry.
- AndroidFiles.GetFileName: its contract states only the error kind, the length bound and
  that a directory name is slash-free. The exact name is stated by lemmas for each path
  shape (`FileNameOfFile`, `FileNameOfDirectory`, `FileNameOfSlashedDirectory`,
  `FileNameAfterParent`), not for every input.
- Commands.ToString: its contract states the program and first argument at the front. The
  full text is stated through `ToStringTokens`, for arguments without whitespace only.

## Findings

| source | as written | input that shows it | evidently intended | confidence | as-written member | corrected member |
|---|---|---|---|---|---|---|
| androidDebuggingLib/src/adbTools/Device.java:141-142 | the loop reads a matching entry's state by calling `getState` on it, which rediscovers and matches the same serial again | any device that is still listed | read the listed entry's state field | high, not executed | Devices.ListedDeviceExhaustsStack | Devices.GetState |
| androidDebuggingLib/src/adbTools/Device.java:287-302 | `installMultiple` builds its command but never calls `exec` | any call, e.g. one `app.apk` file | execute the command as every other operation does | high, not executed | Devices.InstallMultiple | Devices.InstallMultipleExecuted |
| androidDebuggingLib/src/adbTools/AndroidFile.java:87 | the file name is cut with `\w+\.\w+$`, keeping only the last two dot-separated words | `/sdcard/archive.tar.gz` gives `tar.gz` | `archive.tar.gz` | medium, not executed | AndroidFiles.ArchiveNameTruncated | AndroidFiles.IntendedFileNameOfChild |
| androidDebuggingLib/src/adbTools/AndroidFile.java:92 | the parent is removed with `replace`, which deletes every occurrence, also inside the name | `/a/ab` gives `b` | `ab` | high, not executed | AndroidFiles.DirectoryNameLosesRecurringParent | AndroidFiles.IntendedFileNameOfChild |
| androidDebuggingLib/src/adbTools/AndroidFile.java:87 | when the match starts the path, `split` returns an empty array and `[0]` throws | `c.txt` throws ArrayIndexOutOfBoundsException | `c.txt` | high, not executed | AndroidFiles.BareFileNameThrows | AndroidFiles.IntendedFileNameOfBareName |
| androidDebuggingLib/src/adbTools/AndroidFile.java:34 | the extension is what remains after deleting every occurrence of the stem | `a.a` gets the extension `.` | `.a` | high, not executed | AndroidFiles.ExtensionLosesRecurringStem | AndroidFiles.IntendedExtensionOfFile |
