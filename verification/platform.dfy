/** `PlatformTools`: the path of the bridge executable and the parser that turns the lines
    of `adb devices -l` into device records. The parser works by deleting text: it takes
    the serial, deletes runs of nine spaces and every copy of the serial, takes the state,
    deletes it and every space, and cuts the model and the transport id out of what is
    left by their markers. Each step is modelled with Java's string semantics, so the model
    keeps the parser's fragile edges: a gap that is not a multiple of nine spaces, a serial
    that recurs later in the line, a missing marker or a non-numeric id. */
module Platform {
  import opened Wrappers
  import opened JavaText
  import opened Commands

  /** The record the five-argument `Device` constructor fills in. */
  datatype Device = Device(serial: string, state: string, model: string, transportId: int, adbPath: string)

  /** A `PlatformTools` instance: only the path to the bridge executable. */
  datatype PlatformTools = PlatformTools(adbPath: string)

  /** The no-argument constructor relies on `adb` being on the search path. */
  function DefaultPlatformTools(): (pt: PlatformTools)
    ensures pt.adbPath == "adb"
  {
    PlatformTools("adb")
  }

  /** `getAdbPath` */
  function GetAdbPath(pt: PlatformTools): (p: string)
    ensures PlatformTools(p) == pt
  {
    pt.adbPath
  }

  /** The command `getDevices` runs. */
  function DevicesCommand(pt: PlatformTools): (c: Command)
    ensures c.command == pt.adbPath && c.args == ["devices", "-l"] && c.output == []
  {
    NewCommand(pt.adbPath, ["devices", "-l"])
  }

  const NineSpaces: string := "         "
  const ModelMarker: string := "model:"
  const DeviceMarker: string := "device:"
  const TransportMarker: string := "transport_id:"

  /** `s.substring(0, s.indexOf(" ") + 1).replace(" ", "")`: the text before the first
      space, or "" when there is none. */
  function LeadingToken(s: string): (r: string)
    ensures ' ' !in r
    ensures IndexOf(s, " ") >= 0 ==> r == s[..IndexOf(s, " ")]
    ensures IndexOf(s, " ") < 0 ==> r == []
  {
    var k := IndexOf(s, " ");
    var t := s[..k + 1];
    DeleteCharRemoves(t, ' ');
    if k >= 0 then
      assert t == s[..k] + " ";
      assert forall j :: 0 <= j < k ==> !OccursAt(s, " ", j);
      assert ' ' !in s[..k] by {
        forall j | 0 <= j < k ensures s[..k][j] != ' ' {
          assert !OccursAt(s, " ", j);
          assert s[j..j + 1] == [s[j]];
          assert s[..k][j] == s[j];
        }
      }
      DeleteCharSplits(s[..k], " ", ' ');
      assert DeleteAll(" ", " ") == [];
      DeleteAllWithoutMatch(s[..k], " ");
      DeleteAll(t, " ")
    else
      DeleteAll(t, " ")
  }

  /** The serial: the first token of the line. */
  function SerialOf(line: string): string {
    LeadingToken(line)
  }

  /** The line once every run of nine spaces and every copy of the serial is deleted. */
  function AfterSerial(line: string): string {
    DeleteAll(DeleteAll(line, NineSpaces), SerialOf(line))
  }

  /** The state: the first token of what remains after the serial. */
  function StateOf(line: string): string {
    LeadingToken(AfterSerial(line))
  }

  /** The fields part: every copy of the state and a space deleted, then every space. */
  function FieldsOf(line: string): (r: string)
    ensures ' ' !in r
  {
    var f := DeleteAll(AfterSerial(line), StateOf(line) + " ");
    DeleteCharRemoves(f, ' ');
    DeleteAll(f, " ")
  }

  /** The model: the text from `model:` up to the first `device:`, with `model:` deleted. */
  function ModelOf(fields: string): (r: Result<string>)
    ensures r.Err? ==> r.error == StringIndexOutOfBounds
    ensures r.Ok? <==> 0 <= IndexOf(fields, ModelMarker) <= IndexOf(fields, DeviceMarker)
  {
    var cut :- Substring(fields, IndexOf(fields, ModelMarker), IndexOf(fields, DeviceMarker));
    Ok(DeleteAll(cut, ModelMarker))
  }

  /** The transport id: the fields with `model:` and the model deleted, cut from
      `transport_id:` to the end, the marker deleted, then `Integer.parseInt`. */
  function TransportIdOf(fields: string, model: string): (r: Result<int>)
    ensures r.Ok? ==> MinInt <= r.value <= MaxInt
    ensures r.Err? ==> r.error == StringIndexOutOfBounds || r.error == NumberFormat
  {
    var rest := DeleteAll(fields, ModelMarker + model);
    var tail :- SubstringFrom(rest, IndexOf(rest, TransportMarker));
    ParseInt(DeleteAll(tail, TransportMarker))
  }

  /** One line of the listing, or the exception the loop body throws on it. */
  function ParseLine(line: string, adbPath: string): (r: Result<Device>)
    ensures r.Ok? ==> r.value.serial == SerialOf(line) && r.value.state == StateOf(line)
    ensures r.Ok? ==> r.value.adbPath == adbPath
    ensures r.Err? ==> r.error == StringIndexOutOfBounds || r.error == NumberFormat
  {
    var fields := FieldsOf(line);
    var model :- ModelOf(fields);
    var id :- TransportIdOf(fields, model);
    Ok(Device(SerialOf(line), StateOf(line), model, id, adbPath))
  }

  /** The lines the loop skips without parsing. */
  predicate IsBlankLine(line: string) {
    line == "" || line == " " || line == "\n"
  }

  /** The lines the loop parses, in order. */
  function DeviceLines(lines: seq<string>): (r: seq<string>)
    ensures |r| <= |lines|
    ensures forall i :: 0 <= i < |r| ==> !IsBlankLine(r[i]) && r[i] in lines
    ensures forall i :: 0 <= i < |lines| && !IsBlankLine(lines[i]) ==> lines[i] in r
    decreases |lines|
  {
    assert forall i :: 0 < i < |lines| ==> lines[i] == lines[1..][i - 1];
    if lines == [] then []
    else if IsBlankLine(lines[0]) then DeviceLines(lines[1..])
    else [lines[0]] + DeviceLines(lines[1..])
  }

  /** The loop over every line after the header, with the loop body `parse`: each
      non-blank line yields one device, and the first line that throws ends the whole call
      with that exception. */
  function ParseListing(lines: seq<string>, parse: string -> Result<Device>): (r: Result<seq<Device>>)
    ensures r.Ok? ==> |r.value| == |DeviceLines(lines)|
    decreases |lines|
  {
    if lines == [] then Ok([])
    else if IsBlankLine(lines[0]) then ParseListing(lines[1..], parse)
    else
      var d :- parse(lines[0]);
      var rest :- ParseListing(lines[1..], parse);
      Ok([d] + rest)
  }

  /** The body of the loop in `getDevices`. */
  function LineParser(adbPath: string): string -> Result<Device> {
    line => ParseLine(line, adbPath)
  }

  /** The whole captured output: the first line is a header and is never parsed. What the
      result amounts to is stated by `GetDevicesSpec`. */
  function ParseDevices(lines: seq<string>, adbPath: string): Result<seq<Device>> {
    if |lines| <= 1 then Ok([]) else ParseListing(lines[1..], LineParser(adbPath))
  }

  /** `getDevices`: a fresh command whose output is the run's standard output followed by
      its standard error, parsed. */
  function GetDevices(pt: PlatformTools, run: Capture): (r: Result<seq<Device>>)
    ensures r == ParseDevices(run.stdout + run.stderr, pt.adbPath)
  {
    ParseDevices(Exec(DevicesCommand(pt), run).output, pt.adbPath)
  }

  // ---------------------------------------------------------------------------------------
  // The listing loop

  /** One step of the loop: a blank line is passed over, any other is parsed first. */
  lemma ListingStep(lines: seq<string>, parse: string -> Result<Device>)
    requires lines != []
    ensures IsBlankLine(lines[0]) ==>
              && DeviceLines(lines) == DeviceLines(lines[1..])
              && ParseListing(lines, parse) == ParseListing(lines[1..], parse)
    ensures !IsBlankLine(lines[0]) ==> DeviceLines(lines) == [lines[0]] + DeviceLines(lines[1..])
    ensures !IsBlankLine(lines[0]) && parse(lines[0]).Err? ==> ParseListing(lines, parse) == Err(parse(lines[0]).error)
    ensures !IsBlankLine(lines[0]) && parse(lines[0]).Ok? && ParseListing(lines[1..], parse).Err? ==>
              ParseListing(lines, parse) == Err(ParseListing(lines[1..], parse).error)
  {
  }

  /** The call succeeds exactly when every parsed line does. */
  lemma {:induction false} ParseListingOkIff(lines: seq<string>, parse: string -> Result<Device>)
    ensures ParseListing(lines, parse).Ok? ==>
              forall i :: 0 <= i < |DeviceLines(lines)| ==> parse(DeviceLines(lines)[i]).Ok?
    ensures (forall i :: 0 <= i < |DeviceLines(lines)| ==> parse(DeviceLines(lines)[i]).Ok?) ==>
              ParseListing(lines, parse).Ok?
    decreases |lines|
  {
    if lines != [] {
      ParseListingOkIff(lines[1..], parse);
      if !IsBlankLine(lines[0]) {
        var kept, tail := DeviceLines(lines), DeviceLines(lines[1..]);
        assert kept == [lines[0]] + tail;
        if parse(lines[0]).Ok? && ParseListing(lines[1..], parse).Ok? {
          forall i | 0 <= i < |kept| ensures parse(kept[i]).Ok? {
            if i > 0 {
              assert kept[i] == tail[i - 1];
            }
          }
        } else if parse(lines[0]).Err? {
          assert ParseListing(lines, parse) == Err(parse(lines[0]).error);
          assert kept[0] == lines[0];
          assert !parse(kept[0]).Ok?;
        } else {
          var j :| 0 <= j < |tail| && !parse(tail[j]).Ok?;
          assert kept[j + 1] == tail[j];
        }
      } else {
        assert DeviceLines(lines) == DeviceLines(lines[1..]);
        assert ParseListing(lines, parse) == ParseListing(lines[1..], parse);
      }
    }
  }

  /** When the call succeeds, device `i` is what parsed line `i` yields. */
  lemma {:induction false} ParseListingValues(lines: seq<string>, parse: string -> Result<Device>)
    requires ParseListing(lines, parse).Ok?
    ensures forall i :: 0 <= i < |DeviceLines(lines)| ==>
              parse(DeviceLines(lines)[i]) == Ok(ParseListing(lines, parse).value[i])
    decreases |lines|
  {
    if lines == [] {
    } else if IsBlankLine(lines[0]) {
      ParseListingValues(lines[1..], parse);
    } else {
      ParseListingValues(lines[1..], parse);
      var kept, tail := DeviceLines(lines), DeviceLines(lines[1..]);
      var v, w := ParseListing(lines, parse).value, ParseListing(lines[1..], parse).value;
      assert forall i :: 0 <= i < |tail| ==> parse(tail[i]) == Ok(w[i]);
      assert kept == [lines[0]] + tail;
      assert v == [parse(lines[0]).value] + w;
      forall i | 0 <= i < |kept| ensures parse(kept[i]) == Ok(v[i]) {
        if i > 0 {
          assert kept[i] == tail[i - 1] && v[i] == w[i - 1];
        }
      }
    }
  }

  /** Line `k` of `kept` is the first that `parse` rejects, and it throws `e`. */
  predicate FailsFirstAt(kept: seq<string>, parse: string -> Result<Device>, e: JavaException, k: int) {
    && 0 <= k < |kept|
    && parse(kept[k]) == Err(e)
    && forall j :: 0 <= j < k ==> parse(kept[j]).Ok?
  }

  /** A first failure one line further down, behind a line that parses. */
  lemma FailsFirstShift(head: string, tail: seq<string>, parse: string -> Result<Device>, e: JavaException, k: int)
    requires parse(head).Ok? && FailsFirstAt(tail, parse, e, k)
    ensures FailsFirstAt([head] + tail, parse, e, k + 1)
  {
    var kept := [head] + tail;
    forall j | 0 <= j < k + 1 ensures parse(kept[j]).Ok? {
      if j > 0 {
        assert kept[j] == tail[j - 1];
      }
    }
  }

  /** When the call fails, it fails with the exception of the first parsed line that
      throws; nothing is skipped. */
  lemma {:induction false} ParseListingFirstError(lines: seq<string>, parse: string -> Result<Device>)
    requires ParseListing(lines, parse).Err?
    ensures exists k :: FailsFirstAt(DeviceLines(lines), parse, ParseListing(lines, parse).error, k)
    decreases |lines|
  {
    assert lines != [];
    ListingStep(lines, parse);
    var kept := DeviceLines(lines);
    var e := ParseListing(lines, parse).error;
    if IsBlankLine(lines[0]) {
      ParseListingFirstError(lines[1..], parse);
    } else if parse(lines[0]).Err? {
      assert FailsFirstAt(kept, parse, e, 0);
    } else {
      ParseListingFirstError(lines[1..], parse);
      var k :| FailsFirstAt(DeviceLines(lines[1..]), parse, e, k);
      FailsFirstShift(lines[0], DeviceLines(lines[1..]), parse, e, k);
    }
  }

  /** The parsed lines of two listings back to back are those of each, in order. */
  lemma {:induction false} DeviceLinesAppend(a: seq<string>, b: seq<string>)
    ensures DeviceLines(a + b) == DeviceLines(a) + DeviceLines(b)
    decreases |a|
  {
    if a != [] {
      assert (a + b)[0] == a[0];
      assert (a + b)[1..] == a[1..] + b;
      DeviceLinesAppend(a[1..], b);
    } else {
      assert a + b == b;
    }
  }

  /** Parsing two listings back to back: the first failure wins, otherwise the devices of
      the first listing come before those of the second. */
  lemma {:induction false} ParseListingAppend(a: seq<string>, b: seq<string>, parse: string -> Result<Device>)
    ensures ParseListing(a + b, parse) ==
      if ParseListing(a, parse).Err? then ParseListing(a, parse)
      else if ParseListing(b, parse).Err? then ParseListing(b, parse)
      else Ok(ParseListing(a, parse).value + ParseListing(b, parse).value)
    decreases |a|
  {
    if a != [] {
      assert (a + b)[0] == a[0];
      assert (a + b)[1..] == a[1..] + b;
      ParseListingAppend(a[1..], b, parse);
      if !IsBlankLine(a[0]) && parse(a[0]).Ok? && ParseListing(a[1..], parse).Ok? && ParseListing(b, parse).Ok? {
        var d := parse(a[0]).value;
        assert [d] + (ParseListing(a[1..], parse).value + ParseListing(b, parse).value)
            == ([d] + ParseListing(a[1..], parse).value) + ParseListing(b, parse).value;
      }
    } else {
      assert a + b == b;
      if ParseListing(b, parse).Ok? {
        assert [] + ParseListing(b, parse).value == ParseListing(b, parse).value;
      }
    }
  }

  lemma {:induction false} BlankLinesListNothing(blanks: seq<string>, parse: string -> Result<Device>)
    requires forall i :: 0 <= i < |blanks| ==> IsBlankLine(blanks[i])
    ensures DeviceLines(blanks) == []
    ensures ParseListing(blanks, parse) == Ok([])
    decreases |blanks|
  {
    if blanks != [] {
      BlankLinesListNothing(blanks[1..], parse);
    }
  }

  /** Output with only a header, or nothing, lists no device; neither do blank lines after
      the header. */
  lemma HeaderOnlyListsNothing(header: string, blanks: seq<string>, adbPath: string)
    requires forall i :: 0 <= i < |blanks| ==> IsBlankLine(blanks[i])
    ensures ParseDevices([], adbPath) == Ok([])
    ensures ParseDevices([header], adbPath) == Ok([])
    ensures ParseDevices([header] + blanks, adbPath) == Ok([])
  {
    BlankLinesListNothing(blanks, LineParser(adbPath));
    if blanks != [] {
      assert ([header] + blanks)[1..] == blanks;
    }
  }

  /** The header is never parsed: whatever it holds, the result depends only on the lines
      after it. */
  lemma HeaderIgnored(h1: string, h2: string, rest: seq<string>, adbPath: string)
    ensures ParseDevices([h1] + rest, adbPath) == ParseDevices([h2] + rest, adbPath)
  {
    assert ([h1] + rest)[1..] == rest == ([h2] + rest)[1..];
  }

  /** `getDevices` in full: it fails exactly when some non-blank line after the header
      throws, and otherwise lists one device per such line, in order, each parsed from its
      line and carrying the tools' path. */
  lemma GetDevicesSpec(pt: PlatformTools, run: Capture)
    ensures var lines := run.stdout + run.stderr;
            var kept := if |lines| <= 1 then [] else DeviceLines(lines[1..]);
            var r := GetDevices(pt, run);
            && (r.Ok? <==> forall i :: 0 <= i < |kept| ==> ParseLine(kept[i], pt.adbPath).Ok?)
            && (r.Ok? ==> |r.value| == |kept|)
            && (r.Ok? ==> forall i :: 0 <= i < |kept| ==> Ok(r.value[i]) == ParseLine(kept[i], pt.adbPath))
            && (r.Ok? ==> forall i :: 0 <= i < |r.value| ==> r.value[i].adbPath == pt.adbPath)
  {
    GetDevicesOkIff(pt, run);
    GetDevicesValues(pt, run);
  }

  lemma GetDevicesOkIff(pt: PlatformTools, run: Capture)
    ensures var lines := run.stdout + run.stderr;
            var kept := if |lines| <= 1 then [] else DeviceLines(lines[1..]);
            GetDevices(pt, run).Ok? <==> forall i :: 0 <= i < |kept| ==> ParseLine(kept[i], pt.adbPath).Ok?
  {
    var lines := run.stdout + run.stderr;
    if |lines| > 1 {
      ParseListingOkIff(lines[1..], LineParser(pt.adbPath));
    }
  }

  lemma GetDevicesValues(pt: PlatformTools, run: Capture)
    ensures var lines := run.stdout + run.stderr;
            var kept := if |lines| <= 1 then [] else DeviceLines(lines[1..]);
            var r := GetDevices(pt, run);
            && (r.Ok? ==> |r.value| == |kept|)
            && (r.Ok? ==> forall i :: 0 <= i < |kept| ==> Ok(r.value[i]) == ParseLine(kept[i], pt.adbPath))
  {
    var lines := run.stdout + run.stderr;
    if |lines| > 1 && GetDevices(pt, run).Ok? {
      ParseListingValues(lines[1..], LineParser(pt.adbPath));
    }
  }

  /** Every device `getDevices` lists from the no-argument tools carries the path "adb". */
  lemma DefaultToolsPath(run: Capture)
    ensures var r := GetDevices(DefaultPlatformTools(), run);
            r.Ok? ==> forall i :: 0 <= i < |r.value| ==> r.value[i].adbPath == "adb"
  {
    GetDevicesSpec(DefaultPlatformTools(), run);
  }

  // ---------------------------------------------------------------------------------------
  // What a parsed line must hold

  /** The fields part is what is left of the line after four deletions. */
  lemma FieldsOfIsSubsequence(line: string)
    ensures IsSubsequence(FieldsOf(line), line)
  {
    var d1 := DeleteAll(line, NineSpaces);
    var d2 := AfterSerial(line);
    var f := DeleteAll(d2, StateOf(line) + " ");
    DeleteAllIsSubsequence(line, NineSpaces);
    DeleteAllIsSubsequence(d1, SerialOf(line));
    DeleteAllIsSubsequence(d2, StateOf(line) + " ");
    DeleteAllIsSubsequence(f, " ");
    SubsequenceTrans(d2, d1, line);
    SubsequenceTrans(f, d2, line);
    SubsequenceTrans(FieldsOf(line), f, line);
  }

  /** A line that parses holds the three markers, in the sense that their characters
      appear in it in order; the parser only deletes text, it never makes any up. */
  lemma ParsedLineHoldsMarkers(line: string, adbPath: string)
    requires ParseLine(line, adbPath).Ok?
    ensures IsSubsequence(ModelMarker, line)
    ensures IsSubsequence(DeviceMarker, line)
    ensures IsSubsequence(TransportMarker, line)
  {
    var fields := FieldsOf(line);
    FieldsOfIsSubsequence(line);
    var m := ModelOf(fields);
    assert m.Ok?;
    OccurrenceIsSubsequence(fields, ModelMarker, IndexOf(fields, ModelMarker));
    OccurrenceIsSubsequence(fields, DeviceMarker, IndexOf(fields, DeviceMarker));
    SubsequenceTrans(ModelMarker, fields, line);
    SubsequenceTrans(DeviceMarker, fields, line);
    var rest := DeleteAll(fields, ModelMarker + m.value);
    assert TransportIdOf(fields, m.value).Ok?;
    assert SubstringFrom(rest, IndexOf(rest, TransportMarker)).Ok?;
    OccurrenceIsSubsequence(rest, TransportMarker, IndexOf(rest, TransportMarker));
    DeleteAllIsSubsequence(fields, ModelMarker + m.value);
    SubsequenceTrans(TransportMarker, rest, fields);
    SubsequenceTrans(TransportMarker, fields, line);
  }

  /** A line without a colon cannot hold the markers, so it throws. */
  lemma ColonFreeLineThrows(line: string, adbPath: string)
    requires ':' !in line
    ensures ParseLine(line, adbPath).Err?
  {
    if ParseLine(line, adbPath).Ok? {
      ParsedLineHoldsMarkers(line, adbPath);
      assert ModelMarker[5] == ':';
      SubsequenceKeepsChars(ModelMarker, line, ':');
    }
  }

  /** One throwing line after the header makes the whole call throw: lines are never
      skipped for being malformed. */
  lemma BadLineAbortsListing(pt: PlatformTools, run: Capture, k: int)
    requires var lines := run.stdout + run.stderr;
             && 1 <= k < |lines| && !IsBlankLine(lines[k]) && ParseLine(lines[k], pt.adbPath).Err?
    ensures GetDevices(pt, run).Err?
  {
    var lines := run.stdout + run.stderr;
    var kept := DeviceLines(lines[1..]);
    assert lines[1..][k - 1] == lines[k];
    var i :| 0 <= i < |kept| && kept[i] == lines[k];
    GetDevicesSpec(pt, run);
  }
}
