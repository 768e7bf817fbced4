/** What the line parser of `getDevices` makes of one well-formed line of `adb devices -l`:
    a serial, a gap of spaces, a state, and the `product:`, `model:`, `device:` and
    `transport_id:` fields separated by single spaces. The proofs follow the parser stage
    by stage; each stage is a deletion whose effect is pinned down by where the marker
    characters can and cannot occur. */
module ListingLines {
  import opened Wrappers
  import opened JavaText
  import opened Platform

  /** `n` spaces. */
  function Spaces(n: nat): (r: string)
    ensures |r| == n
    ensures forall i :: 0 <= i < n ==> r[i] == ' '
    decreases n
  {
    if n == 0 then "" else " " + Spaces(n - 1)
  }

  /** Every `x` in `s` comes right after a character other than `c`. */
  predicate Guarded(s: string, x: char, c: char) {
    && (|s| > 0 ==> s[0] != x)
    && forall i, j :: 0 <= i < |s| && 0 <= j < |s| && j == i + 1 && s[j] == x ==> s[i] != c
  }

  /** A pattern holding `c` then `x` cannot occur where every `x` follows something else. */
  lemma GuardBlocks(s: string, p: string, k: int)
    requires 1 <= k < |p| && Guarded(s, p[k], p[k - 1])
    ensures forall j :: !OccursAt(s, p, j)
  {
    forall j | 0 <= j && j + |p| <= |s| ensures !OccursAt(s, p, j) {
      assert s[j..j + |p|][k] == s[j + k] && s[j..j + |p|][k - 1] == s[j + k - 1];
    }
  }

  lemma GuardedAppend(a: string, b: string, x: char, c: char)
    requires Guarded(a, x, c) && Guarded(b, x, c)
    ensures Guarded(a + b, x, c)
  {
    var s := a + b;
    if |b| > 0 {
      assert s[|a|] == b[0];
    }
    forall i, j | 0 <= i < |s| && 0 <= j < |s| && j == i + 1 && s[j] == x ensures s[i] != c {
      if j < |a| {
        assert s[i] == a[i] && s[j] == a[j];
      } else if j > |a| {
        assert s[i] == b[i - |a|] && s[j] == b[j - |a|];
      }
    }
    if |s| > 0 {
      assert s[0] == if |a| > 0 then a[0] else b[0];
    }
  }

  /** The first occurrence of `p` in `a + p + b` is the one after `a`, when every `p[k]`
      before it follows something other than `p[k - 1]`. */
  lemma FirstMarker(a: string, p: string, b: string, k: int)
    requires 1 <= k < |p|
    requires Guarded(a + p[..k], p[k], p[k - 1])
    ensures IndexOf(a + p + b, p) == |a|
  {
    var s := a + p + b;
    assert s[|a|..|a| + |p|] == p;
    forall j | 0 <= j < |a| ensures !OccursAt(s, p, j) {
      assert (a + p[..k])[j + k] == s[j + k];
      assert (a + p[..k])[j + k - 1] == s[j + k - 1];
      assert s[j..j + |p|][k] == s[j + k] && s[j..j + |p|][k - 1] == s[j + k - 1];
    }
    IndexOfFirst(s, p, |a|);
  }

  /** A word followed by its separating space. */
  lemma WordSpaceGuarded(w: string)
    requires w != [] && ' ' !in w
    ensures Guarded(w + " ", ' ', ' ')
  {
    assert forall i :: 0 <= i < |w| ==> (w + " ")[i] == w[i];
  }

  lemma SpacesSplit(m: nat, n: nat)
    ensures Spaces(m + n) == Spaces(m) + Spaces(n)
  {
  }

  lemma NineSpacesLead(g: nat, u: string)
    requires g >= 9
    ensures Spaces(g) + u == NineSpaces + (Spaces(g - 9) + u)
  {
    SpacesSplit(9, g - 9);
    assert Spaces(9) == NineSpaces;
  }

  /** A gap shorter than nine spaces, before text that holds no run of nine, is kept. */
  lemma ShortGapKept(g: nat, u: string)
    requires g < 9
    requires u == [] || u[0] != ' '
    requires forall j :: !OccursAt(u, NineSpaces, j)
    ensures DeleteAll(Spaces(g) + u, NineSpaces) == Spaces(g) + u
  {
    var s := Spaces(g) + u;
    forall i | 0 <= i < g ensures !OccursAt(s, NineSpaces, i) {
      if i + 9 <= |s| {
        assert s[g] == u[0];
        assert s[i..i + 9][g - i] == s[g];
      }
    }
    DeleteAllSkipsPrefix(Spaces(g), u, NineSpaces);
    DeleteAllWithoutMatch(u, NineSpaces);
  }

  /** Runs of nine spaces are deleted from a gap, leaving its remainder modulo nine. */
  lemma {:induction false} GapDeleted(g: nat, u: string)
    requires u == [] || u[0] != ' '
    requires forall j :: !OccursAt(u, NineSpaces, j)
    ensures DeleteAll(Spaces(g) + u, NineSpaces) == Spaces(g % 9) + u
    decreases g
  {
    if g >= 9 {
      NineSpacesLead(g, u);
      DeleteAllLeading(NineSpaces, Spaces(g - 9) + u);
      GapDeleted(g - 9, u);
      assert (g - 9) % 9 == g % 9;
    } else {
      ShortGapKept(g, u);
      assert g % 9 == g;
    }
  }

  /** The token before the first space. */
  lemma LeadingTokenOf(w: string, rest: string)
    requires ' ' !in w
    requires rest != [] && rest[0] == ' '
    ensures LeadingToken(w + rest) == w
  {
    var s := w + rest;
    assert s[|w|..|w| + 1] == " ";
    forall j | 0 <= j < |w| ensures !OccursAt(s, " ", j) {
      assert s[j..j + 1][0] == w[j];
    }
    IndexOfFirst(s, " ", |w|);
    assert s[..|w|] == w;
  }

  /** A line that starts with a space has an empty leading token. */
  lemma LeadingTokenAfterSpace(rest: string)
    requires rest != [] && rest[0] == ' '
    ensures LeadingToken(rest) == []
  {
    assert rest[0..1] == " ";
    IndexOfFirst(rest, " ", 0);
  }

  /** A value of a listing field: non-empty, without spaces or colons. */
  predicate Token(s: string) {
    s != [] && ' ' !in s && ':' !in s
  }

  /** The fields after the state, as `adb devices -l` prints them. */
  function FieldText(prod: string, mdl: string, dev: string, id: string): string {
    ("product:" + prod) + " " + ("model:" + mdl) + " " + ("device:" + dev) + " " + ("transport_id:" + id)
  }

  /** The same fields once every space is deleted. */
  function Compact(prod: string, mdl: string, dev: string, id: string): string {
    ("product:" + prod) + ("model:" + mdl) + ("device:" + dev) + ("transport_id:" + id)
  }

  lemma DropLeadingSpace(w: string)
    requires ' ' !in w
    ensures DeleteAll(" " + w, " ") == w
  {
    ForeignCharBlocksOccurrence(w, " ", 0);
    DeleteAllPrefixOnly(" ", w);
  }

  /** Four space-free words joined by single spaces lose exactly those spaces. */
  lemma SpacesOfJoin(a: string, b: string, c: string, d: string)
    requires ' ' !in a && ' ' !in b && ' ' !in c && ' ' !in d
    ensures DeleteAll(a + " " + b + " " + c + " " + d, " ") == a + b + c + d
  {
    var ab := a + (" " + b);
    var abc := ab + (" " + c);
    assert a + " " + b + " " + c + " " + d == abc + (" " + d);
    ForeignCharBlocksOccurrence(a, " ", 0);
    DeleteAllWithoutMatch(a, " ");
    DropLeadingSpace(b);
    DropLeadingSpace(c);
    DropLeadingSpace(d);
    DeleteCharSplits(a, " " + b, ' ');
    assert DeleteAll(ab, " ") == a + b;
    DeleteCharSplits(ab, " " + c, ' ');
    assert DeleteAll(abc, " ") == a + b + c;
    DeleteCharSplits(abc, " " + d, ' ');
  }

  lemma SpacesOfFields(prod: string, mdl: string, dev: string, id: string)
    requires ' ' !in prod && ' ' !in mdl && ' ' !in dev && ' ' !in id
    ensures DeleteAll(FieldText(prod, mdl, dev, id), " ") == Compact(prod, mdl, dev, id)
  {
    var a, b, c, d := "product:" + prod, "model:" + mdl, "device:" + dev, "transport_id:" + id;
    assert ' ' !in a && ' ' !in b && ' ' !in c && ' ' !in d;
    SpacesOfJoin(a, b, c, d);
  }

  /** A word without spaces cannot start inside a gap, so it occurs after the gap only where
      it occurs in the text that follows. */
  lemma NotAfterGap(r: nat, u: string, w: string)
    requires w != [] && ' ' !in w
    requires forall j :: !OccursAt(u, w, j)
    ensures forall j :: !OccursAt(Spaces(r) + u, w, j)
  {
    var s := Spaces(r) + u;
    forall j | 0 <= j && j + |w| <= |s| ensures !OccursAt(s, w, j) {
      if j < r {
        assert s[j..j + |w|][0] == s[j] == ' ';
        assert w[0] in w;
      } else {
        assert s[j..j + |w|] == u[j - r..j - r + |w|];
        assert !OccursAt(u, w, j - r);
      }
    }
  }

  /** The serial stage: the serial is the text before the gap, and deleting the runs of
      nine spaces and the serial leaves the gap's remainder modulo nine before the rest. */
  lemma SerialStage(serial: string, g: nat, u: string)
    requires serial != [] && ' ' !in serial && g >= 1
    requires u != [] && u[0] != ' ' && Guarded(u, ' ', ' ')
    requires forall j :: !OccursAt(u, serial, j)
    ensures SerialOf(serial + Spaces(g) + u) == serial
    ensures AfterSerial(serial + Spaces(g) + u) == Spaces(g % 9) + u
  {
    var line := serial + (Spaces(g) + u);
    assert line == serial + Spaces(g) + u;
    LeadingTokenOf(serial, Spaces(g) + u);
    GuardBlocks(u, NineSpaces, 1);
    forall i | 0 <= i < |serial| ensures !OccursAt(line, NineSpaces, i) {
      assert line[i] == serial[i];
      if i + 9 <= |line| {
        assert line[i..i + 9][0] == line[i];
      }
    }
    DeleteAllSkipsPrefix(serial, Spaces(g) + u, NineSpaces);
    GapDeleted(g, u);
    NotAfterGap(g % 9, u, serial);
    DeleteAllPrefixOnly(serial, Spaces(g % 9) + u);
  }

  lemma {:induction false} SpacesDeleted(n: nat)
    ensures DeleteAll(Spaces(n), " ") == []
    decreases n
  {
    if n > 0 {
      SpacesDeleted(n - 1);
      DeleteAllLeading(" ", Spaces(n - 1));
    }
  }

  /** After a gap of a multiple of nine spaces the state is the next token, and it is
      deleted together with its space. */
  lemma StateAfterFullGap(state: string, t: string)
    requires ' ' !in state
    requires forall j :: !OccursAt(t, state + " ", j)
    ensures LeadingToken(state + " " + t) == state
    ensures DeleteAll(state + " " + t, state + " ") == t
  {
    assert state + " " + t == state + (" " + t);
    LeadingTokenOf(state, " " + t);
    DeleteAllPrefixOnly(state + " ", t);
  }

  /** After any other gap the state comes out empty, and only spaces are deleted. */
  lemma StateAfterShortGap(r: nat, state: string, t: string)
    requires r > 0 && ' ' !in state
    ensures LeadingToken(Spaces(r) + state + " " + t) == []
    ensures DeleteAll(DeleteAll(Spaces(r) + state + " " + t, [] + " "), " ") == state + DeleteAll(t, " ")
  {
    var x := Spaces(r) + state + " " + t;
    assert x[0] == ' ';
    LeadingTokenAfterSpace(x);
    assert [] + " " == " ";
    var f := DeleteAll(x, " ");
    DeleteCharRemoves(x, ' ');
    ForeignCharBlocksOccurrence(f, " ", 0);
    DeleteAllWithoutMatch(f, " ");
    var sp := Spaces(r);
    assert [' '] == " ";
    DeleteCharSplits(sp + state + " ", t, ' ');
    DeleteCharSplits(sp + state, " ", ' ');
    DeleteCharSplits(sp, state, ' ');
    SpacesDeleted(r);
    ForeignCharBlocksOccurrence(state, " ", 0);
    DeleteAllWithoutMatch(state, " ");
    assert DeleteAll(" ", " ") == [];
    assert DeleteAll(sp + state, " ") == state;
    assert DeleteAll(sp + state + " ", " ") == state;
  }

  /** The state stage: after a gap that was a multiple of nine spaces the state is the next
      token and is deleted with its space; after any other gap the state comes out empty,
      only spaces are deleted, and the state's text stays in front of the fields. */
  lemma StateStage(line: string, r: nat, state: string, t: string)
    requires AfterSerial(line) == Spaces(r) + state + " " + t
    requires ' ' !in state
    requires forall j :: !OccursAt(t, state + " ", j)
    ensures StateOf(line) == (if r == 0 then state else "")
    ensures FieldsOf(line) == (if r == 0 then DeleteAll(t, " ") else state + DeleteAll(t, " "))
  {
    if r == 0 {
      assert Spaces(r) + state + " " + t == state + " " + t;
      StateAfterFullGap(state, t);
    } else {
      StateAfterShortGap(r, state, t);
    }
  }

  /** Where the colons of the four markers sit: each follows a different letter. */
  lemma MarkerGuards()
    ensures Guarded("product:", ':', 'l') && Guarded("product:", ':', 'e') && Guarded("product:", ':', 'd')
    ensures Guarded("model:", ':', 'e') && Guarded("device:", ':', 'l') && Guarded("device:", ':', 'd')
    ensures Guarded("transport_id:", ':', 'l')
    ensures ':' !in "model" && ':' !in "device" && ':' !in "transport_id"
    ensures "model:"[..5] == "model" && "device:"[..6] == "device" && "transport_id:"[..12] == "transport_id"
  {
  }

  /** Colon-free text is guarded for colons whatever precedes them. */
  lemma ColonFreeGuarded(s: string, c: char)
    requires ':' !in s
    ensures Guarded(s, ':', c)
  {
  }

  lemma ModelIndex(a: string, rest: string)
    requires Guarded(a, ':', 'l')
    ensures IndexOf(a + "model:" + rest, "model:") == |a|
  {
    MarkerGuards();
    GuardedAppend(a, "model", ':', 'l');
    FirstMarker(a, "model:", rest, 5);
  }

  lemma DeviceIndex(b: string, rest: string)
    requires Guarded(b, ':', 'e')
    ensures IndexOf(b + "device:" + rest, "device:") == |b|
  {
    MarkerGuards();
    GuardedAppend(b, "device", ':', 'e');
    FirstMarker(b, "device:", rest, 6);
  }

  lemma TransportIndex(c: string, rest: string)
    requires Guarded(c, ':', 'd')
    ensures IndexOf(c + "transport_id:" + rest, "transport_id:") == |c|
  {
    MarkerGuards();
    GuardedAppend(c, "transport_id", ':', 'd');
    FirstMarker(c, "transport_id:", rest, 12);
  }

  /** The colons before each marker belong to the markers before it. */
  lemma GuardBeforeModel(pre: string, prod: string)
    requires ':' !in pre && ':' !in prod
    ensures Guarded(pre + "product:" + prod, ':', 'l')
  {
    MarkerGuards();
    GuardedAppend(pre, "product:", ':', 'l');
    GuardedAppend(pre + "product:", prod, ':', 'l');
  }

  lemma GuardBeforeDevice(pre: string, prod: string, mdl: string)
    requires ':' !in pre && ':' !in prod && ':' !in mdl
    ensures Guarded(pre + "product:" + prod + "model:" + mdl, ':', 'e')
  {
    MarkerGuards();
    var a := pre + "product:";
    GuardedAppend(pre, "product:", ':', 'e');
    GuardedAppend(a, prod, ':', 'e');
    GuardedAppend(a + prod, "model:", ':', 'e');
    GuardedAppend(a + prod + "model:", mdl, ':', 'e');
  }

  lemma GuardBeforeTransport(pre: string, prod: string, dev: string)
    requires ':' !in pre && ':' !in prod && ':' !in dev
    ensures Guarded(pre + "product:" + prod + "device:" + dev, ':', 'd')
  {
    MarkerGuards();
    var a := pre + "product:";
    GuardedAppend(pre, "product:", ':', 'd');
    GuardedAppend(a, prod, ':', 'd');
    GuardedAppend(a + prod, "device:", ':', 'd');
    GuardedAppend(a + prod + "device:", dev, ':', 'd');
  }

  /** `ModelOf` once both markers are located. */
  lemma ModelCut(fields: string, i: nat, k: nat, mdl: string)
    requires IndexOf(fields, "model:") == i && IndexOf(fields, "device:") == k
    requires i <= k <= |fields| && fields[i..k] == "model:" + mdl && ':' !in mdl
    ensures ModelOf(fields) == Ok(mdl)
  {
    ForeignCharBlocksOccurrence(mdl, "model:", 5);
    DeleteAllPrefixOnly("model:", mdl);
  }

  lemma CompactAtModel(pre: string, prod: string, mdl: string, dev: string, id: string)
    ensures pre + Compact(prod, mdl, dev, id)
         == (pre + "product:" + prod) + "model:" + (mdl + "device:" + dev + "transport_id:" + id)
  {
  }

  lemma CompactAtDevice(pre: string, prod: string, mdl: string, dev: string, id: string)
    ensures pre + Compact(prod, mdl, dev, id)
         == (pre + "product:" + prod + "model:" + mdl) + "device:" + (dev + "transport_id:" + id)
  {
  }

  lemma ModelMarkerAt(pre: string, prod: string, mdl: string, dev: string, id: string)
    requires ':' !in pre && ':' !in prod && ':' !in mdl && ':' !in dev
    ensures IndexOf(pre + Compact(prod, mdl, dev, id), "model:") == |pre + "product:" + prod|
  {
    var a := pre + "product:" + prod;
    CompactAtModel(pre, prod, mdl, dev, id);
    GuardBeforeModel(pre, prod);
    ModelIndex(a, mdl + "device:" + dev + "transport_id:" + id);
  }

  lemma DeviceMarkerAt(pre: string, prod: string, mdl: string, dev: string, id: string)
    requires ':' !in pre && ':' !in prod && ':' !in mdl && ':' !in dev
    ensures IndexOf(pre + Compact(prod, mdl, dev, id), "device:") == |pre + "product:" + prod + "model:" + mdl|
  {
    var b := pre + "product:" + prod + "model:" + mdl;
    CompactAtDevice(pre, prod, mdl, dev, id);
    GuardBeforeDevice(pre, prod, mdl);
    DeviceIndex(b, dev + "transport_id:" + id);
  }

  /** The model stage: the model is cut out from `model:` to the first `device:`. */
  lemma ModelStage(pre: string, prod: string, mdl: string, dev: string, id: string)
    requires ':' !in pre && ':' !in prod && ':' !in mdl && ':' !in dev
    ensures ModelOf(pre + Compact(prod, mdl, dev, id)) == Ok(mdl)
  {
    var fields := pre + Compact(prod, mdl, dev, id);
    var a := pre + "product:" + prod;
    var b := a + "model:" + mdl;
    ModelMarkerAt(pre, prod, mdl, dev, id);
    DeviceMarkerAt(pre, prod, mdl, dev, id);
    CompactAround(pre, prod, mdl, dev, id);
    MiddleSlice(a, "model:" + mdl, "device:" + dev + "transport_id:" + id);
    ModelCut(fields, |a|, |b|, mdl);
  }

  lemma MiddleSlice(a: string, m: string, e: string)
    ensures (a + (m + e))[|a|..|a| + |m|] == m
  {
  }

  lemma CompactAround(pre: string, prod: string, mdl: string, dev: string, id: string)
    ensures pre + Compact(prod, mdl, dev, id)
         == (pre + "product:" + prod) + (("model:" + mdl) + ("device:" + dev + "transport_id:" + id))
  {
  }

  /** The fields after the model marker hold no further `model:`. */
  lemma GuardAfterModel(dev: string, id: string)
    requires ':' !in dev && ':' !in id
    ensures Guarded("device:" + dev + "transport_id:" + id, ':', 'l')
  {
    MarkerGuards();
    GuardedAppend("device:", dev, ':', 'l');
    GuardedAppend("device:" + dev, "transport_id:", ':', 'l');
    GuardedAppend("device:" + dev + "transport_id:", id, ':', 'l');
  }

  /** Deleting `p` from `a + p + e` removes just that copy, when no copy of `p`'s first
      `m` characters starts in `a` and `p` does not occur in `e`. */
  lemma DeleteOnlyAt(a: string, p: string, e: string, m: nat)
    requires 0 < m <= |p|
    requires IndexOf(a + (p + e), p[..m]) == |a|
    requires forall j :: !OccursAt(e, p, j)
    ensures DeleteAll(a + (p + e), p) == a + e
  {
    var s := a + (p + e);
    forall i | 0 <= i < |a| ensures !OccursAt(s, p, i) {
      assert !OccursAt(s, p[..m], i);
      if i + |p| <= |s| {
        assert s[i..i + |p|][..m] == s[i..i + m];
      }
    }
    DeleteAllSkipsPrefix(a, p + e, p);
    DeleteAllLeading(p, e);
    DeleteAllWithoutMatch(e, p);
  }

  lemma AroundModelDeleted(pre: string, prod: string, dev: string, id: string)
    ensures (pre + "product:" + prod) + ("device:" + dev + "transport_id:" + id)
         == (pre + "product:" + prod + "device:" + dev) + "transport_id:" + id
  {
  }

  /** Deleting `model:` and the model takes out exactly the model field. */
  lemma ModelDeleted(pre: string, prod: string, mdl: string, dev: string, id: string)
    requires ':' !in pre && ':' !in prod && ':' !in mdl && ':' !in dev && ':' !in id
    ensures DeleteAll(pre + Compact(prod, mdl, dev, id), "model:" + mdl)
         == (pre + "product:" + prod + "device:" + dev) + "transport_id:" + id
  {
    var a, p, e := pre + "product:" + prod, "model:" + mdl, "device:" + dev + "transport_id:" + id;
    CompactAround(pre, prod, mdl, dev, id);
    ModelMarkerAt(pre, prod, mdl, dev, id);
    assert p[..6] == "model:";
    GuardAfterModel(dev, id);
    GuardBlocks(e, p, 5);
    DeleteOnlyAt(a, p, e, 6);
    AroundModelDeleted(pre, prod, dev, id);
  }

  /** The tail from `transport_id:`, with the marker deleted, is the id. */
  lemma TransportTail(c: string, id: string)
    requires Guarded(c, ':', 'd') && ':' !in id
    ensures SubstringFrom(c + "transport_id:" + id, IndexOf(c + "transport_id:" + id, "transport_id:"))
         == Ok("transport_id:" + id)
    ensures DeleteAll("transport_id:" + id, "transport_id:") == id
  {
    var s := c + "transport_id:" + id;
    TransportIndex(c, id);
    var v := SubstringFrom(s, |c|).value;
    assert v == s[|c|..|s|];
    assert s[|c|..|s|] == "transport_id:" + id;
    ForeignCharBlocksOccurrence(id, "transport_id:", 12);
    DeleteAllPrefixOnly("transport_id:", id);
  }

  /** The transport stage: the id is the text after `transport_id:`, parsed. */
  lemma TransportStage(pre: string, prod: string, mdl: string, dev: string, id: string)
    requires ':' !in pre && ':' !in prod && ':' !in mdl && ':' !in dev && ':' !in id
    ensures TransportIdOf(pre + Compact(prod, mdl, dev, id), mdl) == ParseInt(id)
  {
    var c := pre + "product:" + prod + "device:" + dev;
    ModelDeleted(pre, prod, mdl, dev, id);
    GuardBeforeTransport(pre, prod, dev);
    TransportTail(c, id);
  }

  lemma CharFreeGuarded(s: string, x: char, c: char)
    requires x !in s
    ensures Guarded(s, x, c)
  {
  }

  lemma FieldTextRegrouped(state: string, prod: string, mdl: string, dev: string, id: string)
    ensures state + " " + FieldText(prod, mdl, dev, id)
         == (state + " ") + ("product:" + prod + " ") + ("model:" + mdl + " ") + ("device:" + dev + " ")
            + ("transport_id:" + id)
  {
  }

  /** In a well-formed line every space after the serial's gap stands alone. */
  lemma FieldTextGuarded(state: string, prod: string, mdl: string, dev: string, id: string)
    requires Token(state) && Token(prod) && Token(mdl) && Token(dev) && ' ' !in id
    ensures Guarded(state + " " + FieldText(prod, mdl, dev, id), ' ', ' ')
  {
    var w1, w2, w3, w4 := state + " ", "product:" + prod + " ", "model:" + mdl + " ", "device:" + dev + " ";
    var w5 := "transport_id:" + id;
    WordSpaceGuarded(state);
    assert ' ' !in "product:" + prod && ' ' !in "model:" + mdl && ' ' !in "device:" + dev;
    WordSpaceGuarded("product:" + prod);
    WordSpaceGuarded("model:" + mdl);
    WordSpaceGuarded("device:" + dev);
    assert ' ' !in w5;
    CharFreeGuarded(w5, ' ', ' ');
    GuardedAppend(w1, w2, ' ', ' ');
    GuardedAppend(w1 + w2, w3, ' ', ' ');
    GuardedAppend(w1 + w2 + w3, w4, ' ', ' ');
    GuardedAppend(w1 + w2 + w3 + w4, w5, ' ', ' ');
    FieldTextRegrouped(state, prod, mdl, dev, id);
  }

  /** The text of a well-formed line. */
  function LineText(serial: string, g: nat, state: string, prod: string, mdl: string, dev: string, id: string): string {
    serial + Spaces(g) + (state + " " + FieldText(prod, mdl, dev, id))
  }

  /** The serial, state and fields of a well-formed line. */
  lemma LineStages(serial: string, g: nat, state: string, prod: string, mdl: string, dev: string, id: string)
    requires serial != [] && ' ' !in serial && g >= 1
    requires Token(state) && Token(prod) && Token(mdl) && Token(dev) && ' ' !in id && ':' !in id
    requires forall j :: !OccursAt(state + " " + FieldText(prod, mdl, dev, id), serial, j)
    requires forall j :: !OccursAt(FieldText(prod, mdl, dev, id), state + " ", j)
    ensures var line := LineText(serial, g, state, prod, mdl, dev, id);
            && SerialOf(line) == serial
            && StateOf(line) == (if g % 9 == 0 then state else "")
            && FieldsOf(line) == (if g % 9 == 0 then "" else state) + Compact(prod, mdl, dev, id)
  {
    var t := FieldText(prod, mdl, dev, id);
    var u := state + " " + t;
    var line := LineText(serial, g, state, prod, mdl, dev, id);
    assert u[0] == state[0];
    assert state[0] in state;
    FieldTextGuarded(state, prod, mdl, dev, id);
    SerialStage(serial, g, u);
    StateStage(line, g % 9, state, t);
    SpacesOfFields(prod, mdl, dev, id);
    if g % 9 == 0 {
      assert [] + Compact(prod, mdl, dev, id) == Compact(prod, mdl, dev, id);
    }
  }

  /** A well-formed line yields its serial, its model and its parsed transport id, and its
      state only when the gap after the serial is a multiple of nine spaces; otherwise the
      state is empty. The line fails only when the id does not parse. The preconditions
      that neither the serial nor the state followed by a space recurs later in the line
      are real limits of the parser, which deletes every copy of both. */
  lemma ParseWellFormedLine(serial: string, g: nat, state: string, prod: string, mdl: string, dev: string,
                            id: string, adbPath: string)
    requires serial != [] && ' ' !in serial && g >= 1
    requires Token(state) && Token(prod) && Token(mdl) && Token(dev) && ' ' !in id && ':' !in id
    requires forall j :: !OccursAt(state + " " + FieldText(prod, mdl, dev, id), serial, j)
    requires forall j :: !OccursAt(FieldText(prod, mdl, dev, id), state + " ", j)
    ensures ParseLine(LineText(serial, g, state, prod, mdl, dev, id), adbPath)
         == match ParseInt(id)
            case Ok(n) => Ok(Device(serial, if g % 9 == 0 then state else "", mdl, n, adbPath))
            case Err(e) => Err(e)
  {
    LineStages(serial, g, state, prod, mdl, dev, id);
    var pre := if g % 9 == 0 then "" else state;
    assert ':' !in pre;
    ModelStage(pre, prod, mdl, dev, id);
    TransportStage(pre, prod, mdl, dev, id);
  }

  lemma WordSpaceGuardedBy(w: string, c: char)
    requires w != [] && ' ' !in w && w[|w| - 1] != c
    ensures Guarded(w + " ", ' ', c)
  {
    assert forall i :: 0 <= i < |w| ==> (w + " ")[i] == w[i];
  }

  /** The state followed by a space recurs in the fields only when some field value ends
      with the state's last character. */
  lemma StateDoesNotRecur(state: string, prod: string, mdl: string, dev: string, id: string)
    requires Token(state) && Token(prod) && Token(mdl) && Token(dev) && ' ' !in id
    requires var c := state[|state| - 1]; prod[|prod| - 1] != c && mdl[|mdl| - 1] != c && dev[|dev| - 1] != c
    ensures forall j :: !OccursAt(FieldText(prod, mdl, dev, id), state + " ", j)
  {
    var c := state[|state| - 1];
    var w2, w3, w4, w5 := "product:" + prod, "model:" + mdl, "device:" + dev, "transport_id:" + id;
    assert ' ' !in w2 && ' ' !in w3 && ' ' !in w4 && ' ' !in w5;
    WordSpaceGuardedBy(w2, c);
    WordSpaceGuardedBy(w3, c);
    WordSpaceGuardedBy(w4, c);
    CharFreeGuarded(w5, ' ', c);
    GuardedAppend(w2 + " ", w3 + " ", ' ', c);
    GuardedAppend(w2 + " " + (w3 + " "), w4 + " ", ' ', c);
    GuardedAppend(w2 + " " + (w3 + " ") + (w4 + " "), w5, ' ', c);
    assert FieldText(prod, mdl, dev, id) == w2 + " " + (w3 + " ") + (w4 + " ") + w5;
    GuardBlocks(FieldText(prod, mdl, dev, id), state + " ", |state|);
  }

  /** The preconditions of `ParseWellFormedLine` for the sample values: the serial
      `ABC123`, state `device`, product `x`, model `Pixel_5` and device `redfin`. */
  lemma SampleLineFits(id: string)
    requires Token(id)
    ensures Token("device") && Token("x") && Token("Pixel_5") && Token("redfin")
    ensures 'A' !in id ==> forall j :: !OccursAt("device" + " " + FieldText("x", "Pixel_5", "redfin", id), "ABC123", j)
    ensures forall j :: !OccursAt(FieldText("x", "Pixel_5", "redfin", id), "device" + " ", j)
  {
    assert Token("device") && Token("x") && Token("Pixel_5") && Token("redfin");
    if 'A' !in id {
      SampleSerialAbsent(id);
    }
    StateDoesNotRecur("device", "x", "Pixel_5", "redfin", id);
  }

  lemma SampleSerialAbsent(id: string)
    requires 'A' !in id
    ensures forall j :: !OccursAt("device" + " " + FieldText("x", "Pixel_5", "redfin", id), "ABC123", j)
  {
    var state, prod, mdl, dev := "device", "x", "Pixel_5", "redfin";
    var rest := state + " " + FieldText(prod, mdl, dev, id);
    assert rest == state + " " + ("product:" + prod) + " " + ("model:" + mdl) + " " + ("device:" + dev) + " "
                   + ("transport_id:" + id);
    assert 'A' !in rest;
    ForeignCharBlocksOccurrence(rest, "ABC123", 0);
  }

  /** The sample line with any gap and any id. */
  lemma SampleLine(g: nat, id: string, adbPath: string)
    requires g >= 1 && Token(id) && 'A' !in id
    ensures ParseLine(LineText("ABC123", g, "device", "x", "Pixel_5", "redfin", id), adbPath)
         == match ParseInt(id)
            case Ok(n) => Ok(Device("ABC123", if g % 9 == 0 then "device" else "", "Pixel_5", n, adbPath))
            case Err(e) => Err(e)
  {
    SampleLineFits(id);
    ParseWellFormedLine("ABC123", g, "device", "x", "Pixel_5", "redfin", id, adbPath);
  }

  lemma ThreeParses()
    ensures ParseInt("3") == Ok(3)
  {
    assert DigitsValue("3") == 3 by {
      assert "3"[..0] == [];
    }
  }

  /** `ABC123`, nine spaces (or any multiple of nine), `device product:x model:Pixel_5
      device:redfin transport_id:3` gives serial `ABC123`, state `device`, model `Pixel_5`
      and id 3. */
  lemma PixelLine(g: nat, adbPath: string)
    requires g >= 1 && g % 9 == 0
    ensures ParseLine(LineText("ABC123", g, "device", "x", "Pixel_5", "redfin", "3"), adbPath)
         == Ok(Device("ABC123", "device", "Pixel_5", 3, adbPath))
  {
    ThreeParses();
    SampleLine(g, "3", adbPath);
  }

  /** The same line with a gap that is not a multiple of nine, such as the ten spaces
      `adb` prints after a thirteen-character serial, loses its state. */
  lemma ShortGapLosesState(g: nat, adbPath: string)
    requires g >= 1 && g % 9 != 0
    ensures ParseLine(LineText("ABC123", g, "device", "x", "Pixel_5", "redfin", "3"), adbPath)
         == Ok(Device("ABC123", "", "Pixel_5", 3, adbPath))
  {
    ThreeParses();
    SampleLine(g, "3", adbPath);
  }

  /** A non-numeric transport id makes the line throw. */
  lemma NonNumericIdThrows(adbPath: string)
    ensures ParseLine(LineText("ABC123", 9, "device", "x", "Pixel_5", "redfin", "abc"), adbPath) == Err(NumberFormat)
  {
    SampleLine(9, "abc", adbPath);
    assert ParseInt("abc") == Err(NumberFormat);
  }
}
