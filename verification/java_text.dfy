/** The few java.lang.String and java.lang.Integer operations the library relies on, with
    Java's semantics: `indexOf` answers -1 when there is no match, `substring` throws on bad
    indices, `replace(target, "")` deletes every non-overlapping occurrence from left to
    right, and `Integer.parseInt` accepts an optional sign and ASCII decimal digits within
    the 32-bit range. */
module JavaText {
  import opened Wrappers

  /** `p` occurs in `s` starting at index `i`. */
  ghost predicate OccursAt(s: string, p: string, i: int) {
    0 <= i && i + |p| <= |s| && s[i..i + |p|] == p
  }

  /** `a` can be obtained from `b` by deleting characters. */
  ghost predicate IsSubsequence(a: string, b: string)
    decreases |b|
  {
    || a == []
    || (b != [] && ((a[0] == b[0] && IsSubsequence(a[1..], b[1..])) || IsSubsequence(a, b[1..])))
  }

  /** `s.startsWith(p)` */
  predicate StartsWith(s: string, p: string) {
    |p| <= |s| && s[..|p|] == p
  }

  /** `s.endsWith(p)` */
  predicate EndsWith(s: string, p: string) {
    |p| <= |s| && s[|s| - |p|..] == p
  }

  /** Shifting the search window by the dropped first character. */
  lemma OccursShift(s: string, p: string, j: int)
    requires |s| > 0 && j >= 0
    ensures OccursAt(s[1..], p, j) <==> OccursAt(s, p, j + 1)
  {
    if j + 1 + |p| <= |s| {
      assert s[1..][j..j + |p|] == s[j + 1..j + 1 + |p|];
    }
  }

  /** `s.indexOf(p)`: the first index at which `p` occurs, or -1. */
  function IndexOf(s: string, p: string): (r: int)
    ensures r == -1 || OccursAt(s, p, r)
    ensures r >= 0 ==> forall j :: 0 <= j < r ==> !OccursAt(s, p, j)
    ensures r == -1 ==> forall j :: !OccursAt(s, p, j)
    decreases |s|
  {
    if |p| > |s| then -1
    else if s[..|p|] == p then 0
    else
      var k := IndexOf(s[1..], p);
      assert !OccursAt(s, p, 0);
      forall j | 1 <= j
        ensures OccursAt(s, p, j) == OccursAt(s[1..], p, j - 1)
      {
        OccursShift(s, p, j - 1);
      }
      if k < 0 then -1 else k + 1
  }

  /** `s.contains(p)` */
  function Contains(s: string, p: string): (b: bool)
    ensures b <==> exists j :: OccursAt(s, p, j)
  {
    IndexOf(s, p) >= 0
  }

  /** `s.substring(b, e)`: throws unless `0 <= b <= e <= |s|`. */
  function Substring(s: string, b: int, e: int): (r: Result<string>)
    ensures r.Ok? <==> 0 <= b <= e <= |s|
    ensures r.Ok? ==> |r.value| == e - b && OccursAt(s, r.value, b)
    ensures r.Err? ==> r.error == StringIndexOutOfBounds
  {
    if 0 <= b <= e <= |s| then Ok(s[b..e]) else Err(StringIndexOutOfBounds)
  }

  /** `s.substring(b)`: throws unless `0 <= b <= |s|`. */
  function SubstringFrom(s: string, b: int): (r: Result<string>)
    ensures r.Ok? <==> 0 <= b <= |s|
    ensures r.Ok? ==> b + |r.value| == |s| && OccursAt(s, r.value, b)
    ensures r.Err? ==> r.error == StringIndexOutOfBounds
  {
    Substring(s, b, |s|)
  }

  /** `s.replace(p, "")`: every occurrence of `p`, found left to right without overlap, is
      deleted. Java leaves the string unchanged when `p` is empty. */
  function DeleteAll(s: string, p: string): (r: string)
    ensures |r| <= |s|
    ensures |p| == 0 ==> r == s
    decreases |s|
  {
    if |p| == 0 || |s| < |p| then s
    else if s[..|p|] == p then DeleteAll(s[|p|..], p)
    else [s[0]] + DeleteAll(s[1..], p)
  }

  /** Deleting text that does not occur changes nothing. */
  lemma {:induction false} DeleteAllWithoutMatch(s: string, p: string)
    requires forall j :: !OccursAt(s, p, j)
    ensures DeleteAll(s, p) == s
    decreases |s|
  {
    if |p| > 0 && |s| >= |p| {
      assert !OccursAt(s, p, 0);
      forall j ensures !OccursAt(s[1..], p, j) {
        if j >= 0 { OccursShift(s, p, j); }
      }
      DeleteAllWithoutMatch(s[1..], p);
    }
  }

  /** Deletion only removes characters. */
  lemma {:induction false} DeleteAllIsSubsequence(s: string, p: string)
    ensures IsSubsequence(DeleteAll(s, p), s)
    decreases |s|
  {
    if |p| == 0 || |s| < |p| {
      SubsequenceRefl(s);
    } else if s[..|p|] == p {
      DeleteAllIsSubsequence(s[|p|..], p);
      SubsequenceOfSuffix(DeleteAll(s[|p|..], p), s, |p|);
    } else {
      DeleteAllIsSubsequence(s[1..], p);
      var t := DeleteAll(s[1..], p);
      assert ([s[0]] + t)[1..] == t;
    }
  }

  lemma SubsequenceRefl(s: string)
    ensures IsSubsequence(s, s)
    decreases |s|
  {
    if s != [] {
      SubsequenceRefl(s[1..]);
    }
  }

  /** A subsequence of a suffix of `b` is a subsequence of `b`. */
  lemma SubsequenceOfSuffix(a: string, b: string, k: nat)
    requires k <= |b|
    requires IsSubsequence(a, b[k..])
    ensures IsSubsequence(a, b)
    decreases k
  {
    if k > 0 {
      assert b[1..][k - 1..] == b[k..];
      SubsequenceOfSuffix(a, b[1..], k - 1);
    }
  }

  lemma {:induction false} SubsequenceTrans(a: string, b: string, c: string)
    requires IsSubsequence(a, b) && IsSubsequence(b, c)
    ensures IsSubsequence(a, c)
    decreases |c|
  {
    if a != [] {
      if IsSubsequence(b, c[1..]) {
        SubsequenceTrans(a, b, c[1..]);
      } else if IsSubsequence(a, b[1..]) {
        SubsequenceTrans(a, b[1..], c[1..]);
      } else {
        SubsequenceTrans(a[1..], b[1..], c[1..]);
      }
    }
  }

  /** Deleting characters adds none. */
  lemma {:induction false} SubsequenceKeepsChars(a: string, b: string, c: char)
    requires IsSubsequence(a, b) && c in a
    ensures c in b
    decreases |b|
  {
    if a[0] == b[0] && IsSubsequence(a[1..], b[1..]) {
      if a[0] != c {
        assert c in a[1..];
        SubsequenceKeepsChars(a[1..], b[1..], c);
        assert c in b;
      }
    } else {
      SubsequenceKeepsChars(a, b[1..], c);
    }
  }

  /** Every prefix of `s` is a subsequence of `s`. */
  lemma {:induction false} PrefixIsSubsequence(s: string, j: nat)
    requires j <= |s|
    ensures IsSubsequence(s[..j], s)
    decreases |s|
  {
    if j == 0 {
    } else {
      PrefixIsSubsequence(s[1..], j - 1);
      assert s[..j][1..] == s[1..][..j - 1];
    }
  }

  /** Text found at some index of `s` is a subsequence of `s`. */
  lemma OccurrenceIsSubsequence(s: string, p: string, i: int)
    requires OccursAt(s, p, i)
    ensures IsSubsequence(p, s)
  {
    PrefixIsSubsequence(s[i..], |p|);
    assert s[i..][..|p|] == p;
    SubsequenceOfSuffix(p, s, i);
  }

  /** Without a match at the front, the first character is kept. */
  lemma DeleteAllKeepsFirst(s: string, p: string)
    requires s != [] && !OccursAt(s, p, 0)
    ensures DeleteAll(s, p) == [s[0]] + DeleteAll(s[1..], p)
  {
    if |s| < |p| {
      assert forall j :: !OccursAt(s[1..], p, j);
      DeleteAllWithoutMatch(s[1..], p);
    }
  }

  lemma NoMatchAfterDrop(x: string, y: string, p: string)
    requires x != []
    requires forall i :: 0 <= i < |x| ==> !OccursAt(x + y, p, i)
    ensures forall i :: 0 <= i < |x| - 1 ==> !OccursAt(x[1..] + y, p, i)
  {
    assert (x + y)[1..] == x[1..] + y;
    forall i | 0 <= i < |x| - 1 ensures !OccursAt(x[1..] + y, p, i) {
      OccursShift(x + y, p, i);
    }
  }

  /** When no occurrence of `p` starts inside `x`, deleting `p` from `x + y` leaves `x`
      untouched. */
  lemma {:induction false} DeleteAllSkipsPrefix(x: string, y: string, p: string)
    requires forall i :: 0 <= i < |x| ==> !OccursAt(x + y, p, i)
    ensures DeleteAll(x + y, p) == x + DeleteAll(y, p)
    decreases |x|
  {
    if x == [] {
      assert x + y == y;
    } else {
      NoMatchAfterDrop(x, y, p);
      DeleteAllSkipsPrefix(x[1..], y, p);
      var s := x + y;
      assert s[1..] == x[1..] + y;
      DeleteAllKeepsFirst(s, p);
      var d := DeleteAll(y, p);
      assert s[0] == x[0];
      assert x == [x[0]] + x[1..];
      assert [x[0]] + (x[1..] + d) == x + d;
    }
  }

  /** An occurrence of `p` at the very start is deleted, and deletion resumes after it. */
  lemma DeleteAllLeading(p: string, y: string)
    requires |p| > 0
    ensures DeleteAll(p + y, p) == DeleteAll(y, p)
  {
    assert (p + y)[..|p|] == p;
    assert (p + y)[|p|..] == y;
  }

  /** Deleting a single character removes exactly that character and commutes with
      concatenation. */
  lemma {:induction false} DeleteCharSplits(a: string, b: string, c: char)
    ensures DeleteAll(a + b, [c]) == DeleteAll(a, [c]) + DeleteAll(b, [c])
    decreases |a|
  {
    if a != [] {
      assert (a + b)[1..] == a[1..] + b;
      assert (a + b)[..1] == a[..1];
      DeleteCharSplits(a[1..], b, c);
      if a[0] == c {
        assert (a + b)[..|[c]|] == [c];
        assert DeleteAll(a + b, [c]) == DeleteAll(a[1..] + b, [c]);
      } else {
        assert DeleteAll(a + b, [c]) == [a[0]] + DeleteAll(a[1..] + b, [c]);
      }
    } else {
      assert a + b == b;
    }
  }

  /** After `s.replace(" ", "")` (or any single character) that character is gone. */
  lemma {:induction false} DeleteCharRemoves(s: string, c: char)
    ensures c !in DeleteAll(s, [c])
    decreases |s|
  {
    if s != [] {
      DeleteCharRemoves(s[1..], c);
    }
  }

  /** A pattern holding a character that `t` lacks occurs nowhere in `t`. */
  lemma ForeignCharBlocksOccurrence(t: string, p: string, k: int)
    requires 0 <= k < |p| && p[k] !in t
    ensures forall j :: !OccursAt(t, p, j)
  {
  }

  /** Deleting the prefix `p` from `p + t` leaves `t` when `p` does not recur in `t`. */
  lemma DeleteAllPrefixOnly(p: string, t: string)
    requires |p| > 0
    requires forall j :: !OccursAt(t, p, j)
    ensures DeleteAll(p + t, p) == t
  {
    DeleteAllLeading(p, t);
    DeleteAllWithoutMatch(t, p);
  }

  /** `\w` in java.util.regex without the Unicode flag: `[A-Za-z0-9_]`. */
  predicate IsWordChar(ch: char) {
    ('a' <= ch <= 'z') || ('A' <= ch <= 'Z') || ('0' <= ch <= '9') || ch == '_'
  }

  predicate AllWord(s: string) {
    forall i :: 0 <= i < |s| ==> IsWordChar(s[i])
  }

  /** `indexOf` finds an occurrence at `x` when none starts earlier. */
  lemma IndexOfFirst(s: string, p: string, x: int)
    requires OccursAt(s, p, x)
    requires forall i :: 0 <= i < x ==> !OccursAt(s, p, i)
    ensures IndexOf(s, p) == x
  {
  }

  /** Integer.MIN_VALUE and Integer.MAX_VALUE */
  const MinInt: int := -0x8000_0000
  const MaxInt: int := 0x7fff_ffff

  predicate IsDigit(c: char) {
    '0' <= c <= '9'
  }

  predicate AllDigits(s: string) {
    forall i :: 0 <= i < |s| ==> IsDigit(s[i])
  }

  /** The value of a string of decimal digits, most significant first. */
  function DigitsValue(s: string): nat
    requires AllDigits(s)
    decreases |s|
  {
    if |s| == 0 then 0
    else DigitsValue(s[..|s| - 1]) * 10 + (s[|s| - 1] as int - '0' as int)
  }

  /** `Integer.parseInt(s)`: an optional '-' or '+', then one or more ASCII decimal digits, the
      value within the 32-bit range; anything else throws NumberFormatException. */
  function ParseInt(s: string): (r: Result<int>)
    ensures r.Ok? ==> MinInt <= r.value <= MaxInt
    ensures r.Err? ==> r.error == NumberFormat
    ensures r.Ok? ==> |s| > 0 && AllDigits(s[1..])
    ensures r.Ok? ==> IsDigit(s[0]) || (|s| > 1 && (s[0] == '-' || s[0] == '+'))
    ensures r.Ok? && IsDigit(s[0]) ==> r.value == DigitsValue(s)
    ensures r.Ok? && s[0] == '-' ==> r.value == -(DigitsValue(s[1..]) as int)
  {
    if |s| == 0 then Err(NumberFormat)
    else
      var signed := s[0] == '-' || s[0] == '+';
      var digits := if signed then s[1..] else s;
      if |digits| == 0 || !AllDigits(digits) then Err(NumberFormat)
      else
        var v := DigitsValue(digits);
        var n: int := if s[0] == '-' then -(v as int) else v;
        if MinInt <= n <= MaxInt then Ok(n) else Err(NumberFormat)
  }

  /** `Integer.toString(n)` for a non-negative `n`: decimal digits without leading zeros. */
  function NatToString(n: nat): (s: string)
    decreases n
  {
    if n < 10 then [('0' as int + n) as char]
    else NatToString(n / 10) + [('0' as int + n % 10) as char]
  }

  /** `Integer.toString(n)` */
  function IntToString(n: int): string {
    if n < 0 then "-" + NatToString(-n) else NatToString(n)
  }

  lemma {:induction false} NatToStringDigits(n: nat)
    ensures |NatToString(n)| > 0 && AllDigits(NatToString(n))
    ensures DigitsValue(NatToString(n)) == n
    decreases n
  {
    var s := NatToString(n);
    if n >= 10 {
      NatToStringDigits(n / 10);
      assert s[..|s| - 1] == NatToString(n / 10);
    }
  }

  /** Integer.parseInt reads back every value Integer.toString writes. */
  lemma ParseIntToString(n: int)
    requires MinInt <= n <= MaxInt
    ensures ParseInt(IntToString(n)) == Ok(n)
  {
    var s := IntToString(n);
    if n < 0 {
      var d := NatToString(-n);
      NatToStringDigits(-n);
      assert s == "-" + d;
      assert s[0] == '-';
      assert s[1..] == d;
    } else {
      NatToStringDigits(n);
      assert IsDigit(s[0]);
    }
  }

  /** `s` with every trailing '/' removed, as java.io.File normalises a path. */
  function StripTrailingSlashes(s: string): (r: string)
    ensures |r| <= |s| && r == s[..|r|]
    ensures r == [] || r[|r| - 1] != '/'
    decreases |s|
  {
    if s != [] && s[|s| - 1] == '/' then StripTrailingSlashes(s[..|s| - 1]) else s
  }

  /** The text after the last '/' of `s`. */
  function AfterLastSlash(s: string): (r: string)
    ensures '/' !in r
    ensures EndsWith(s, r)
    ensures |r| < |s| ==> s[|s| - |r| - 1] == '/'
    decreases |s|
  {
    if s == [] || s[|s| - 1] == '/' then []
    else
      var t := s[..|s| - 1];
      var q := AfterLastSlash(t);
      var r := q + [s[|s| - 1]];
      assert s[|s| - |r|..] == t[|t| - |q|..] + [s[|s| - 1]];
      assert |r| < |s| ==> s[|s| - |r| - 1] == t[|t| - |q| - 1];
      r
  }

  /** `new File(path).getName()` on a Unix path: the last name of the normalised path. */
  function FileName(path: string): string {
    AfterLastSlash(StripTrailingSlashes(path))
  }

  lemma {:induction false} AfterLastSlashOfChild(dir: string, name: string)
    requires '/' !in name
    ensures AfterLastSlash(dir + "/" + name) == name
    decreases |name|
  {
    var s := dir + "/" + name;
    if name == [] {
      assert s[|s| - 1] == '/';
    } else {
      var init := name[..|name| - 1];
      assert s[..|s| - 1] == dir + "/" + init;
      assert s[|s| - 1] == name[|name| - 1];
      AfterLastSlashOfChild(dir, init);
      assert init + [name[|name| - 1]] == name;
    }
  }

  /** The name of `dir/name` and of `dir/name/` is `name`, for any directory part. */
  lemma FileNameOfChild(dir: string, name: string)
    requires name != [] && '/' !in name
    ensures FileName(dir + "/" + name) == name
    ensures FileName(dir + "/" + name + "/") == name
  {
    var s := dir + "/" + name;
    assert s[|s| - 1] == name[|name| - 1];
    AfterLastSlashOfChild(dir, name);
    var t := s + "/";
    assert t[..|t| - 1] == s;
  }
}
