/** A file or directory on a device, known only by its path. Whether it is a file is decided
    by the path's suffix, `\.\w+$`, and the extension and name are cut out of the path with
    `String.split` and `String.replace`. The three anchored patterns the class uses are
    written here as character predicates: each matches one separator character followed by
    a run of word characters (`[A-Za-z0-9_]`) reaching the end of the path. */
module AndroidFiles {
  import opened Wrappers
  import opened JavaText
  import opened Commands

  /** The pattern "`sep` then `\w+` then end of input" matches `s` at index `i`. */
  ghost predicate SepWordAt(s: string, sep: char, i: int) {
    0 <= i && i + 1 < |s| && s[i] == sep && forall j :: i < j < |s| ==> IsWordChar(s[j])
  }

  /** Length of the longest run of word characters that ends `s`. */
  function TrailingWordLength(s: string): (k: nat)
    ensures k <= |s|
    ensures forall j :: |s| - k <= j < |s| ==> IsWordChar(s[j])
    ensures k < |s| ==> !IsWordChar(s[|s| - k - 1])
    decreases |s|
  {
    if s == [] || !IsWordChar(s[|s| - 1]) then 0
    else
      var k := 1 + TrailingWordLength(s[..|s| - 1]);
      assert forall j :: |s| - k <= j < |s| - 1 ==> s[j] == s[..|s| - 1][j];
      k
  }

  /** Where `Matcher.find` locates "`sep` then `\w+` then end": the match, when there is
      one, is unique, because the word run after it cannot hold another separator. */
  function SuffixMatch(s: string, sep: char): (r: Option<nat>)
    requires !IsWordChar(sep)
    ensures r.Some? ==> SepWordAt(s, sep, r.value)
    ensures r.Some? ==> forall i :: SepWordAt(s, sep, i) ==> i == r.value
    ensures r.None? ==> forall i :: !SepWordAt(s, sep, i)
  {
    var k := TrailingWordLength(s);
    if 0 < k < |s| && s[|s| - k - 1] == sep then Some(|s| - k - 1) else None
  }

  /** `s.split(regex)[0]` for a pattern whose only possible match, if any, starts at `m`
      and runs to the end. Without a match the array is `{s}`. A match at index 0 leaves
      only empty strings, which `split` drops, so indexing the empty array throws. */
  function SplitHead(s: string, m: Option<nat>): (r: Result<string>)
    requires m.Some? ==> m.value <= |s|
    ensures m.None? ==> r == Ok(s)
    ensures m == Some(0) ==> r == Err(ArrayIndexOutOfBounds)
    ensures m.Some? && m.value > 0 ==> r == Ok(s[..m.value])
  {
    match m
    case None => Ok(s)
    case Some(i) => if i == 0 then Err(ArrayIndexOutOfBounds) else Ok(s[..i])
  }

  /** An `AndroidFile`: the path, and the extension the constructor computed (null when
      the path does not look like a file). */
  datatype AndroidFile = AndroidFile(pathToFile: string, fileExtension: Option<string>)

  /** The constructor: when `\.\w+$` is found, the extension is the path with every
      occurrence of the text before the dot deleted. A path that is only a dot and word
      characters (".apk") makes `split` return an empty array and the constructor throws. */
  function NewAndroidFile(path: string): (r: Result<AndroidFile>)
    ensures r.Err? <==> SepWordAt(path, '.', 0)
    ensures r.Err? ==> r.error == ArrayIndexOutOfBounds
    ensures r.Ok? ==> r.value.pathToFile == path
    ensures r.Ok? ==> (r.value.fileExtension.Some? <==> exists i :: SepWordAt(path, '.', i))
  {
    match SuffixMatch(path, '.')
    case None => Ok(AndroidFile(path, None))
    case Some(d) =>
      var stem :- SplitHead(path, Some(d));
      Ok(AndroidFile(path, Some(DeleteAll(path, stem))))
  }

  /** `isFile`: the path ends with a dot and one or more word characters. */
  function IsFile(f: AndroidFile): (b: bool)
    ensures b <==> exists i :: SepWordAt(f.pathToFile, '.', i)
  {
    SuffixMatch(f.pathToFile, '.').Some?
  }

  /** `isDir`: exactly the paths that do not end with a dot and word characters. */
  function IsDir(f: AndroidFile): (b: bool)
    ensures b <==> forall i :: !SepWordAt(f.pathToFile, '.', i)
  {
    !IsFile(f)
  }

  /** `getExtension`: the stored extension for a file, null for a directory. */
  function GetExtension(f: AndroidFile): (r: Option<string>)
    ensures r.Some? ==> exists i :: SepWordAt(f.pathToFile, '.', i)
    ensures (forall i :: !SepWordAt(f.pathToFile, '.', i)) ==> r.None?
    ensures IsFile(f) ==> r == f.fileExtension
  {
    if IsFile(f) then f.fileExtension else None
  }

  /** Where `\w+\.\w+$` starts, given the unique match `d` of `\.\w+$`: at the start of the
      word run ending just before the dot, or nowhere when that run is empty. */
  function NameStart(s: string, d: nat): (r: Option<nat>)
    requires SepWordAt(s, '.', d)
    ensures r.Some? ==> r.value < d && (forall j :: r.value <= j < d ==> IsWordChar(s[j]))
    ensures r.Some? ==> r.value == 0 || !IsWordChar(s[r.value - 1])
    ensures r.None? ==> d == 0 || !IsWordChar(s[d - 1])
  {
    var m := TrailingWordLength(s[..d]);
    assert forall j :: d - m <= j < d ==> s[j] == s[..d][j];
    if m > 0 then Some(d - m) else None
  }

  /** Where `\/\w+\/$` matches: a path ending with '/' whose last name is all word
      characters. */
  function SlashedNameMatch(s: string): (r: Option<nat>)
    ensures r.Some? ==> s != [] && s[|s| - 1] == '/' && SepWordAt(s[..|s| - 1], '/', r.value)
    ensures (s == [] || s[|s| - 1] != '/') ==> r.None?
  {
    if s != [] && s[|s| - 1] == '/' then SuffixMatch(s[..|s| - 1], '/') else None
  }

  /** `getFileName`, as written. A file keeps what `\w+\.\w+$` matched once the text
      before it is deleted everywhere; a directory drops the text before its last name,
      then every '/'. A path with no usable match is deleted entirely, giving "". */
  function GetFileName(f: AndroidFile): (r: Result<string>)
    ensures r.Err? ==> r.error == ArrayIndexOutOfBounds
    ensures r.Ok? && IsDir(f) ==> '/' !in r.value
    ensures r.Ok? ==> |r.value| <= |f.pathToFile|
  {
    var s := f.pathToFile;
    match SuffixMatch(s, '.')
    case Some(d) =>
      var stem :- SplitHead(s, NameStart(s, d));
      Ok(DeleteAll(s, stem))
    case None =>
      var m := SuffixMatch(s, '/');
      var parent :- SplitHead(s, if m.Some? then m else SlashedNameMatch(s));
      var r := DeleteAll(DeleteAll(s, parent), "/");
      DeleteCharRemoves(DeleteAll(s, parent), '/');
      Ok(r)
  }

  /** `exists`: false exactly when some line of the listing carries one of the two
      not-found markers; an empty listing counts as existing. */
  function Exists(listing: seq<string>): (b: bool)
    ensures b <==> forall i :: 0 <= i < |listing| ==>
                      !Contains(listing[i], NoSuchFileMarker) && !Contains(listing[i], NotFoundMarker)
  {
    !AnyLineContains(listing, NoSuchFileMarker) && !AnyLineContains(listing, NotFoundMarker)
  }

  /** `toString` */
  function ToString(f: AndroidFile): string {
    f.pathToFile
  }

  // ---------------------------------------------------------------------------------------
  // Properties

  /** A constructed file prints as the path it was built from. */
  lemma ToStringGivesPath(path: string)
    requires NewAndroidFile(path).Ok?
    ensures ToString(NewAndroidFile(path).value) == path
  {
  }

  /** `isDir` is the negation of `isFile` on every value. */
  lemma DirIsNotFile(f: AndroidFile)
    ensures IsDir(f) != IsFile(f)
  {
  }

  /** The regex helpers on a concrete shape: `stem.ext`, where `ext` is word characters. */
  lemma DotSuffixOf(stem: string, ext: string)
    requires ext != [] && AllWord(ext)
    ensures SuffixMatch(stem + "." + ext, '.') == Some(|stem|)
  {
    var s := stem + "." + ext;
    assert forall j :: |stem| < j < |s| ==> s[j] == ext[j - |stem| - 1];
    assert SepWordAt(s, '.', |stem|);
  }

  lemma SlashSuffixOf(dir: string, name: string)
    requires name != [] && AllWord(name)
    ensures SuffixMatch(dir + "/" + name, '/') == Some(|dir|)
    ensures SuffixMatch(dir + "/" + name, '.') == None
  {
    var s := dir + "/" + name;
    assert forall j :: |dir| < j < |s| ==> s[j] == name[j - |dir| - 1];
    assert SepWordAt(s, '/', |dir|);
    assert !SepWordAt(s, '.', |dir|);
  }

  /** The extension of `stem.ext` is `.ext` whenever the stem does not recur in it; a '/'
      anywhere in the stem is enough, since `.ext` holds none. */
  lemma ExtensionOfFile(stem: string, ext: string)
    requires ext != [] && AllWord(ext)
    requires stem != [] && forall j :: !OccursAt("." + ext, stem, j)
    ensures NewAndroidFile(stem + "." + ext).Ok?
    ensures GetExtension(NewAndroidFile(stem + "." + ext).value) == Some("." + ext)
  {
    var s := stem + "." + ext;
    DotSuffixOf(stem, ext);
    assert s[..|stem|] == stem;
    assert s == stem + ("." + ext);
    DeleteAllPrefixOnly(stem, "." + ext);
  }

  lemma ExtensionUnderDirectory(stem: string, ext: string, k: nat)
    requires ext != [] && AllWord(ext)
    requires k < |stem| && stem[k] == '/'
    ensures NewAndroidFile(stem + "." + ext).Ok?
    ensures GetExtension(NewAndroidFile(stem + "." + ext).value) == Some("." + ext)
  {
    assert '/' !in "." + ext by {
      assert forall j :: 0 < j < |"." + ext| ==> ("." + ext)[j] == ext[j - 1];
    }
    ForeignCharBlocksOccurrence("." + ext, stem, k);
    ExtensionOfFile(stem, ext);
  }

  /** A directory `getExtension` answers null. */
  lemma NoExtensionForDirectory(dir: string, name: string)
    requires name != [] && AllWord(name)
    ensures NewAndroidFile(dir + "/" + name) == Ok(AndroidFile(dir + "/" + name, None))
    ensures GetExtension(NewAndroidFile(dir + "/" + name).value) == None
  {
    SlashSuffixOf(dir, name);
  }

  /** Word characters hold neither separator. */
  lemma WordsHoldNoSeparator(w: string)
    requires AllWord(w)
    ensures '/' !in w && '.' !in w
  {
    assert !IsWordChar('/') && !IsWordChar('.');
  }

  /** `getFileName` of `parent + base.ext`, where `parent` ends with a non-word character
      and holds a '/', is `base.ext`: the stem deleted is exactly `parent`. */
  lemma FileNameAfterParent(parent: string, base: string, ext: string, k: nat)
    requires base != [] && AllWord(base) && ext != [] && AllWord(ext)
    requires parent != [] && !IsWordChar(parent[|parent| - 1])
    requires k < |parent| && parent[k] == '/'
    ensures NewAndroidFile(parent + base + "." + ext).Ok?
    ensures GetFileName(NewAndroidFile(parent + base + "." + ext).value) == Ok(base + "." + ext)
  {
    var stem := parent + base;
    var s := stem + "." + ext;
    var name := base + "." + ext;
    DotSuffixOf(stem, ext);
    assert SepWordAt(s, '.', |stem|);
    assert forall j :: |parent| <= j < |stem| ==> s[j] == base[j - |parent|];
    assert s[|parent| - 1] == parent[|parent| - 1];
    assert NameStart(s, |stem|) == Some(|parent|);
    assert s[..|parent|] == parent;
    assert s == parent + name;
    WordsHoldNoSeparator(base);
    WordsHoldNoSeparator(ext);
    assert '/' !in name;
    ForeignCharBlocksOccurrence(name, parent, k);
    DeleteAllPrefixOnly(parent, name);
  }

  /** `getFileName` of `dir/base.ext` with a one-dot name is `base.ext`. */
  lemma FileNameOfFile(dir: string, base: string, ext: string)
    requires base != [] && AllWord(base) && ext != [] && AllWord(ext)
    ensures NewAndroidFile(dir + "/" + base + "." + ext).Ok?
    ensures GetFileName(NewAndroidFile(dir + "/" + base + "." + ext).value) == Ok(base + "." + ext)
  {
    FileNameAfterParent(dir + "/", base, ext, |dir|);
  }

  /** `getFileName` of a directory `dir/name` is `name` whenever `dir` does not recur in
      `/name`. */
  lemma FileNameOfDirectory(dir: string, name: string)
    requires name != [] && AllWord(name) && dir != []
    requires forall j :: !OccursAt("/" + name, dir, j)
    ensures GetFileName(AndroidFile(dir + "/" + name, None)) == Ok(name)
  {
    var s := dir + "/" + name;
    SlashSuffixOf(dir, name);
    assert s[..|dir|] == dir;
    assert s == dir + ("/" + name);
    DeleteAllPrefixOnly(dir, "/" + name);
    SlashesDeleted(name);
  }

  /** `getFileName` of a directory written with a trailing slash, `dir/name/`. */
  lemma FileNameOfSlashedDirectory(dir: string, name: string)
    requires name != [] && AllWord(name) && dir != []
    requires forall j :: !OccursAt("/" + name + "/", dir, j)
    ensures GetFileName(AndroidFile(dir + "/" + name + "/", None)) == Ok(name)
  {
    var s := dir + "/" + name + "/";
    SlashSuffixOf(dir, name);
    assert s[..|s| - 1] == dir + "/" + name;
    assert s[|s| - 1] == '/';
    assert SuffixMatch(s, '/') == None by {
      assert TrailingWordLength(s) == 0;
    }
    assert SuffixMatch(s, '.') == None by {
      assert TrailingWordLength(s) == 0;
    }
    assert SlashedNameMatch(s) == Some(|dir|);
    assert s[..|dir|] == dir;
    assert SplitHead(s, SlashedNameMatch(s)) == Ok(dir);
    assert s == dir + ("/" + name + "/");
    DeleteAllPrefixOnly(dir, "/" + name + "/");
    SlashesDeleted(name);
    DeleteCharSplits("/" + name, "/", '/');
    assert DeleteAll("/", "/") == [];
    assert DeleteAll("/" + name + "/", "/") == name;
  }

  lemma SlashesDeleted(name: string)
    requires AllWord(name)
    ensures DeleteAll("/" + name, "/") == name
  {
    assert '/' !in name by {
      assert !IsWordChar('/');
    }
    ForeignCharBlocksOccurrence(name, "/", 0);
    DeleteAllPrefixOnly("/", name);
  }

  /** The documented example `/a/b/c.txt`, named `c.txt`. */
  lemma FileNameExample()
    ensures GetFileName(NewAndroidFile("/a/b/c.txt").value) == Ok("c.txt")
  {
    assert AllWord("c") && AllWord("txt");
    ExampleFileSpelled();
    FileNameOfFile("/a/b", "c", "txt");
  }

  lemma ExampleFileSpelled()
    ensures "/a/b" + "/" + "c" + "." + "txt" == "/a/b/c.txt"
    ensures "c" + "." + "txt" == "c.txt"
  {
  }

  /** The documented examples `/a/b/c` and `/a/b/c/`, both named `c`. */
  lemma DirectoryNameExamples()
    ensures GetFileName(NewAndroidFile("/a/b/c").value) == Ok("c")
    ensures GetFileName(NewAndroidFile("/a/b/c/").value) == Ok("c")
  {
    assert AllWord("c");
    NoExtensionForDirectory("/a/b", "c");
    FileNameOfDirectory("/a/b", "c");
    assert "/a/b" + "/" + "c" == "/a/b/c";
    FileNameOfSlashedDirectory("/a/b", "c");
    assert "/a/b" + "/" + "c" + "/" == "/a/b/c/";
    var t := "/a/b/c/";
    assert TrailingWordLength(t) == 0 by {
      assert !IsWordChar(t[|t| - 1]);
    }
    assert NewAndroidFile(t) == Ok(AndroidFile(t, None));
  }

  /** The documented example `/sdcard/app.apk`, with extension `.apk`. */
  lemma ExtensionExample()
    ensures GetExtension(NewAndroidFile("/sdcard/app.apk").value) == Some(".apk")
  {
    var stem, ext := "/sdcard/app", "apk";
    assert AllWord(ext) by {
      assert forall i :: 0 <= i < |ext| ==> IsWordChar(ext[i]);
    }
    ExtensionUnderDirectory(stem, ext, 0);
    assert stem + "." + ext == "/sdcard/app.apk";
    assert "." + ext == ".apk";
  }

  // ---------------------------------------------------------------------------------------
  // Where `getFileName` and the constructor go wrong, and the names they evidently mean.

  /** The name `java.io.File` gives the same path: the last name, trailing '/' ignored. */
  function IntendedFileName(f: AndroidFile): (r: string)
    ensures '/' !in r
    ensures EndsWith(StripTrailingSlashes(f.pathToFile), r)
  {
    FileName(f.pathToFile)
  }

  /** The intended name of `dir/name` and `dir/name/` is `name`, whatever dots `name`
      holds and whether or not `dir` recurs in it. */
  lemma IntendedFileNameOfChild(dir: string, name: string)
    requires name != [] && '/' !in name
    ensures IntendedFileName(AndroidFile(dir + "/" + name, None)) == name
    ensures forall e :: IntendedFileName(AndroidFile(dir + "/" + name, e)) == name
    ensures IntendedFileName(AndroidFile(dir + "/" + name + "/", None)) == name
  {
    FileNameOfChild(dir, name);
  }

  /** A path with no '/' at all is its own intended name. */
  lemma IntendedFileNameOfBareName(name: string)
    requires name != [] && '/' !in name
    ensures forall e :: IntendedFileName(AndroidFile(name, e)) == name
  {
  }

  /** As written, a file name with two dots loses everything up to the first: the stem
      `dir/a.` is deleted and only `b.c` remains, where `java.io.File` says `a.b.c`. */
  lemma FileNameDropsEarlierDots(dir: string, a: string, b: string, c: string)
    requires a != [] && AllWord(a) && b != [] && AllWord(b) && c != [] && AllWord(c)
    ensures NewAndroidFile(dir + "/" + a + "." + b + "." + c).Ok?
    ensures GetFileName(NewAndroidFile(dir + "/" + a + "." + b + "." + c).value) == Ok(b + "." + c)
    ensures IntendedFileName(NewAndroidFile(dir + "/" + a + "." + b + "." + c).value) == a + "." + b + "." + c
  {
    var parent := dir + "/" + a + ".";
    assert parent[|dir|] == '/';
    FileNameAfterParent(parent, b, c, |dir|);
    var full := a + "." + b + "." + c;
    TwoDotsRegrouped(dir, a, b, c);
    WordsHoldNoSeparator(a);
    WordsHoldNoSeparator(b);
    WordsHoldNoSeparator(c);
    IntendedFileNameOfChild(dir, full);
  }

  lemma TwoDotsRegrouped(dir: string, a: string, b: string, c: string)
    ensures (dir + "/" + a + ".") + b + "." + c == dir + "/" + a + "." + b + "." + c
    ensures dir + "/" + a + "." + b + "." + c == dir + "/" + (a + "." + b + "." + c)
  {
  }

  lemma ArchiveSpelled()
    ensures "/sdcard" + "/" + "archive" + "." + "tar" + "." + "gz" == "/sdcard/archive.tar.gz"
    ensures "tar" + "." + "gz" == "tar.gz"
    ensures "archive" + "." + "tar" + "." + "gz" == "archive.tar.gz"
  {
  }

  lemma ArchiveWords()
    ensures AllWord("archive") && AllWord("tar") && AllWord("gz")
  {
    var a, b, c := "archive", "tar", "gz";
    assert forall i :: 0 <= i < |a| ==> IsWordChar(a[i]);
    assert forall i :: 0 <= i < |b| ==> IsWordChar(b[i]);
    assert forall i :: 0 <= i < |c| ==> IsWordChar(c[i]);
  }

  /** The input that shows it: `/sdcard/archive.tar.gz` is named `tar.gz`. */
  lemma ArchiveNameTruncated()
    ensures GetFileName(NewAndroidFile("/sdcard/archive.tar.gz").value) == Ok("tar.gz")
    ensures IntendedFileName(NewAndroidFile("/sdcard/archive.tar.gz").value) == "archive.tar.gz"
  {
    ArchiveWords();
    ArchiveSpelled();
    FileNameDropsEarlierDots("/sdcard", "archive", "tar", "gz");
  }

  lemma RecurringParentSpelled()
    ensures "/a" + "/" + "ab" == "/a/ab" && "/a" + "/ab" == "/a/ab" && "/a" + "b" == "/ab"
    ensures "/a/ab"[..2] == "/a"
  {
  }

  lemma SingleLetterKept()
    ensures DeleteAll("b", "/a") == "b" && DeleteAll("b", "/") == "b"
  {
  }

  /** As written, a directory whose parent path recurs in its own name loses that part
      too: `/a/ab` deletes "/a" twice and is named `b`, where `java.io.File` says `ab`. */
  lemma DirectoryNameLosesRecurringParent()
    ensures NewAndroidFile("/a/ab") == Ok(AndroidFile("/a/ab", None))
    ensures GetFileName(AndroidFile("/a/ab", None)) == Ok("b")
    ensures IntendedFileName(AndroidFile("/a/ab", None)) == "ab"
  {
    assert AllWord("ab");
    RecurringParentSpelled();
    SlashSuffixOf("/a", "ab");
    DeleteAllLeading("/a", "/ab");
    DeleteAllLeading("/a", "b");
    SingleLetterKept();
    IntendedFileNameOfChild("/a", "ab");
  }

  /** As written, a file with no directory part, `base.ext`, has a file name match at index
      0, so `split` yields an empty array and `getFileName` throws; a directory `/name`
      directly under the root throws the same way. `java.io.File` names them `base.ext`
      and `name`. */
  lemma FileNameWithoutParentThrows(base: string, ext: string)
    requires base != [] && AllWord(base) && ext != [] && AllWord(ext)
    ensures NewAndroidFile(base + "." + ext).Ok?
    ensures GetFileName(NewAndroidFile(base + "." + ext).value) == Err(ArrayIndexOutOfBounds)
    ensures IntendedFileName(NewAndroidFile(base + "." + ext).value) == base + "." + ext
    ensures GetFileName(AndroidFile("/" + base, None)) == Err(ArrayIndexOutOfBounds)
    ensures IntendedFileName(AndroidFile("/" + base, None)) == base
  {
    var s := base + "." + ext;
    DotSuffixOf(base, ext);
    assert !SepWordAt(s, '.', 0);
    assert forall j :: 0 <= j < |base| ==> s[j] == base[j];
    assert NameStart(s, |base|) == Some(0);
    assert '/' !in s by {
      assert !IsWordChar('/');
      assert forall j :: |base| < j < |s| ==> s[j] == ext[j - |base| - 1];
    }
    IntendedFileNameOfBareName(s);
    SlashSuffixOf([], base);
    assert [] + "/" + base == "/" + base;
    assert '/' !in base by {
      assert !IsWordChar('/');
    }
    IntendedFileNameOfChild([], base);
  }

  /** The input that shows it: `c.txt`. */
  lemma BareFileNameThrows()
    ensures GetFileName(NewAndroidFile("c.txt").value) == Err(ArrayIndexOutOfBounds)
    ensures IntendedFileName(NewAndroidFile("c.txt").value) == "c.txt"
  {
    assert AllWord("c") && AllWord("txt");
    ExampleFileSpelled();
    FileNameWithoutParentThrows("c", "txt");
  }

  /** The extension evidently meant: the suffix from the dot `\.\w+$` matched. */
  function IntendedExtension(f: AndroidFile): (r: Option<string>)
    ensures r.Some? <==> exists i :: SepWordAt(f.pathToFile, '.', i)
    ensures r.Some? ==> EndsWith(f.pathToFile, r.value) && |r.value| >= 2 && r.value[0] == '.'
  {
    match SuffixMatch(f.pathToFile, '.')
    case None => None
    case Some(d) => Some(f.pathToFile[d..])
  }

  /** The intended extension of `stem.ext` is `.ext` for every stem, and the constructor
      computes the same whenever the stem does not recur in `.ext`. */
  lemma IntendedExtensionOfFile(stem: string, ext: string)
    requires ext != [] && AllWord(ext)
    ensures forall e :: IntendedExtension(AndroidFile(stem + "." + ext, e)) == Some("." + ext)
    ensures stem != [] && (forall j :: !OccursAt("." + ext, stem, j)) ==>
              GetExtension(NewAndroidFile(stem + "." + ext).value) == IntendedExtension(NewAndroidFile(stem + "." + ext).value)
  {
    DotSuffixOf(stem, ext);
    assert (stem + "." + ext)[|stem|..] == "." + ext;
    if stem != [] && (forall j :: !OccursAt("." + ext, stem, j)) {
      ExtensionOfFile(stem, ext);
    }
  }

  /** As written, a stem that recurs after the dot is deleted there as well: `a.a` gets the
      extension `.` where `.a` is meant. */
  lemma ExtensionLosesRecurringStem()
    ensures NewAndroidFile("a.a") == Ok(AndroidFile("a.a", Some(".")))
    ensures GetExtension(NewAndroidFile("a.a").value) == Some(".")
    ensures IntendedExtension(NewAndroidFile("a.a").value) == Some(".a")
  {
    var stem, ext := "a", "a";
    assert AllWord(ext);
    DotSuffixOf(stem, ext);
    var s := stem + "." + ext;
    assert s == "a.a";
    assert s[..1] == stem;
    DeleteAllLeading(stem, ".a");
    assert stem + ".a" == s;
    assert DeleteAll(".a", stem) == "." + DeleteAll("a", stem);
    DeleteAllLeading(stem, []);
    assert stem + [] == "a";
    assert DeleteAll([], stem) == [];
    assert DeleteAll(s, stem) == ".";
    assert SplitHead(s, Some(1)) == Ok(stem);
    assert NewAndroidFile(s) == Ok(AndroidFile(s, Some(DeleteAll(s, stem))));
    assert s[1..] == ".a";
  }
}
