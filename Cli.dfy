/**
 * The command-line front end (src/photodate_wm/cli.py): extension
 * normalisation and filtering, the candidate-file enumeration over a
 * directory walk, the `--include-ext` list, and the dry-run report and
 * exit code of `main`.
 *
 * The file system is an input: what `isfile`/`isdir` say of the root path
 * (`PathKind`), the entries `os.walk` yields in order (`WalkEntry`), the
 * `abspath` function, and for each file what `extract_photo_date_string`
 * reads from it (`ExifUtils.PhotoFacts`). Output streams are returned as
 * sequences of lines.
 */
module Cli {
  import opened Wrappers
  import opened Strings
  import Paths
  import ExifUtils

  const SupportedExtensions: set<string> := {".jpg", ".jpeg", ".png", ".tif", ".tiff", ".heic", ".heif"}

  // ---------------------------------------------------------------------
  // Extensions

  /** `ext.lower() if ext.startswith(".") else f".{ext.lower()}"` */
  function NormalizeExt(ext: string): (r: string)
    ensures |r| >= 1 && r[0] == '.'
    ensures IsLowerAscii(r)
    ensures r[1..] == Lower(if |ext| > 0 && ext[0] == '.' then ext[1..] else ext)
  {
    if |ext| > 0 && ext[0] == '.' then
      assert ext == [ext[0]] + ext[1..];
      LowerAppend([ext[0]], ext[1..]);
      Lower(ext)
    else "." + Lower(ext)
  }

  /** A normalised extension: a leading dot and no upper-case letter. */
  predicate IsNormalExt(e: string) {
    |e| >= 1 && e[0] == '.' && IsLowerAscii(e)
  }

  /** Normalising is idempotent: a normalised extension is its own
      normal form. */
  lemma NormalizeNormal(e: string)
    requires IsNormalExt(e)
    ensures NormalizeExt(e) == e
  {
    LowerOfLower(e);
  }

  /** "JPG", ".jpg" and ".JPG" all normalise to ".jpg". */
  lemma NormalizeExamples()
    ensures NormalizeExt("JPG") == ".jpg"
    ensures NormalizeExt(".jpg") == ".jpg"
    ensures NormalizeExt(".JPG") == ".jpg"
  {
    assert Lower("JPG") == "jpg";
    assert Lower(".jpg") == ".jpg";
    assert Lower(".JPG") == ".jpg";
  }

  /** `valid_ext`: the set of normal forms of the requested extensions. */
  function ValidExt(includeExt: seq<string>): (r: set<string>)
    ensures forall e :: e in r ==> IsNormalExt(e)
    ensures r == {} <==> includeExt == []
  {
    var r := set i | 0 <= i < |includeExt| :: NormalizeExt(includeExt[i]);
    assert includeExt != [] ==> NormalizeExt(includeExt[0]) in r;
    r
  }

  /** The filter set holds exactly the normal forms of the requested
      extensions. */
  lemma ValidExtMembers(includeExt: seq<string>, e: string)
    ensures e in ValidExt(includeExt) <==> exists i :: 0 <= i < |includeExt| && NormalizeExt(includeExt[i]) == e
  {
  }

  /** `not valid_ext or os.path.splitext(name)[1].lower() in valid_ext` */
  predicate Accepts(validExt: set<string>, name: string) {
    validExt == {} || Lower(Paths.Ext(name)) in validExt
  }

  /** An empty filter accepts every name. */
  lemma EmptyFilterAcceptsAll(name: string)
    ensures Accepts(ValidExt([]), name)
  {
  }

  /** A file is accepted by a non-empty filter iff its lower-cased extension
      is the normal form of one of the requested extensions. */
  lemma AcceptsIff(includeExt: seq<string>, name: string)
    requires includeExt != []
    ensures Accepts(ValidExt(includeExt), name) <==>
      exists i :: 0 <= i < |includeExt| && NormalizeExt(includeExt[i]) == Lower(Paths.Ext(name))
  {
    ValidExtMembers(includeExt, Lower(Paths.Ext(name)));
  }

  // ---------------------------------------------------------------------
  // The --include-ext list

  /** The pieces of a comma list, stripped, with the empty ones dropped. */
  function StrippedPieces(pieces: seq<string>): (r: seq<string>)
    ensures |r| <= |pieces|
    ensures forall i :: 0 <= i < |r| ==> r[i] != [] && IsStripped(r[i])
  {
    if pieces == [] then []
    else
      var t := Strip(pieces[0]);
      var rest := StrippedPieces(pieces[1..]);
      if t != [] then [t] + rest else rest
  }

  /** The kept pieces are exactly the non-empty stripped pieces. */
  lemma {:induction false} StrippedPiecesMembers(pieces: seq<string>, x: string)
    ensures x in StrippedPieces(pieces) <==>
      x != [] && exists j :: 0 <= j < |pieces| && Strip(pieces[j]) == x
  {
    if pieces != [] {
      var t := Strip(pieces[0]);
      var tail := pieces[1..];
      var rest := StrippedPieces(tail);
      StrippedPiecesMembers(tail, x);
      assert StrippedPieces(pieces) == if t != [] then [t] + rest else rest;
      if x in StrippedPieces(pieces) {
        if x in rest {
          var j :| 0 <= j < |tail| && Strip(tail[j]) == x;
          assert Strip(pieces[j + 1]) == x;
        } else {
          assert Strip(pieces[0]) == x;
        }
      }
      if x != [] && exists j :: 0 <= j < |pieces| && Strip(pieces[j]) == x {
        var j :| 0 <= j < |pieces| && Strip(pieces[j]) == x;
        if j == 0 {
          assert x == t;
        } else {
          assert tail[j - 1] == pieces[j];
          assert x in rest;
        }
      }
    }
  }

  lemma StripKeepsOut(s: string, c: char)
    requires c !in s
    ensures c !in Strip(s)
  {
    var n := LeadingSpaces(s);
    var r := Strip(s);
    forall k | 0 <= k < |r| ensures r[k] != c {
      assert r[k] == s[n + k];
    }
  }

  /** `[e.strip() for e in include_ext.split(",") if e.strip()]` */
  function ParseIncludeExt(s: string): (r: seq<string>)
    ensures forall i :: 0 <= i < |r| ==> r[i] != [] && IsStripped(r[i]) && ',' !in r[i]
  {
    var pieces := Split(s, ',');
    var r := StrippedPieces(pieces);
    assert forall i :: 0 <= i < |r| ==> ',' !in r[i] by {
      forall i | 0 <= i < |r| ensures ',' !in r[i] {
        StrippedPiecesMembers(pieces, r[i]);
        var j :| 0 <= j < |pieces| && Strip(pieces[j]) == r[i];
        StripKeepsOut(pieces[j], ',');
      }
    }
    r
  }

  /** Pieces that are already stripped and non-empty pass through. */
  lemma {:induction false} StrippedPiecesOfClean(xs: seq<string>)
    requires forall i :: 0 <= i < |xs| ==> xs[i] != [] && IsStripped(xs[i])
    ensures StrippedPieces(xs) == xs
  {
    if xs != [] {
      StripOfStripped(xs[0]);
      StrippedPiecesOfClean(xs[1..]);
      assert [xs[0]] + xs[1..] == xs;
    }
  }

  /** Round trip: a list of non-empty, stripped, comma-free extensions
      written with `",".join` parses back to itself. */
  lemma ParseJoin(xs: seq<string>)
    requires xs != []
    requires forall i :: 0 <= i < |xs| ==> xs[i] != [] && IsStripped(xs[i]) && ',' !in xs[i]
    ensures ParseIncludeExt(Join(xs, ',')) == xs
  {
    SplitJoin(xs, ',');
    StrippedPiecesOfClean(xs);
  }

  /** Python's ordering of strings: by code point, a proper prefix first. */
  predicate StrLess(a: string, b: string) {
    if a == [] then b != []
    else if b == [] then false
    else if a[0] != b[0] then a[0] < b[0]
    else StrLess(a[1..], b[1..])
  }

  /** `sorted(SUPPORTED_EXTENSIONS)` */
  const SortedSupported: seq<string> := [".heic", ".heif", ".jpeg", ".jpg", ".png", ".tif", ".tiff"]

  /** The sorted list is in strictly increasing order and holds exactly the
      supported extensions. */
  lemma SortedSupportedIsSorted()
    ensures forall i :: 0 <= i < |SortedSupported| - 1 ==> StrLess(SortedSupported[i], SortedSupported[i + 1])
    ensures forall e :: e in SortedSupported <==> e in SupportedExtensions
  {
    assert StrLess(".heic", ".heif") by { assert StrLess("c", "f"); }
    assert StrLess(".heif", ".jpeg");
    assert StrLess(".jpeg", ".jpg") by { assert StrLess("eg", "g"); }
    assert StrLess(".jpg", ".png");
    assert StrLess(".png", ".tif");
    assert StrLess(".tif", ".tiff") by { assert StrLess("", "f"); }
  }

  /** The default of `--include-ext`: `",".join(sorted(SUPPORTED_EXTENSIONS))`. */
  function DefaultIncludeExt(): string {
    Join(SortedSupported, ',')
  }

  /** The default list, written out. */
  lemma DefaultIncludeExtText()
    ensures DefaultIncludeExt() == ".heic,.heif,.jpeg,.jpg,.png,.tif,.tiff"
  {
    var xs := SortedSupported;
    forall k | 0 <= k < |xs| - 1
      ensures Join(xs[k..], ',') == xs[k] + [','] + Join(xs[k + 1..], ',')
    {
      assert xs[k..][1..] == xs[k + 1..];
    }
    assert Join(xs[6..], ',') == ".tiff";
    JoinedText();
  }

  lemma JoinedText()
    ensures ".heic" + [','] + (".heif" + [','] + (".jpeg" + [','] + (".jpg" + [','] + (".png" + [','] + (".tif" + [','] + ".tiff")))))
      == ".heic,.heif,.jpeg,.jpg,.png,.tif,.tiff"
  {
  }

  lemma SupportedAreNormal()
    ensures forall i :: 0 <= i < |SortedSupported| ==>
      IsNormalExt(SortedSupported[i]) && IsStripped(SortedSupported[i]) && ',' !in SortedSupported[i]
  {
  }

  /** On already normalised extensions the filter set is just the set of
      the list's elements. */
  lemma ValidExtOfNormal(xs: seq<string>)
    requires forall i :: 0 <= i < |xs| ==> IsNormalExt(xs[i])
    ensures ValidExt(xs) == set i | 0 <= i < |xs| :: xs[i]
  {
    forall i | 0 <= i < |xs| ensures NormalizeExt(xs[i]) == xs[i] {
      NormalizeNormal(xs[i]);
    }
  }

  lemma SortedSupportedElements()
    ensures (set i | 0 <= i < |SortedSupported| :: SortedSupported[i]) == SupportedExtensions
  {
    SortedSupportedIsSorted();
    var s := set i | 0 <= i < |SortedSupported| :: SortedSupported[i];
    forall e | e in SupportedExtensions ensures e in s {
      var i :| 0 <= i < |SortedSupported| && SortedSupported[i] == e;
    }
  }

  /** Parsing and normalising the default list gives back exactly the
      supported extensions. */
  lemma DefaultRoundTrip()
    ensures ValidExt(ParseIncludeExt(DefaultIncludeExt())) == SupportedExtensions
  {
    SupportedAreNormal();
    ParseJoin(SortedSupported);
    assert ParseIncludeExt(DefaultIncludeExt()) == SortedSupported;
    ValidExtOfNormal(SortedSupported);
    SortedSupportedElements();
  }

  // ---------------------------------------------------------------------
  // Candidate enumeration

  /** What `os.path.isfile` / `os.path.isdir` report of the root path. */
  datatype PathKind = IsFile | IsDir | Missing

  /** One triple yielded by `os.walk` (sub-directory names are not used). */
  datatype WalkEntry = WalkEntry(dirpath: string, filenames: seq<string>)

  datatype EnumError = FileNotFound(message: string)

  function NotFoundMessage(rootPath: string): string {
    "Path does not exist or not accessible: " + rootPath
  }

  /** The filter of `enumerate_candidate_files` as a test on one name. */
  function AcceptsIn(validExt: set<string>): string -> bool {
    name => Accepts(validExt, name)
  }

  /** The names of one directory that pass `keep`, joined to the directory
      and made absolute, in order. */
  function Listed(keep: string -> bool, dirpath: string, names: seq<string>,
                  abspath: string -> string): (r: seq<string>)
    ensures |r| <= |names|
  {
    if names == [] then []
    else
      var last := names[|names| - 1];
      Listed(keep, dirpath, names[..|names| - 1], abspath)
      + (if keep(last) then [abspath(Paths.Join(dirpath, last))] else [])
  }

  /** The accepted files of one directory, as absolute paths, in order. */
  function DirFiles(validExt: set<string>, dirpath: string, names: seq<string>,
                    abspath: string -> string): seq<string> {
    Listed(AcceptsIn(validExt), dirpath, names, abspath)
  }

  /** The accepted files of a sequence of walk entries, entry by entry. */
  function WalkFiles(validExt: set<string>, entries: seq<WalkEntry>, abspath: string -> string): seq<string> {
    if entries == [] then []
    else
      var last := entries[|entries| - 1];
      WalkFiles(validExt, entries[..|entries| - 1], abspath)
      + DirFiles(validExt, last.dirpath, last.filenames, abspath)
  }

  /** The walk entries the scan visits: all of them when recursive, only the
      first (the root directory itself) otherwise. */
  function Visited(walk: seq<WalkEntry>, recursive: bool): (r: seq<WalkEntry>)
    ensures recursive ==> r == walk
    ensures !recursive ==> |r| <= 1 && |r| <= |walk| && r == walk[..|r|] && (walk != [] ==> r == [walk[0]])
  {
    if recursive || walk == [] then walk else walk[..1]
  }

  /** The result `enumerate_candidate_files` specifies. */
  function CandidateFiles(rootPath: string, kind: PathKind, walk: seq<WalkEntry>, recursive: bool,
                          includeExt: seq<string>, abspath: string -> string)
    : (r: Result<seq<string>, EnumError>)
    ensures r.Err? <==> kind == Missing
    ensures r.Err? ==> r.error == FileNotFound(NotFoundMessage(rootPath))
  {
    var validExt := ValidExt(includeExt);
    match kind
    case IsFile => Ok(if Accepts(validExt, rootPath) then [abspath(rootPath)] else [])
    case Missing => Err(FileNotFound(NotFoundMessage(rootPath)))
    case IsDir => Ok(WalkFiles(validExt, Visited(walk, recursive), abspath))
  }

  /** The inner loop of `enumerate_candidate_files`: append the files of
      one directory that pass `keep` to `result`. */
  method ScanEntry(keep: string -> bool, names: seq<string>, dirpath: string, result: seq<string>,
                   abspath: string -> string)
    returns (r: seq<string>)
    ensures r == result + Listed(keep, dirpath, names, abspath)
  {
    r := result;
    var j := 0;
    while j < |names|
      invariant 0 <= j <= |names|
      invariant r == result + Listed(keep, dirpath, names[..j], abspath)
    {
      var filename := names[j];
      assert names[..j + 1][..j] == names[..j];
      if keep(filename) {
        r := r + [abspath(Paths.Join(dirpath, filename))];
      }
      j := j + 1;
    }
    assert names[..j] == names;
  }

  /** `enumerate_candidate_files(root_path, recursive, include_ext)`: a
      file root is checked on its own; a directory root is scanned entry by
      entry, leaving after the first entry when not recursive; any other
      root is the not-found error. */
  method EnumerateCandidateFiles(rootPath: string, kind: PathKind, walk: seq<WalkEntry>, recursive: bool,
                                 includeExt: seq<string>, abspath: string -> string)
    returns (r: Result<seq<string>, EnumError>)
    ensures r == CandidateFiles(rootPath, kind, walk, recursive, includeExt, abspath)
  {
    var validExt := ValidExt(includeExt);
    var result: seq<string> := [];
    if kind == IsFile {
      if Accepts(validExt, rootPath) {
        result := result + [abspath(rootPath)];
      }
      assert result == (if Accepts(validExt, rootPath) then [abspath(rootPath)] else []);
      return Ok(result);
    }
    if kind != IsDir {
      return Err(FileNotFound(NotFoundMessage(rootPath)));
    }
    var i := 0;
    while i < |walk|
      invariant 0 <= i <= |walk|
      invariant !recursive ==> i == 0
      invariant result == WalkFiles(validExt, walk[..i], abspath)
    {
      var entry := walk[i];
      result := ScanEntry(AcceptsIn(validExt), entry.filenames, entry.dirpath, result, abspath);
      assert walk[..i + 1][..i] == walk[..i];
      i := i + 1;
      if !recursive {
        break;
      }
    }
    assert walk[..i] == Visited(walk, recursive);
    return Ok(result);
  }

  /** A file root yields at most one result, and exactly its absolute path
      when accepted. */
  lemma FileRootAtMostOne(rootPath: string, walk: seq<WalkEntry>, recursive: bool,
                          includeExt: seq<string>, abspath: string -> string)
    ensures var r := CandidateFiles(rootPath, IsFile, walk, recursive, includeExt, abspath);
      r.Ok? && |r.value| <= 1
      && (r.value == [abspath(rootPath)] <==> Accepts(ValidExt(includeExt), rootPath))
  {
  }

  /** A non-recursive scan lists the accepted files of the first walk entry
      only, whatever the later entries hold. */
  lemma NonRecursiveFirstEntryOnly(rootPath: string, first: WalkEntry, later: seq<WalkEntry>,
                                   includeExt: seq<string>, abspath: string -> string)
    ensures CandidateFiles(rootPath, IsDir, [first] + later, false, includeExt, abspath)
      == Ok(DirFiles(ValidExt(includeExt), first.dirpath, first.filenames, abspath))
  {
    var w := [first] + later;
    var v := ValidExt(includeExt);
    assert Visited(w, false) == [first];
    assert [first][..0] == [];
    assert WalkFiles(v, [first], abspath) == WalkFiles(v, [], abspath) + DirFiles(v, first.dirpath, first.filenames, abspath);
    assert WalkFiles(v, [first], abspath) == DirFiles(v, first.dirpath, first.filenames, abspath);
    assert CandidateFiles(rootPath, IsDir, w, false, includeExt, abspath) == Ok(WalkFiles(v, Visited(w, false), abspath));
  }

  /** Membership in a directory's results: exactly the names that pass,
      joined to the directory and made absolute. */
  lemma {:induction false} ListedMembers(keep: string -> bool, dirpath: string, names: seq<string>,
                                         abspath: string -> string, x: string)
    ensures x in Listed(keep, dirpath, names, abspath) <==>
      exists j :: 0 <= j < |names| && keep(names[j]) && x == abspath(Paths.Join(dirpath, names[j]))
  {
    if names != [] {
      var n := |names| - 1;
      var init := names[..n];
      ListedMembers(keep, dirpath, init, abspath, x);
      assert forall j :: 0 <= j < n ==> init[j] == names[j];
    }
  }

  /** Membership in a directory's results: exactly the accepted names,
      joined to the directory and made absolute. */
  lemma DirFilesMembers(validExt: set<string>, dirpath: string, names: seq<string>,
                        abspath: string -> string, x: string)
    ensures x in DirFiles(validExt, dirpath, names, abspath) <==>
      exists j :: 0 <= j < |names| && Accepts(validExt, names[j]) && x == abspath(Paths.Join(dirpath, names[j]))
  {
    ListedMembers(AcceptsIn(validExt), dirpath, names, abspath, x);
  }

  /** The results keep walk order: the files of an earlier entry come
      before those of a later one. */
  lemma {:induction false} WalkFilesAppend(validExt: set<string>, a: seq<WalkEntry>, b: seq<WalkEntry>,
                                           abspath: string -> string)
    ensures WalkFiles(validExt, a + b, abspath) == WalkFiles(validExt, a, abspath) + WalkFiles(validExt, b, abspath)
    decreases |b|
  {
    if b != [] {
      var bi := b[..|b| - 1];
      assert (a + b)[..|a + b| - 1] == a + bi;
      WalkFilesAppend(validExt, a, bi, abspath);
    } else {
      assert a + b == a;
    }
  }

  /** The extension a plain name `stem.e` is filtered on. */
  lemma FilteredExt(stem: string, e: string)
    requires '/' !in stem && '.' !in e && '/' !in e
    requires stem != [] && stem[0] != '.'
    ensures Lower(Paths.Ext(stem + "." + e)) == "." + Lower(e)
  {
    StemExt(stem, e);
    LowerDotThen(e);
  }

  lemma LowerDotThen(e: string)
    ensures Lower("." + e) == "." + Lower(e)
  {
    LowerAppend(".", e);
    assert Lower(".")[0] == '.';
  }

  /** The extension of `stem.e`, for a stem without a leading dot. */
  lemma StemExt(stem: string, e: string)
    requires '/' !in stem && '.' !in e && '/' !in e
    requires stem != [] && stem[0] != '.'
    ensures Paths.Ext(stem + "." + e) == "." + e
  {
    assert stem[0] != '.';
    Paths.ExtOfName(stem, e);
  }

  lemma AcceptsJpg()
    ensures Accepts(SupportedExtensions, "a.jpg")
  {
    FilteredExt("a", "jpg");
    NameParts("a", "jpg", "a.jpg");
    LowerOfLower("jpg");
    assert "." + "jpg" == ".jpg";
  }

  lemma AcceptsUpperPng()
    ensures Accepts(SupportedExtensions, "b.PNG")
  {
    FilteredExt("b", "PNG");
    NameParts("b", "PNG", "b.PNG");
    LowerPng();
  }

  lemma RefusesTxt()
    ensures !Accepts(SupportedExtensions, "c.txt")
  {
    FilteredExt("c", "txt");
    NameParts("c", "txt", "c.txt");
    LowerOfLower("txt");
    TxtNotSupported();
  }

  /** `stem + "." + e` spelled out. */
  lemma NameParts(stem: string, e: string, name: string)
    requires |name| == |stem| + 1 + |e| && name[..|stem|] == stem && name[|stem|] == '.' && name[|stem| + 1..] == e
    ensures stem + "." + e == name
  {
    assert name == name[..|stem|] + [name[|stem|]] + name[|stem| + 1..];
  }

  lemma LowerPng()
    ensures "." + Lower("PNG") == ".png"
  {
    var l := Lower("PNG");
    assert l[0] == 'p' && l[1] == 'n' && l[2] == 'g';
    assert l == "png";
  }

  lemma TxtNotSupported()
    ensures "." + "txt" !in SupportedExtensions
  {
    var x := "." + "txt";
    assert x[2] == 'x';
    assert forall e :: e in SupportedExtensions ==> e[2] != 'x';
  }

  lemma ScenarioDirFiles(d: string, abspath: string -> string)
    ensures DirFiles(SupportedExtensions, d, ["a.jpg", "b.PNG", "c.txt"], abspath)
      == [abspath(Paths.Join(d, "a.jpg")), abspath(Paths.Join(d, "b.PNG"))]
  {
    AcceptsJpg();
    AcceptsUpperPng();
    RefusesTxt();
    DirFilesOfThree(SupportedExtensions, d, "a.jpg", "b.PNG", "c.txt", abspath);
  }

  /** Three names of which the first two are accepted. */
  lemma DirFilesOfThree(v: set<string>, d: string, x: string, y: string, z: string, abspath: string -> string)
    requires Accepts(v, x) && Accepts(v, y) && !Accepts(v, z)
    ensures DirFiles(v, d, [x, y, z], abspath) == [abspath(Paths.Join(d, x)), abspath(Paths.Join(d, y))]
  {
    var names := [x, y, z];
    assert names[..2] == [x, y];
    assert names[..2][..1] == [x];
    assert names[..2][..1][..0] == [];
    assert DirFiles(v, d, [x], abspath) == [abspath(Paths.Join(d, x))];
    assert DirFiles(v, d, names[..2], abspath) == [abspath(Paths.Join(d, x)), abspath(Paths.Join(d, y))];
  }

  /** The directory scenario: a.jpg and b.PNG are listed, c.txt is not. */
  lemma DefaultFilterScenario(d: string, abspath: string -> string)
    ensures CandidateFiles(d, IsDir, [WalkEntry(d, ["a.jpg", "b.PNG", "c.txt"])], false,
                           ParseIncludeExt(DefaultIncludeExt()), abspath)
      == Ok([abspath(Paths.Join(d, "a.jpg")), abspath(Paths.Join(d, "b.PNG"))])
  {
    DefaultRoundTrip();
    var e := WalkEntry(d, ["a.jpg", "b.PNG", "c.txt"]);
    NonRecursiveFirstEntryOnly(d, e, [], ParseIncludeExt(DefaultIncludeExt()), abspath);
    assert [e] + [] == [e];
    ScenarioDirFiles(d, abspath);
  }

  // ---------------------------------------------------------------------
  // main

  /** The parsed command line (argparse itself is not modelled). */
  datatype Args = Args(path: string, dryRun: bool, verbose: bool, recursive: bool,
                       includeExt: string, exifOnly: bool, fallbackMtime: bool)

  /** The defaults `build_arg_parser` gives every option but `--path`. */
  function DefaultArgs(path: string): (a: Args)
    ensures a.path == path && !a.dryRun && !a.verbose && !a.recursive && !a.exifOnly && a.fallbackMtime
    ensures ValidExt(ParseIncludeExt(a.includeExt)) == SupportedExtensions
  {
    DefaultRoundTrip();
    Args(path, false, false, false, DefaultIncludeExt(), false, true)
  }

  /** The dry-run status of one file: its date when it has one, otherwise
      "SKIP: no date" under `--exif-only` and "no date" without. */
  function DryRunStatus(date: Option<string>, exifOnly: bool): (s: string)
    ensures date.Some? && date.value != [] ==> s == date.value
    ensures (date.None? || date.value == []) && exifOnly ==> s == "SKIP: no date"
    ensures (date.None? || date.value == []) && !exifOnly ==> s == "no date"
  {
    if date.Some? && date.value != [] then date.value
    else if exifOnly then "SKIP: no date" else "no date"
  }

  /** The status of an extracted date is either that date (the ISO form) or
      one of the two messages, and it is "SKIP: no date" exactly when
      `--exif-only` is set and the file has no usable EXIF date. */
  lemma StatusOfExtracted(f: ExifUtils.PhotoFacts, fallbackMtime: bool, exifOnly: bool)
    ensures var d := ExifUtils.ExtractPhotoDateString(f.load, f.mtime, fallbackMtime, exifOnly);
      var s := DryRunStatus(d, exifOnly);
      && (d.Some? ==> s == d.value && ExifUtils.IsIsoDateShape(s))
      && (s == "SKIP: no date" <==> exifOnly && ExifUtils.ExifDate(f.load).None?)
  {
    var d := ExifUtils.ExtractPhotoDateString(f.load, f.mtime, fallbackMtime, exifOnly);
    if d.Some? {
      assert |d.value| == 10;
      assert |"SKIP: no date"| == 13;
    }
  }

  /** A line `main` prints, as a record; `Text` is what it prints. */
  datatype Line = Header(count: nat) | Status(file: string, status: string) | Found(count: nat)

  function Text(l: Line): string {
    match l
    case Header(n) => "DRY RUN: " + NatToString(n) + " file(s) would be processed"
    case Status(f, st) => f + " -> " + st
    case Found(n) => "Found " + NatToString(n) + " file(s) to process"
  }

  /** The dry-run status of one file, from what `extract_photo_date_string`
      reads of it under the command line's flags. */
  function FileStatus(file: string, photo: string -> ExifUtils.PhotoFacts, args: Args): string {
    var f := photo(file);
    DryRunStatus(ExifUtils.ExtractPhotoDateString(f.load, f.mtime, args.fallbackMtime, args.exifOnly), args.exifOnly)
  }

  /** One status line per file, in order, each carrying that file's status. */
  function StatusLines(files: seq<string>, status: string -> string): (r: seq<Line>)
    ensures |r| == |files|
    ensures forall i :: 0 <= i < |files| ==> r[i] == Status(files[i], status(files[i]))
  {
    seq(|files|, i requires 0 <= i < |files| => Status(files[i], status(files[i])))
  }

  /** The lines a dry run prints: a header with the count, then one status
      line per file, in order. */
  function DryRunReport(files: seq<string>, photo: string -> ExifUtils.PhotoFacts, args: Args): seq<Line> {
    [Header(|files|)] + StatusLines(files, f => FileStatus(f, photo, args))
  }

  /** The exit code and what `main` writes: the lines on stdout and the
      error messages on stderr. */
  datatype Outcome = Outcome(code: int, stdout: seq<Line>, stderr: seq<string>)

  /** The dry-run loop of `main`: the header, then for each file in turn the
      line with its status. */
  method Report(files: seq<string>, status: string -> string) returns (lines: seq<Line>)
    ensures lines == [Header(|files|)] + StatusLines(files, status)
  {
    lines := [Header(|files|)];
    ghost var all := StatusLines(files, status);
    for i := 0 to |files|
      invariant |lines| == i + 1 && lines[0] == Header(|files|)
      invariant forall k :: 0 <= k < i ==> lines[k + 1] == all[k]
    {
      lines := lines + [Status(files[i], status(files[i]))];
    }
    assert lines[1..] == all;
  }

  /** The dry-run branch of `main`: each file's status is its extracted date
      or the message `DryRunStatus` gives. */
  method DryRun(files: seq<string>, photo: string -> ExifUtils.PhotoFacts, args: Args) returns (lines: seq<Line>)
    ensures lines == DryRunReport(files, photo, args)
  {
    lines := Report(files, f => FileStatus(f, photo, args));
  }

  /** `main(argv)` after argument parsing. */
  method Run(args: Args, kind: PathKind, walk: seq<WalkEntry>, abspath: string -> string,
             photo: string -> ExifUtils.PhotoFacts)
    returns (out: Outcome)
    ensures out.code == 2 <==> kind == Missing
    ensures out.code == 0 || out.code == 2
    ensures kind == Missing ==> out == Outcome(2, [], [NotFoundMessage(args.path)])
    ensures kind != Missing && args.dryRun ==>
      var files := CandidateFiles(args.path, kind, walk, args.recursive, ParseIncludeExt(args.includeExt), abspath).value;
      out == Outcome(0, DryRunReport(files, photo, args), [])
    ensures kind != Missing && !args.dryRun ==>
      var files := CandidateFiles(args.path, kind, walk, args.recursive, ParseIncludeExt(args.includeExt), abspath).value;
      out == Outcome(0, if args.verbose then [Found(|files|)] else [], [])
  {
    var includeExt := ParseIncludeExt(args.includeExt);
    var r := EnumerateCandidateFiles(args.path, kind, walk, args.recursive, includeExt, abspath);
    if r.Err? {
      return Outcome(2, [], [r.error.message]);
    }
    var files := r.value;
    if args.dryRun {
      var lines := DryRun(files, photo, args);
      return Outcome(0, lines, []);
    }
    var stdout := [];
    if args.verbose {
      stdout := [Found(|files|)];
    }
    return Outcome(0, stdout, []);
  }
}
