/**
 * The export core of the desktop application (src/photodate_wm/gui_app.py):
 * the queue of input files, the resize rule, the output naming rule, the
 * refusal conditions and the success/skipped/failed tally of an export.
 *
 * The Tk widgets are not modelled; the values of the `tk.*Var` fields the
 * export reads are a `Settings` value. What the file system and Pillow
 * report about each queued file (whether it opens, its size and mode, its
 * EXIF and mtime, the measured text box, whether saving succeeds) is an
 * `ItemFacts` input.
 */
module GuiApp {
  import opened Wrappers
  import opened Strings
  import Paths
  import ExifUtils
  import Render

  const SupportedInputExts: set<string> := {".jpg", ".jpeg", ".png", ".bmp", ".tif", ".tiff"}

  // ---------------------------------------------------------------------
  // Resizing

  /** `max(1, int(value or 1))`: a zero or negative value acts as 1. */
  function ResizeValue(value: int): (v: int)
    ensures v >= 1
    ensures value >= 1 ==> v == value
    ensures value < 1 ==> v == 1
  {
    var raw := if value == 0 then 1 else value;
    if raw >= 1 then raw else 1
  }

  datatype ResizeError = ZeroDivision

  /** `App._resize_image` for the resize mode and value the settings hold. */
  function Resized(mode: string, value: int, im: Render.ImageInfo): (r: Result<Render.ImageInfo, ResizeError>)
    ensures r.Ok? ==> r.value.mode == im.mode
    ensures mode != "width" && mode != "height" && mode != "percent" ==> r == Ok(im)
    ensures mode == "width" ==> (r.Err? <==> im.width == 0)
    ensures mode == "height" ==> (r.Err? <==> im.height == 0)
    ensures mode == "percent" ==> r.Ok?
  {
    var v := ResizeValue(value);
    if mode == "none" then Ok(im)
    else if mode == "width" then
      if im.width == 0 then Err(ZeroDivision)
      else Ok(Render.ImageInfo(v, Max1(Render.RatioFloor(im.height, v, im.width)), im.mode))
    else if mode == "height" then
      if im.height == 0 then Err(ZeroDivision)
      else Ok(Render.ImageInfo(Max1(Render.RatioFloor(im.width, v, im.height)), v, im.mode))
    else if mode == "percent" then
      Ok(Render.ImageInfo(Max1(Render.RatioFloor(im.width, v, 100)), Max1(Render.RatioFloor(im.height, v, 100)), im.mode))
    else Ok(im)
  }

  function Max1(n: int): (m: nat)
    ensures m >= 1 && m >= n
    ensures n >= 1 ==> m == n
  {
    if n >= 1 then n else 1
  }

  /** A resize in one of the three sizing modes never produces an empty
      side. */
  lemma ResizedNotEmpty(mode: string, value: int, im: Render.ImageInfo)
    requires mode == "width" || mode == "height" || mode == "percent"
    requires Resized(mode, value, im).Ok?
    ensures Resized(mode, value, im).value.width >= 1 && Resized(mode, value, im).value.height >= 1
  {
  }

  /** Width mode: the new width is exactly the value, and the height keeps
      the aspect ratio, floored, but at least 1. */
  lemma ResizedToWidth(value: int, im: Render.ImageInfo)
    requires im.width > 0
    ensures var r := Resized("width", value, im).value; var v := ResizeValue(value);
      && r.width == v
      && (if im.height * v >= im.width then Render.IsFloorDiv(r.height, im.height * v, im.width) else r.height == 1)
  {
    Render.FloorDivBounds(Render.RatioFloor(im.height, ResizeValue(value), im.width), im.height * ResizeValue(value), im.width);
  }

  /** Height mode, the mirror image of width mode. */
  lemma ResizedToHeight(value: int, im: Render.ImageInfo)
    requires im.height > 0
    ensures var r := Resized("height", value, im).value; var v := ResizeValue(value);
      && r.height == v
      && (if im.width * v >= im.height then Render.IsFloorDiv(r.width, im.width * v, im.height) else r.width == 1)
  {
  }

  /** Percent mode scales both sides by value/100, each floored at 1. */
  lemma ResizedByPercent(value: int, im: Render.ImageInfo)
    ensures var r := Resized("percent", value, im).value; var v := ResizeValue(value);
      && (if im.width * v >= 100 then Render.IsFloorDiv(r.width, im.width * v, 100) else r.width == 1)
      && (if im.height * v >= 100 then Render.IsFloorDiv(r.height, im.height * v, 100) else r.height == 1)
  {
  }

  /** 100 percent is the identity on the size. */
  lemma HundredPercentKeepsSize(im: Render.ImageInfo)
    requires im.width >= 1 && im.height >= 1
    ensures Resized("percent", 100, im) == Ok(im)
  {
    var r := Resized("percent", 100, im).value;
    Render.FloorDivBounds(r.width, im.width * 100, 100);
    assert r.width == im.width;
    assert r.height == im.height;
  }

  /** A blank-like value (0 or negative) behaves as 1. */
  lemma NonPositiveValueIsOne(mode: string, value: int, im: Render.ImageInfo)
    requires value < 1
    ensures Resized(mode, value, im) == Resized(mode, 1, im)
  {
  }

  // ---------------------------------------------------------------------
  // Output naming

  /** The file extension an output format is written with. */
  function FormatExt(format: string): (e: string)
    ensures format == "JPEG" ==> e == ".jpg"
    ensures format != "JPEG" ==> e == ".png"
  {
    if format == "JPEG" then ".jpg" else ".png"
  }

  /** `f"{prefix}{stem}{suffix}"` plus the format's extension, where `stem`
      is the source's base name without its extension. */
  function OutputName(prefix: string, source: string, suffix: string, format: string): string {
    prefix + Paths.Root(Paths.Basename(source)) + suffix + FormatExt(format)
  }

  /** The stem of a base name holds no '/'. */
  lemma StemNoSlash(source: string)
    ensures '/' !in Paths.Root(Paths.Basename(source))
  {
    var base := Paths.Basename(source);
    var sp := Paths.SplitExt(base);
    assert base == sp.0 + sp.1;
    forall j | 0 <= j < |sp.0| ensures sp.0[j] != '/' {
      assert sp.0[j] == base[j];
    }
  }

  /** Neither the stem of a base name nor a format extension holds a '/'. */
  lemma OutputNameNoSlash(prefix: string, source: string, suffix: string, format: string)
    requires '/' !in prefix && '/' !in suffix
    ensures '/' !in OutputName(prefix, source, suffix, format)
    ensures OutputName(prefix, source, suffix, format) != []
  {
    StemNoSlash(source);
    var e := FormatExt(format);
    assert '/' !in e && e != [];
    PiecesNoSlash(prefix, Paths.Root(Paths.Basename(source)), suffix, e);
  }

  /** Four pieces without '/' join into a name without '/', which is not
      empty once the last piece is not. */
  lemma PiecesNoSlash(a: string, b: string, c: string, d: string)
    requires '/' !in a && '/' !in b && '/' !in c && '/' !in d && d != []
    ensures '/' !in a + b + c + d && a + b + c + d != []
  {
    assert |a + b + c + d| >= |d|;
  }

  lemma SplitWithFormat(stem: string, format: string)
    requires '/' !in stem
    requires exists k :: 0 <= k < |stem| && stem[k] != '.'
    ensures Paths.SplitExt(stem + FormatExt(format)) == (stem, FormatExt(format))
  {
    var e := FormatExt(format)[1..];
    assert FormatExt(format) == "." + e;
    assert '.' !in e && '/' !in e;
    Paths.ExtOfName(stem, e);
    assert stem + "." + e == stem + FormatExt(format);
  }

  /** The output name splits back into the decorated stem and the format's
      extension, whenever the decorated stem holds some character other
      than '.'. */
  lemma OutputNameSplits(prefix: string, source: string, suffix: string, format: string)
    requires '/' !in prefix && '/' !in suffix
    requires exists k :: 0 <= k < |prefix + Paths.Root(Paths.Basename(source)) + suffix|
                    && (prefix + Paths.Root(Paths.Basename(source)) + suffix)[k] != '.'
    ensures Paths.SplitExt(OutputName(prefix, source, suffix, format))
      == (prefix + Paths.Root(Paths.Basename(source)) + suffix, FormatExt(format))
  {
    StemNoSlash(source);
    SplitWithFormat(prefix + Paths.Root(Paths.Basename(source)) + suffix, format);
  }

  lemma ExampleBasename()
    ensures Paths.Basename("/photos/IMG_1.png") == "IMG_1.png"
  {
    var p := "/photos/IMG_1.png";
    assert p[7] == '/';
    assert forall k :: 7 < k < |p| ==> p[k] != '/';
    assert Paths.RFind(p, '/') == 7;
  }

  lemma ExampleStem()
    ensures Paths.Root(Paths.Basename("/photos/IMG_1.png")) == "IMG_1"
  {
    ExampleBasename();
    assert "IMG_1"[0] != '.';
    Paths.ExtOfName("IMG_1", "png");
    assert "IMG_1" + "." + "png" == "IMG_1.png";
  }

  /** With the default prefix and suffix, "IMG_1.png" exported as JPEG is
      written as "IMG_1_watermarked.jpg". */
  lemma DefaultOutputNameExample()
    ensures OutputName("", "/photos/IMG_1.png", "_watermarked", "JPEG") == "IMG_1_watermarked.jpg"
  {
    ExampleStem();
    assert FormatExt("JPEG") == ".jpg";
    ExampleNameText();
  }

  lemma ExampleNameText()
    ensures "" + "IMG_1" + "_watermarked" + ".jpg" == "IMG_1_watermarked.jpg"
  {
    assert "" + "IMG_1" == "IMG_1";
  }

  /** Where an item of source `source` is saved: the output name inside
      the output directory. */
  function OutputPath(outDir: string, prefix: string, source: string, suffix: string, format: string): (p: string)
    ensures '/' !in prefix && '/' !in suffix ==> Paths.Basename(p) == OutputName(prefix, source, suffix, format)
  {
    var name := OutputName(prefix, source, suffix, format);
    if '/' !in prefix && '/' !in suffix then
      OutputNameNoSlash(prefix, source, suffix, format);
      Paths.BasenameOfJoin(outDir, name);
      Paths.Join(outDir, name)
    else Paths.Join(outDir, name)
  }

  // ---------------------------------------------------------------------
  // The queue

  /** A queued file: its path and the name shown in the list (`label`) (the
      thumbnail is a Tk object and is not modelled). */
  datatype Item = Item(path: string, listName: string)

  /** `_add_paths`'s filter: an existing file whose lower-cased extension
      is among `exts` (the application passes `SupportedInputExts`). */
  predicate Addable(path: string, isFile: string -> bool, exts: set<string>) {
    isFile(path) && Lower(Paths.Ext(path)) in exts
  }

  /** `_add_paths`'s filter as a test on one path. */
  function AddableIn(isFile: string -> bool, exts: set<string>): string -> bool {
    p => Addable(p, isFile, exts)
  }

  /** The paths that pass `keep`, in the order given. */
  function Kept(paths: seq<string>, keep: string -> bool): (r: seq<string>)
    ensures |r| <= |paths|
  {
    if paths == [] then []
    else
      var p := paths[|paths| - 1];
      Kept(paths[..|paths| - 1], keep) + (if keep(p) then [p] else [])
  }

  /** The paths `_add_paths` keeps, in the order given. */
  function AddedPaths(paths: seq<string>, isFile: string -> bool, exts: set<string>): seq<string> {
    Kept(paths, AddableIn(isFile, exts))
  }

  /** A path is kept iff it is given and passes the test. */
  lemma {:induction false} KeptMembers(paths: seq<string>, keep: string -> bool, p: string)
    ensures p in Kept(paths, keep) <==> p in paths && keep(p)
  {
    if paths != [] {
      var init := paths[..|paths| - 1];
      KeptMembers(init, keep, p);
      assert paths == init + [paths[|paths| - 1]];
    }
  }

  /** A path is kept iff it is given and is an existing file whose
      lower-cased extension is accepted. */
  lemma AddedPathsMembers(paths: seq<string>, isFile: string -> bool, exts: set<string>, p: string)
    ensures p in AddedPaths(paths, isFile, exts) <==> p in paths && isFile(p) && Lower(Paths.Ext(p)) in exts
  {
    KeptMembers(paths, AddableIn(isFile, exts), p);
  }

  /** One more path: the kept paths grow by it exactly when it passes. */
  lemma KeptStep(paths: seq<string>, i: nat, keep: string -> bool)
    requires i < |paths|
    ensures Kept(paths[..i + 1], keep) == Kept(paths[..i], keep) + (if keep(paths[i]) then [paths[i]] else [])
  {
    assert paths[..i + 1][..i] == paths[..i];
  }

  /** The queue entries for a list of paths, each labelled with its base
      name. */
  /** The queue entry `_add_paths` appends for a path: the path, listed
      under its base name. */
  function QueueItem(p: string): Item {
    Item(p, Paths.Basename(p))
  }

  function ItemsOf(paths: seq<string>): (r: seq<Item>)
    ensures |r| == |paths|
  {
    seq(|paths|, i requires 0 <= i < |paths| => QueueItem(paths[i]))
  }

  /** One more path: one more queue entry, at the end of the queue. */
  lemma ItemsOfSnoc(start: seq<Item>, a: seq<string>, p: string)
    ensures start + ItemsOf(a + [p]) == (start + ItemsOf(a)) + [QueueItem(p)]
  {
    var l := ItemsOf(a + [p]);
    var r := ItemsOf(a) + [QueueItem(p)];
    assert |l| == |r|;
    forall k | 0 <= k < |l|
      ensures l[k] == r[k]
    {
      if k < |a| {
        assert (a + [p])[k] == a[k];
      }
    }
    assert start + (ItemsOf(a) + [QueueItem(p)]) == (start + ItemsOf(a)) + [QueueItem(p)];
  }

  // ---------------------------------------------------------------------
  // Export

  /** The values of the `tk.*Var` fields an export reads. `color` is what
      `ImageColor.getcolor` makes of the colour field (None when it raises);
      the font size, font path and JPEG quality only influence the measured
      text box and the bytes written, which are inputs here. */
  datatype Settings = Settings(
    outputDir: string, prefix: string, suffix: string, format: string,
    resizeMode: string, resizeValue: int,
    position: string, color: Option<Render.Rgba>, opacity: real, marginX: int, marginY: int,
    exifOnly: bool, fallbackMtime: bool)

  /** The initial values of `App.__init__`. */
  const DefaultSettings: Settings := Settings(
    "", "", "_watermarked", "JPEG", "none", 100,
    "br", Some(Render.Rgba(255, 255, 255, 255)), 1.0, 24, 24, false, true)

  /** What happens to one queued file outside the core: the image Pillow
      opens (None when opening fails), the file's EXIF and mtime, the box
      the date text measures, and whether saving succeeds. */
  datatype ItemFacts = ItemFacts(image: Option<Render.ImageInfo>, photo: ExifUtils.PhotoFacts,
                                 textW: int, textH: int, saves: bool)

  /** What an export did with one item; a saved item records where it was
      written and the image written. */
  datatype ItemOutcome = Saved(path: string, image: Render.ImageInfo) | Skipped | Failed

  /** The date text of an item, as `extract_photo_date_string` reads it. */
  function ItemDate(s: Settings, f: ItemFacts): Option<string> {
    ExifUtils.ExtractPhotoDateString(f.photo.load, f.photo.mtime, s.fallbackMtime, s.exifOnly)
  }

  /** The body of the export loop for one item. Anything that raises
      (opening, resizing, drawing, saving) counts the item as failed; an
      item without a date text is skipped before anything is drawn. The
      text is drawn with the default stroke and shadow of
      `draw_text_watermark`; JPEG output is converted to RGB first. */
  function ExportItem(s: Settings, outDir: string, it: Item, f: ItemFacts): (r: ItemOutcome)
    ensures f.image.None? ==> r == Failed
    ensures f.image.Some? && (ItemDate(s, f).None? || ItemDate(s, f).value == []) ==> r == Skipped
    ensures r.Saved? ==> f.saves && ItemDate(s, f).Some? && r.path == OutputPath(outDir, s.prefix, it.path, s.suffix, s.format)
    ensures r.Saved? && s.format == "JPEG" ==> r.image.mode == "RGB"
    ensures r.Saved? ==>
      && Resized(s.resizeMode, s.resizeValue, f.image.value).Ok?
      && r.image.width == Resized(s.resizeMode, s.resizeValue, f.image.value).value.width
      && r.image.height == Resized(s.resizeMode, s.resizeValue, f.image.value).value.height
  {
    match f.image
    case None => Failed
    case Some(im) =>
      var date := ItemDate(s, f);
      if date.None? || date.value == [] then Skipped
      else
        match Resized(s.resizeMode, s.resizeValue, im)
        case Err(_) => Failed
        case Ok(im2) =>
          match Render.DrawTextWatermark(im2, f.textW, f.textH, s.color, s.opacity, s.position, s.marginX, s.marginY,
                                         0, Some(Render.Rgba(0, 0, 0, 255)), (0, 0), Some(Render.Rgba(0, 0, 0, 255)), 0.5)
          case Err(_) => Failed
          case Ok(plan) =>
            var outPath := OutputPath(outDir, s.prefix, it.path, s.suffix, s.format);
            var written := if s.format == "JPEG" then Render.ImageInfo(plan.result.width, plan.result.height, "RGB")
                           else plan.result;
            if f.saves then Saved(outPath, written) else Failed
  }

  /** When an item is saved and when it is skipped: saved exactly when the
      image opens, the date text is non-empty, the resize succeeds, the
      position is one of the nine codes, the colour parses and writing
      succeeds; skipped exactly when the image opens but there is no date
      text. Every other item fails. */
  lemma ExportItemOutcome(s: Settings, outDir: string, it: Item, f: ItemFacts)
    ensures ExportItem(s, outDir, it, f).Saved? <==>
      && f.image.Some? && ItemDate(s, f).Some? && ItemDate(s, f).value != []
      && Resized(s.resizeMode, s.resizeValue, f.image.value).Ok?
      && Lower(s.position) in Render.AnchorCodes && s.color.Some? && f.saves
    ensures ExportItem(s, outDir, it, f) == Skipped <==>
      f.image.Some? && (ItemDate(s, f).None? || ItemDate(s, f).value == [])
  {
    var r := ExportItem(s, outDir, it, f);
    var date := ItemDate(s, f);
    if f.image.None? {
      assert r == Failed;
    } else if date.None? || date.value == [] {
      assert r == Skipped;
    } else {
      var resized := Resized(s.resizeMode, s.resizeValue, f.image.value);
      if resized.Err? {
        assert r == Failed;
      } else {
        var black := Some(Render.Rgba(0, 0, 0, 255));
        var d := Render.DrawTextWatermark(resized.value, f.textW, f.textH, s.color, s.opacity, s.position,
                                          s.marginX, s.marginY, 0, black, (0, 0), black, 0.5);
        assert d.Ok? <==> Lower(s.position) in Render.AnchorCodes && s.color.Some?;
        assert r.Saved? <==> d.Ok? && f.saves;
        assert r != Skipped;
      }
    }
  }

  /** An item whose date and picture are fine but whose position setting is
      not one of the nine codes fails rather than being skipped. */
  lemma BadPositionFails(s: Settings, outDir: string, it: Item, f: ItemFacts)
    requires f.image.Some? && ItemDate(s, f).Some?
    requires Resized(s.resizeMode, s.resizeValue, f.image.value).Ok?
    requires Lower(s.position) !in Render.AnchorCodes
    ensures ExportItem(s, outDir, it, f) == Failed
  {
  }

  /** The counters and the files written so far. */
  datatype Tally = Tally(success: nat, skipped: nat, failed: nat, saved: seq<(string, Render.ImageInfo)>)

  /** The tally of a sequence of item outcomes: each outcome bumps exactly
      one counter, so the three add up to the number of items; the saved
      files are listed in item order. */
  function TallyOf(outcomes: seq<ItemOutcome>): (t: Tally)
    ensures t.success + t.skipped + t.failed == |outcomes|
    ensures |t.saved| == t.success
  {
    if outcomes == [] then Tally(0, 0, 0, [])
    else
      var t := TallyOf(outcomes[..|outcomes| - 1]);
      match outcomes[|outcomes| - 1]
      case Saved(p, im) => Tally(t.success + 1, t.skipped, t.failed, t.saved + [(p, im)])
      case Skipped => Tally(t.success, t.skipped + 1, t.failed, t.saved)
      case Failed => Tally(t.success, t.skipped, t.failed + 1, t.saved)
  }

  /** The loop body of `run_export` as a function of the item. */
  function ExportStep(s: Settings, outDir: string, facts: string -> ItemFacts): Item -> ItemOutcome {
    (it: Item) => ExportItem(s, outDir, it, facts(it.path))
  }

  /** The outcome of every item under `step`, in queue order. */
  function OutcomesBy(items: seq<Item>, step: Item -> ItemOutcome): (r: seq<ItemOutcome>)
    ensures |r| == |items|
  {
    seq(|items|, i requires 0 <= i < |items| => step(items[i]))
  }

  /** The outcome of every queued item, in queue order. */
  function Outcomes(s: Settings, outDir: string, items: seq<Item>, facts: string -> ItemFacts): seq<ItemOutcome> {
    OutcomesBy(items, ExportStep(s, outDir, facts))
  }

  /** Why an export refuses to start. */
  datatype Refusal = NoOutputDir | SameAsSource

  /** The refusal checks of `run_export`: a blank output directory, or one
      whose absolute path is the directory of some queued file. */
  function RefusalOf(outputDir: string, items: seq<Item>, abspath: string -> string): (r: Option<Refusal>)
    ensures r == Some(NoOutputDir) <==> Strip(outputDir) == []
    ensures r == Some(SameAsSource) <==>
      && Strip(outputDir) != []
      && exists i :: 0 <= i < |items| && Paths.Dirname(abspath(items[i].path)) == abspath(Strip(outputDir))
  {
    var outDir := Strip(outputDir);
    if outDir == [] then Some(NoOutputDir)
    else if exists i :: 0 <= i < |items| && Paths.Dirname(abspath(items[i].path)) == abspath(outDir) then Some(SameAsSource)
    else None
  }

  /** The scan of `run_export` for a queued file whose directory is
      `target`, stopping at the first one. */
  method AnyInDir(items: seq<Item>, target: string, abspath: string -> string) returns (found: bool)
    ensures found <==> exists i :: 0 <= i < |items| && Paths.Dirname(abspath(items[i].path)) == target
  {
    var k := 0;
    while k < |items|
      invariant 0 <= k <= |items|
      invariant forall j :: 0 <= j < k ==> Paths.Dirname(abspath(items[j].path)) != target
    {
      if Paths.Dirname(abspath(items[k].path)) == target {
        return true;
      }
      k := k + 1;
    }
    return false;
  }

  /** What an export ends with: refused before doing anything, or finished
      with a tally. */
  datatype ExportResult = Refused(reason: Refusal) | Finished(tally: Tally)

  /** The export `run_export` specifies. */
  function Export(s: Settings, items: seq<Item>, facts: string -> ItemFacts, abspath: string -> string): (r: ExportResult)
    ensures r.Refused? <==> RefusalOf(s.outputDir, items, abspath).Some?
    ensures r.Finished? ==> r.tally.success + r.tally.skipped + r.tally.failed == |items|
  {
    match RefusalOf(s.outputDir, items, abspath)
    case Some(reason) => Refused(reason)
    case None => Finished(TallyOf(Outcomes(s, Strip(s.outputDir), items, facts)))
  }

  /** Every file in the tally's saved list is the outcome of some item, so
      it carries everything `ExportItem` promises of a saved item. */
  lemma {:induction false} SavedFiles(outcomes: seq<ItemOutcome>, k: int)
    requires 0 <= k < |TallyOf(outcomes).saved|
    ensures exists i :: 0 <= i < |outcomes| && outcomes[i] == Saved(TallyOf(outcomes).saved[k].0, TallyOf(outcomes).saved[k].1)
  {
    var init := outcomes[..|outcomes| - 1];
    var t := TallyOf(init);
    if k < |t.saved| {
      SavedFiles(init, k);
      var i :| 0 <= i < |init| && init[i] == Saved(t.saved[k].0, t.saved[k].1);
      assert outcomes[i] == init[i];
    } else {
      assert outcomes[|outcomes| - 1] == Saved(TallyOf(outcomes).saved[k].0, TallyOf(outcomes).saved[k].1);
    }
  }

  /** The application state the core touches: the queue. */
  class App {
    var items: seq<Item>
    var settings: Settings

    /** A fresh window: an empty queue and the initial field values. */
    constructor ()
      ensures items == [] && settings == DefaultSettings
    {
      items := [];
      settings := DefaultSettings;
    }

    /** The loop of `_add_paths`: append each path that passes `keep` to
        the queue, labelled with its base name, in order. */
    method AppendKept(paths: seq<string>, keep: string -> bool) returns (added: nat)
      modifies this`items
      ensures items == old(items) + ItemsOf(Kept(paths, keep))
      ensures added == |Kept(paths, keep)|
    {
      added := 0;
      ghost var start := items;
      ghost var kept: seq<string> := [];
      var i := 0;
      while i < |paths|
        invariant 0 <= i <= |paths|
        invariant kept == Kept(paths[..i], keep)
        invariant items == start + ItemsOf(kept)
        invariant added == |kept|
      {
        var p := paths[i];
        KeptStep(paths, i, keep);
        if keep(p) {
          ItemsOfSnoc(start, kept, p);
          items := items + [QueueItem(p)];
          added := added + 1;
          kept := kept + [p];
        }
        i := i + 1;
      }
      assert paths[..i] == paths;
    }

    /** `_add_paths`: append the existing, supported files among `paths`,
        in order; `notice` is whether the "nothing added" message shows. */
    method AddPaths(paths: seq<string>, isFile: string -> bool) returns (added: nat, notice: bool)
      modifies this
      ensures items == old(items) + ItemsOf(AddedPaths(paths, isFile, SupportedInputExts))
      ensures settings == old(settings)
      ensures added == |AddedPaths(paths, isFile, SupportedInputExts)|
      ensures notice <==> added == 0
    {
      added := AppendKept(paths, AddableIn(isFile, SupportedInputExts));
      notice := added == 0;
    }

    /** `_resize_image` with the current resize fields: the mode of the
        image is kept; the three sizing modes never produce an empty side;
        width and height mode set that side to the resize value; any other
        mode leaves the image alone. */
    method ResizeImage(im: Render.ImageInfo) returns (r: Result<Render.ImageInfo, ResizeError>)
      ensures r == Resized(settings.resizeMode, settings.resizeValue, im)
      ensures r.Ok? ==> r.value.mode == im.mode
      ensures r.Ok? && (settings.resizeMode == "width" || settings.resizeMode == "height" || settings.resizeMode == "percent") ==>
        r.value.width >= 1 && r.value.height >= 1
      ensures settings.resizeMode == "width" ==>
        (r.Err? <==> im.width == 0) && (r.Ok? ==> r.value.width == ResizeValue(settings.resizeValue))
      ensures settings.resizeMode == "height" ==>
        (r.Err? <==> im.height == 0) && (r.Ok? ==> r.value.height == ResizeValue(settings.resizeValue))
      ensures settings.resizeMode != "width" && settings.resizeMode != "height" && settings.resizeMode != "percent" ==>
        r == Ok(im)
    {
      var mode, value := settings.resizeMode, settings.resizeValue;
      r := Resized(mode, value, im);
      if r.Ok? && (mode == "width" || mode == "height" || mode == "percent") {
        ResizedNotEmpty(mode, value, im);
      }
      if mode == "width" && im.width > 0 {
        ResizedToWidth(value, im);
      }
      if mode == "height" && im.height > 0 {
        ResizedToHeight(value, im);
      }
    }

    /** The refusal checks at the start of `run_export`, in order. */
    method CheckRefusal(abspath: string -> string) returns (r: Option<Refusal>)
      ensures r == RefusalOf(settings.outputDir, items, abspath)
    {
      var outDir := Strip(settings.outputDir);
      if outDir == [] {
        return Some(NoOutputDir);
      }
      var clash := AnyInDir(items, abspath(outDir), abspath);
      if clash {
        return Some(SameAsSource);
      }
      return None;
    }

    /** `run_export`: the refusal checks, then one pass over the queue
        counting each item as saved, skipped or failed. */
    method RunExport(facts: string -> ItemFacts, abspath: string -> string) returns (r: ExportResult)
      ensures r == Export(settings, items, facts, abspath)
    {
      var refusal := CheckRefusal(abspath);
      if refusal.Some? {
        return Refused(refusal.value);
      }
      var outDir := Strip(settings.outputDir);
      var tally := TallyItems(items, ExportStep(settings, outDir, facts));
      return Finished(tally);
    }

    /** The counting loop of `run_export`: for each item in turn, its
        outcome under `step` adds one to the saved, skipped or failed
        count, and a saved file joins the list. */
    method TallyItems(items: seq<Item>, step: Item -> ItemOutcome) returns (t: Tally)
      ensures t == TallyOf(OutcomesBy(items, step))
    {
      var success, skipped, failed := 0, 0, 0;
      var saved: seq<(string, Render.ImageInfo)> := [];
      ghost var outcomes := OutcomesBy(items, step);
      for i := 0 to |items|
        invariant Tally(success, skipped, failed, saved) == TallyOf(outcomes[..i])
      {
        assert outcomes[..i + 1][..i] == outcomes[..i];
        var outcome := step(items[i]);
        assert outcome == outcomes[i];
        match outcome {
          case Saved(p, im) =>
            success := success + 1;
            saved := saved + [(p, im)];
          case Skipped =>
            skipped := skipped + 1;
          case Failed =>
            failed := failed + 1;
        }
      }
      assert outcomes[..|items|] == outcomes;
      t := Tally(success, skipped, failed, saved);
    }
  }
}
