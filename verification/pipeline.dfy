/**
 * The conversion: collect the image files, render one page per file that
 * decodes, and report the outcome the way `Main` does (help, a saved
 * document, or an error message with exit code 1). The two image decoders
 * are an oracle `decode` from a path to what each of them makes of the file.
 */
module Pipeline {
  import opened Wrappers
  import opened CommandLine
  import opened Collector
  import opened Configuration
  import opened Layout

  /** A positive pixel count. */
  type Pixels = n: int | n > 0 witness 1

  datatype ImageSize = ImageSize(width: Pixels, height: Pixels)

  /**
   * What the two decoders make of one file: `bitmap` is the System.Drawing
   * decode (None when it throws), `xImage` the PdfSharp decode of the same
   * path, attempted only after the bitmap decoded.
   */
  datatype Probe = Probe(bitmap: Option<ImageSize>, xImage: Option<ImageSize>)

  /** A PDF page: its size in points and, when one was drawn, where its image sits. */
  datatype Page = Page(width: real, height: real, image: Option<Rect>)

  datatype Document = Document(path: string, pages: seq<Page>)

  /** How a run of the program ends. */
  datatype Outcome = ShowedHelp | Saved(document: Document) | Failed(message: string)

  /** The error raised when no input yields an image file ("no image files matching the criteria were found"). */
  const NoImagesMessage: string := "未找到任何符合条件的图片文件"

  /**
   * The error PdfSharp's `PdfDocument.Save` raises for a document without
   * pages, which is what remains when every collected file fails to decode.
   */
  const EmptyDocumentMessage: string := "Cannot save a PDF document with no pages."

  /**
   * The page one file contributes. No page when the bitmap decode fails; a
   * page without an image when only the second decode fails, because the
   * page is added before that decode runs.
   */
  function RenderPage(keepSize: bool, probe: Probe): (r: Option<Page>)
    ensures r.Some? <==> probe.bitmap.Some?
    ensures r.Some? ==> (r.value.image.Some? <==> probe.xImage.Some?)
    ensures r.Some? && keepSize ==>
              && r.value.width == probe.bitmap.value.width as real
              && r.value.height == probe.bitmap.value.height as real
              && (r.value.image.Some? ==> r.value.image.value == Rect(0.0, 0.0, r.value.width, r.value.height))
    ensures r.Some? && !keepSize ==>
              && r.value.width == A4Width && r.value.height == A4Height
              && (r.value.image.Some? ==>
                    FitsPage(r.value.image.value, A4Width, A4Height,
                             probe.xImage.value.width as real, probe.xImage.value.height as real))
  {
    match probe.bitmap
    case None => None
    case Some(img) =>
      var width := if keepSize then img.width as real else A4Width;
      var height := if keepSize then img.height as real else A4Height;
      var image :=
        match probe.xImage
        case None => None
        case Some(x) =>
          if keepSize then Some(Rect(0.0, 0.0, img.width as real, img.height as real))
          else Some(FitToPage(width, height, x.width as real, x.height as real));
      Some(Page(width, height, image))
  }

  /** What the decoders make of each file, in order. */
  function Probes(files: seq<string>, decode: string -> Probe): (r: seq<Probe>)
    ensures |r| == |files|
    ensures forall k :: 0 <= k < |files| ==> r[k] == decode(files[k])
  {
    seq(|files|, k requires 0 <= k < |files| => decode(files[k]))
  }

  /** The pages of the document, one per file whose bitmap decodes, in file order. */
  function RenderedPages(keepSize: bool, probes: seq<Probe>): seq<Page>
    decreases |probes|
  {
    if probes == [] then []
    else
      var last := RenderPage(keepSize, probes[|probes| - 1]);
      RenderedPages(keepSize, probes[..|probes| - 1]) + (if last.Some? then [last.value] else [])
  }

  /** The pages one file adds: none, or the one it renders. */
  function PageOf(keepSize: bool, probe: Probe): seq<Page>
  {
    var page := RenderPage(keepSize, probe);
    if page.Some? then [page.value] else []
  }

  lemma RenderedPagesSnoc(keepSize: bool, probes: seq<Probe>, p: Probe)
    ensures RenderedPages(keepSize, probes + [p]) == RenderedPages(keepSize, probes) + PageOf(keepSize, p)
  {
    assert (probes + [p])[..|probes|] == probes;
  }

  lemma ProbesSnoc(files: seq<string>, i: nat, decode: string -> Probe)
    requires i < |files|
    ensures Probes(files[..i + 1], decode) == Probes(files[..i], decode) + [decode(files[i])]
  {
  }

  /** How many files the bitmap decoder accepts. */
  function DecodedCount(probes: seq<Probe>): (n: nat)
    ensures n <= |probes|
  {
    if probes == [] then 0
    else DecodedCount(probes[..|probes| - 1]) + (if probes[|probes| - 1].bitmap.Some? then 1 else 0)
  }

  /** Rendering distributes over concatenation: each file's page depends on that file only. */
  lemma {:induction false} RenderedPagesAppend(keepSize: bool, a: seq<Probe>, b: seq<Probe>)
    ensures RenderedPages(keepSize, a + b) == RenderedPages(keepSize, a) + RenderedPages(keepSize, b)
    decreases |b|
  {
    if b == [] {
      assert a + b == a;
    } else {
      var init := b[..|b| - 1];
      assert (a + b)[..|a + b| - 1] == a + init;
      assert (a + b)[|a + b| - 1] == b[|b| - 1];
      RenderedPagesAppend(keepSize, a, init);
      var last := RenderPage(keepSize, b[|b| - 1]);
      Sequences.ConcatAssoc(RenderedPages(keepSize, a), RenderedPages(keepSize, init), if last.Some? then [last.value] else []);
    }
  }

  /** The document has one page per file the bitmap decoder accepts. */
  lemma {:induction false} PageCount(keepSize: bool, probes: seq<Probe>)
    ensures |RenderedPages(keepSize, probes)| == DecodedCount(probes)
    decreases |probes|
  {
    if probes != [] {
      PageCount(keepSize, probes[..|probes| - 1]);
    }
  }

  /** A file neither decoder can read is skipped; the pages of the files around it are unaffected. */
  lemma FailedFileSkipped(keepSize: bool, before: seq<Probe>, p: Probe, after: seq<Probe>)
    requires p.bitmap.None?
    ensures RenderedPages(keepSize, before + [p] + after) == RenderedPages(keepSize, before) + RenderedPages(keepSize, after)
  {
    assert [p][..0] == [];
    assert RenderedPages(keepSize, [p]) == [];
    RenderedPagesAppend(keepSize, before, [p]);
    RenderedPagesAppend(keepSize, before + [p], after);
  }

  /** A file only the bitmap decoder reads still leaves a page, with nothing drawn on it. */
  lemma BlankPageOnSecondDecodeFailure(keepSize: bool, before: seq<Probe>, p: Probe, after: seq<Probe>)
    requires p.bitmap.Some? && p.xImage.None?
    ensures RenderedPages(keepSize, before + [p] + after) ==
            RenderedPages(keepSize, before) + [RenderPage(keepSize, p).value] + RenderedPages(keepSize, after)
    ensures RenderPage(keepSize, p).value.image.None?
  {
    assert [p][..0] == [];
    assert RenderedPages(keepSize, [p]) == [RenderPage(keepSize, p).value];
    RenderedPagesAppend(keepSize, before, [p]);
    RenderedPagesAppend(keepSize, before + [p], after);
  }

  /**
   * `ConvertImagesToPdf`: collect the files, fail when there are none, then
   * add a page per file, skipping files whose decode throws; saving fails
   * when no file decoded.
   */
  method ConvertImagesToPdf(fs: FileSystem, inputs: seq<string>, outputPath: string, keepOriginalSize: bool,
                            fileTypes: seq<string>, sortOrder: SortOrder, decode: string -> Probe)
    returns (result: Result<Document>)
    ensures var files := Collected(fs, AllowList(fileTypes), sortOrder, inputs);
            result == if files == [] then Failure(NoImagesMessage)
                      else if DecodedCount(Probes(files, decode)) == 0 then Failure(EmptyDocumentMessage)
                      else Success(Document(outputPath, RenderedPages(keepOriginalSize, Probes(files, decode))))
  {
    var imageFiles := CollectImageFiles(fs, inputs, fileTypes, sortOrder);
    if |imageFiles| == 0 {
      return Failure(NoImagesMessage);
    }
    var pages: seq<Page> := [];
    for i := 0 to |imageFiles|
      invariant pages == RenderedPages(keepOriginalSize, Probes(imageFiles[..i], decode))
    {
      var probe := decode(imageFiles[i]);
      ghost var before := pages;
      match probe.bitmap {
        case None =>
          // the decode threw: the file is reported and skipped
        case Some(img) =>
          var page :=
            if keepOriginalSize then Page(img.width as real, img.height as real, None)
            else Page(A4Width, A4Height, None);
          pages := pages + [page];
          match probe.xImage {
            case None =>
              // the second decode threw after the page was added
            case Some(x) =>
              var rect :=
                if keepOriginalSize then Rect(0.0, 0.0, img.width as real, img.height as real)
                else FitToPage(page.width, page.height, x.width as real, x.height as real);
              pages := pages[|pages| - 1 := page.(image := Some(rect))];
          }
      }
      assert pages == before + PageOf(keepOriginalSize, probe);
      ProbesSnoc(imageFiles, i, decode);
      RenderedPagesSnoc(keepOriginalSize, Probes(imageFiles[..i], decode), probe);
    }
    assert imageFiles[..|imageFiles|] == imageFiles;
    PageCount(keepOriginalSize, Probes(imageFiles, decode));
    if |pages| == 0 {
      // `document.Save` throws on a document without pages
      return Failure(EmptyDocumentMessage);
    }
    return Success(Document(outputPath, pages));
  }

  /** `-h` or `--help` occurred with no value after it. */
  ghost predicate HelpRequested(args: seq<string>): (r: bool)
    ensures r ==> "-h" in args || "--help" in args
  {
    if "--help" in FlagsOf(Segments(args)) then FlagIsToken(args, "--help"); true
    else if "-h" in FlagsOf(Segments(args)) then FlagIsToken(args, "-h"); true
    else false
  }

  /** A bare `-h` anywhere on the command line shows the help, whatever else is given. */
  lemma HelpAnywhere(before: seq<string>, after: seq<string>)
    requires after == [] || IsOption(after[0])
    ensures HelpRequested(before + ["-h"] + after)
  {
    BareOptionIsFlag(before, "-h", after);
  }

  /**
   * `Main`. `answeredYes` is the user's answer to the prompt shown when the
   * command line is empty; `parser` is the parser `Main` builds.
   */
  method Run(args: seq<string>, cwd: string, answeredYes: bool, fs: FileSystem, decode: string -> Probe)
    returns (exitCode: int, outcome: Outcome, parser: CommandLineParser)
    ensures fresh(parser) && parser.args == args && parser.Valid()
    ensures exitCode == if outcome.Failed? then 1 else 0
    ensures outcome.ShowedHelp? <==> HelpRequested(args) || (args == [] && !answeredYes)
    ensures !outcome.ShowedHelp? ==>
              var c := ResolveConfig(parser, cwd);
              var files := Collected(fs, AllowList(c.fileTypes), c.sortOrder, c.inputs);
              outcome == if files == [] then Failed(NoImagesMessage)
                         else if DecodedCount(Probes(files, decode)) == 0 then Failed(EmptyDocumentMessage)
                         else Saved(Document(c.output, RenderedPages(c.keepSize, Probes(files, decode))))
  {
    parser := new CommandLineParser(args);
    if parser.HasFlag("--help") || parser.HasFlag("-h") {
      return 0, ShowedHelp, parser;
    }
    if |args| == 0 && !answeredYes {
      return 0, ShowedHelp, parser;
    }
    var config := ResolveConfig(parser, cwd);
    var result := ConvertImagesToPdf(fs, config.inputs, config.output, config.keepSize,
                                     config.fileTypes, config.sortOrder, decode);
    match result {
      case Success(document) => return 0, Saved(document), parser;
      case Failure(message) => return 1, Failed(message), parser;
    }
  }
}
