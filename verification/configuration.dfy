/**
 * Resolution of the run configuration from the parsed command line: each
 * setting is looked up under its short name first, then its long name, and
 * falls back to its default.
 */
module Configuration {
  import opened Wrappers
  import opened Text
  import opened CommandLine
  import opened Collector

  /** The resolved settings of one run. */
  datatype Config = Config(
    inputs: seq<string>,
    output: string,
    keepSize: bool,
    fileTypes: seq<string>,
    sortOrder: SortOrder)

  /** A file type as the user wrote it, turned into the form extensions are compared in: lower case with a leading '.'. */
  function NormalizeExtension(fileType: string): (r: string)
    ensures |r| > 0 && r[0] == '.'
    ensures IsLower(r)
  {
    ToLowerIsLower(fileType);
    if |fileType| > 0 && fileType[0] == '.' then ToLower(fileType)
    else
      ToLowerAppend(".", fileType);
      "." + ToLower(fileType)
  }

  /** Normalizing an already normalized file type changes nothing. */
  lemma NormalizeIdempotent(fileType: string)
    ensures NormalizeExtension(NormalizeExtension(fileType)) == NormalizeExtension(fileType)
  {
    LowerOfLower(NormalizeExtension(fileType));
  }

  /** The result depends neither on the letter case of the file type nor on whether it was written with its '.'. */
  lemma NormalizeIgnoresCaseAndDot(fileType: string)
    ensures NormalizeExtension(ToLower(fileType)) == NormalizeExtension(fileType)
    ensures (|fileType| == 0 || fileType[0] != '.') ==> NormalizeExtension("." + fileType) == NormalizeExtension(fileType)
  {
    LowerOfLower(fileType);
    ToLowerAppend(".", fileType);
  }

  /** The `-t` values, each normalized, in order. */
  function NormalizeAll(fileTypes: seq<string>): (r: seq<string>)
    ensures |r| == |fileTypes|
    ensures forall k :: 0 <= k < |r| ==> r[k] == NormalizeExtension(fileTypes[k])
  {
    seq(|fileTypes|, k requires 0 <= k < |fileTypes| => NormalizeExtension(fileTypes[k]))
  }

  /** A type given as `png`, `PNG` or `.png` admits a file whose extension is `.png` in any letter case. */
  lemma FileTypeAdmits(fileType: string, path: string)
    requires Extension(path) != ""
    requires ToLower(Extension(path)[1..]) == ToLower(fileType)
    requires fileType == "" || fileType[0] != '.'
    ensures Allowed(NormalizeAll([fileType]), path)
    ensures Allowed(NormalizeAll(["." + fileType]), path)
  {
    var e := Extension(path);
    assert e == "." + e[1..];
    ToLowerAppend(".", e[1..]);
    assert ToLower(".") == ".";
    assert ToLower(e) == NormalizeExtension(fileType);
    NormalizeIgnoresCaseAndDot(fileType);
    assert NormalizeAll([fileType])[0] == NormalizeExtension(fileType);
    assert NormalizeAll(["." + fileType])[0] == NormalizeExtension("." + fileType);
  }

  /** The `-s` keyword, matched without regard to letter case; an unknown keyword leaves the order by name. */
  function SortKeyword(keyword: string): (r: SortOrder)
    ensures r == ModifiedTime <==> ToLower(keyword) in {"time", "modified", "mtime"}
    ensures r == CreationTime <==> ToLower(keyword) in {"created", "ctime"}
    ensures r == FileName <==> ToLower(keyword) !in {"time", "modified", "mtime", "created", "ctime"}
  {
    var k := ToLower(keyword);
    if k == "time" || k == "modified" || k == "mtime" then ModifiedTime
    else if k == "created" || k == "ctime" then CreationTime
    else FileName
  }

  /** The sort order for the chosen `-s` value: by name when the value is absent or empty. */
  function SortOrderOf(value: Option<string>): (r: SortOrder)
    ensures r == ModifiedTime <==> value.Some? && ToLower(value.value) in {"time", "modified", "mtime"}
    ensures r == CreationTime <==> value.Some? && ToLower(value.value) in {"created", "ctime"}
  {
    if value.Some? && value.value != "" then SortKeyword(value.value) else FileName
  }

  /** Only the letters of the keyword matter, not their case. */
  lemma SortKeywordIgnoresCase(keyword: string)
    ensures SortKeyword(ToLower(keyword)) == SortKeyword(keyword)
  {
    LowerOfLower(keyword);
  }

  /** The keep-size setting for the chosen `-k` value: true unless the value parses as the boolean false. */
  function KeepSizeOf(value: Option<string>): (r: bool)
    ensures !r <==> value.Some? && TryParseBool(value.value) == Some(false)
  {
    if value.Some? && value.value != "" && TryParseBool(value.value).Some? then TryParseBool(value.value).value
    else true
  }

  /** The input paths: the `-i` values, else the `--input` values, else the working directory alone. */
  function ResolveInputs(parser: CommandLineParser, cwd: string): (r: seq<string>)
    reads parser
    requires parser.Valid()
    ensures |r| > 0
    ensures parser.HasOption("-i") ==> r == parser.GetOptionValues("-i").value
    ensures !parser.HasOption("-i") && parser.HasOption("--input") ==> r == parser.GetOptionValues("--input").value
    ensures !parser.HasOption("-i") && !parser.HasOption("--input") ==> r == [cwd]
  {
    if parser.HasOption("-i") || parser.HasOption("--input") then
      OrElse(parser.GetOptionValues("-i"), parser.GetOptionValues("--input")).value
    else [cwd]
  }

  /**
   * The output path: the first `-o` value, else the first `--output` value,
   * else `output.pdf` in the working directory. An empty chosen value also
   * falls back to the default, without consulting `--output`.
   */
  function ResolveOutput(parser: CommandLineParser, cwd: string): (r: string)
    reads parser
    requires parser.Valid()
    ensures r != ""
    ensures parser.HasOption("-o") ==>
              r == if parser.GetOptionValue("-o").value != "" then parser.GetOptionValue("-o").value else JoinPath(cwd, "output.pdf")
    ensures !parser.HasOption("-o") && parser.HasOption("--output") ==>
              r == if parser.GetOptionValue("--output").value != "" then parser.GetOptionValue("--output").value else JoinPath(cwd, "output.pdf")
    ensures !parser.HasOption("-o") && !parser.HasOption("--output") ==> r == JoinPath(cwd, "output.pdf")
  {
    var output := OrElse(parser.GetOptionValue("-o"), parser.GetOptionValue("--output"));
    if output.Some? && output.value != "" then output.value else JoinPath(cwd, "output.pdf")
  }

  /** Whether images keep their own size: false only when the chosen `-k`/`--keep-size` value parses as false. */
  function ResolveKeepSize(parser: CommandLineParser): (r: bool)
    reads parser
    requires parser.Valid()
    ensures parser.HasOption("-k") ==> (!r <==> TryParseBool(parser.GetOptionValue("-k").value) == Some(false))
    ensures !parser.HasOption("-k") && parser.HasOption("--keep-size") ==>
              (!r <==> TryParseBool(parser.GetOptionValue("--keep-size").value) == Some(false))
    ensures !parser.HasOption("-k") && !parser.HasOption("--keep-size") ==> r
  {
    KeepSizeOf(OrElse(parser.GetOptionValue("-k"), parser.GetOptionValue("--keep-size")))
  }

  /** The file types to accept: the normalized `-t` values, else the normalized `--type` values, else none (meaning the default list). */
  function ResolveFileTypes(parser: CommandLineParser): (r: seq<string>)
    reads parser
    requires parser.Valid()
    ensures r == [] <==> !parser.HasOption("-t") && !parser.HasOption("--type")
    ensures parser.HasOption("-t") ==> r == NormalizeAll(parser.GetOptionValues("-t").value)
    ensures !parser.HasOption("-t") && parser.HasOption("--type") ==> r == NormalizeAll(parser.GetOptionValues("--type").value)
  {
    if parser.HasOption("-t") || parser.HasOption("--type") then
      NormalizeAll(OrElse(parser.GetOptionValues("-t"), parser.GetOptionValues("--type")).value)
    else []
  }

  /** The sort order: from the first `-s` value, else the first `--sort` value, else by name. */
  function ResolveSortOrder(parser: CommandLineParser): (r: SortOrder)
    reads parser
    requires parser.Valid()
    ensures parser.HasOption("-s") ==> r == SortKeyword(parser.GetOptionValue("-s").value)
    ensures !parser.HasOption("-s") && parser.HasOption("--sort") ==> r == SortKeyword(parser.GetOptionValue("--sort").value)
    ensures !parser.HasOption("-s") && !parser.HasOption("--sort") ==> r == FileName
  {
    SortOrderOf(OrElse(parser.GetOptionValue("-s"), parser.GetOptionValue("--sort")))
  }

  /** `Main`'s option lookups, gathered into one configuration. */
  function ResolveConfig(parser: CommandLineParser, cwd: string): (c: Config)
    reads parser
    requires parser.Valid()
    ensures |c.inputs| > 0 && c.output != ""
    ensures forall k :: 0 <= k < |c.fileTypes| ==> |c.fileTypes[k]| > 0 && c.fileTypes[k][0] == '.' && IsLower(c.fileTypes[k])
  {
    Config(ResolveInputs(parser, cwd), ResolveOutput(parser, cwd), ResolveKeepSize(parser),
           ResolveFileTypes(parser), ResolveSortOrder(parser))
  }
}
