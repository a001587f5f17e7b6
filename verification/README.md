# img2pdf in Dafny

img2pdf is a command-line tool that turns image files into one PDF document,
one page per image. It does four things:

1. It parses the command line into options and flags.
2. It resolves the run's settings from them: inputs, output path, keep-size
   mode, file-type filter and sort order.
3. It collects the image files from the input files and directories.
4. It renders one page per image, either at the image's own size or fitted
   onto an A4 page, and saves the document.

This project models those steps and proves what each one promises.

Modules:

- `CommandLine`: the `CommandLineParser` class.
  - Its constructor runs the program's single pass over the arguments.
  - It keeps a `map` of options and a `set` of flags as fields.
  - Both are specified by a reading of the token stream into occurrences
    (`Segments`): an option token followed by the non-option tokens after it.
  - The option map holds the last occurrence of each name that carried
    values. The flag set holds every name that occurred without values.
- `Configuration`: `Main`'s lookups. Each setting is looked up under its short
  name, then its long name (C#'s `??`), and otherwise falls back to its
  default. It also normalises file types and maps sort keywords.
- `Collector`: `CollectImageFiles` over an abstract file system, a map from
  path to file or directory.
  - A directory is filtered by extension and then stably sorted, as LINQ's
    `OrderBy` sorts.
  - The inputs' contributions are concatenated in input order.
- `Layout`: the fit-to-page geometry, in exact `real` arithmetic.
- `Pipeline`: the render loop of `ConvertImagesToPdf` and the control flow of
  `Main`: help, the empty-command-line prompt, exit codes.
  - The two image decoders are an oracle: a function from a path to what
    each decoder makes of that file.
- `Text`: the .NET string and path primitives the tool relies on:
  `ToLowerInvariant`, `Path.GetExtension`, `Path.Combine`, `bool.TryParse`,
  and string order (ordinal order stands in for the culture-sensitive default
  comparer; see "Left out").
- `Wrappers`, `Sequences`: `Option`/`Result` and small sequence facts.

Notes on the code:

- An option name can be both a flag and valued: for `-a -a x`, `-a` is a flag
  and also has the values `[x]` (`CommandLine.FlagAndOptionTogether`).
- Saving has no fallback: any save error ends the run with exit code 1.
- When every collected file fails to decode, the document has no pages.
  PdfSharp's `Save` throws on such a document, so the run ends with exit
  code 1 (`Pipeline.ConvertImagesToPdf` returns `EmptyDocumentMessage`).
- The `inputs.Count > 0` and `types.Count > 0` guards in `Main` can never be
  false. The parser stores only non-empty value lists; `GetOptionValues`
  states this. The model leaves those dead branches out.

## Model

| member | source | states |
|---|---|---|
| `CommandLine.CommandLineParser.constructor` | Program.cs:159-205 | After one pass over the arguments, the option map holds each name's last valued occurrence and the flag set holds every name that occurred without values (`Valid`). The loop invariant ties the partial state to the reading of the prefix. |
| `CommandLine.CommandLineParser.HasFlag` | Program.cs:207-210 | True exactly when the name occurs on the command line with no values after it. |
| `CommandLine.CommandLineParser.HasOption` | Program.cs:212-215 | True exactly when some occurrence of the name carries at least one value. |
| `CommandLine.CommandLineParser.GetOptionValues` | Program.cs:226-233 | Present exactly when `HasOption` holds. It is then the non-empty value list of the last valued occurrence. |
| `CommandLine.CommandLineParser.GetOptionValue` | Program.cs:217-224 | Present exactly when `HasOption` holds. It is then the first value of the last valued occurrence. |
| `CommandLine.IsOption` | Program.cs:166 | A token opens an option exactly when it has `-` as a prefix. |
| `CommandLine.FlagIsToken` | Program.cs:164-204 | Every flag the parser records is one of the command-line tokens. |
| `CommandLine.Lead` | Program.cs:164-190 | The count of tokens before the first option token. All of them are non-options, and the token at that position is an option. |
| `CommandLine.SegmentsPartition` | Program.cs:164-190 | The occurrences spell out exactly the tokens from the first option token on, in order. Leading non-option tokens are the only ones dropped. |
| `CommandLine.SegmentsWellFormed` | Program.cs:166-190 | Every occurrence is named by a token starting with '-'. No value starts with '-'. |
| `CommandLine.LeadingValuesIgnored` | Program.cs:186-190 | Non-option tokens before the first option are ignored. |
| `CommandLine.SegmentsAppend` | Program.cs:164-190 | The reading splits at any option token: tokens before it never reach past it. |
| `CommandLine.OptionRun` | Program.cs:166-190 | An option token followed by non-option tokens is one occurrence holding exactly those tokens, in order. |
| `CommandLine.Occurrence` | Program.cs:164-204 | Such a run inside any command line (followed by an option or by the end) is read as one occurrence, and the reading of the rest is unchanged. |
| `CommandLine.LastValuesIsLastOccurrence` | Program.cs:169-179 | The stored values are absent exactly when no occurrence of the name carried values. Otherwise they are those of an occurrence after which no valued occurrence of the name follows. |
| `CommandLine.LastValuesAppend` | Program.cs:178 | A later valued occurrence overrides everything before it. |
| `CommandLine.OptionsOfSnoc` | Program.cs:171-179 | Closing an occurrence with values sets the name's entry to them. One without values leaves the option map unchanged. |
| `CommandLine.FlagsOfSnoc` | Program.cs:171-179 | Closing an occurrence without values adds its name to the flags. One with values leaves the flags unchanged. |
| `CommandLine.OptionsOfValues` | Program.cs:176-179 | A name is in the option map exactly when it has a valued occurrence, and its list is never empty. |
| `CommandLine.FlagsOfGrow` | Program.cs:174 | Flags are never removed by later tokens. |
| `CommandLine.LastOccurrenceWins` | Program.cs:176-179 | When an option is given twice with values, the second list replaces the first entirely. |
| `CommandLine.BareOptionIsFlag` | Program.cs:171-175 | An option followed by another option, or by nothing, becomes a flag. |
| `CommandLine.FlagAndOptionTogether` | Program.cs:169-179 | For any option `-a` and value `x`, the command line `-a -a x` makes `-a` both a flag and an option with values `[x]`. |
| `Configuration.ResolveInputs` | Program.cs:67-80 | The input list is the `-i` values, else the `--input` values, else the working directory alone. It is never empty. |
| `Configuration.ResolveOutput` | Program.cs:82-88 | The output path is the first `-o` value, else the first `--output` value, else `output.pdf` under the working directory. An empty chosen value falls back to the default. The result is never empty. |
| `Configuration.KeepSizeOf` | Program.cs:90-96 | Keep-size is false exactly when a value was given and `bool.TryParse` reads it as false. Every other value, and no value, means true. |
| `Configuration.ResolveKeepSize` | Program.cs:90-96 | As `KeepSizeOf`, with `-k` taking precedence over `--keep-size`. |
| `Configuration.NormalizeExtension` | Program.cs:109 | A normalised file type starts with '.' and has no upper-case letters. |
| `Configuration.NormalizeIdempotent` | Program.cs:109 | Normalising twice is normalising once. |
| `Configuration.NormalizeIgnoresCaseAndDot` | Program.cs:109 | Letter case and a missing leading '.' do not change the normalised type. |
| `Configuration.NormalizeAll` | Program.cs:105-111 | Each given type is normalised, in order, and none is dropped. |
| `Configuration.FileTypeAdmits` | Program.cs:109 | A type written as `png` or `.png`, in any case, admits a file whose extension is `.png` in any case. |
| `Configuration.ResolveFileTypes` | Program.cs:98-112 | The filter is empty exactly when neither `-t` nor `--type` has values. Otherwise it is the normalised `-t` list, else the normalised `--type` list. |
| `Configuration.SortKeyword` | Program.cs:120-133 | A keyword selects modification-time order exactly when, lower-cased, it is `time`, `modified` or `mtime`; creation-time order exactly for `created` or `ctime`; name order for every other keyword, `name` included. |
| `Configuration.SortOrderOf` | Program.cs:114-133 | Modification-time order exactly for `time`, `modified` and `mtime`, in any case. Creation-time order exactly for `created` and `ctime`. Name order for anything else or no value. |
| `Configuration.SortKeywordIgnoresCase` | Program.cs:120 | The keyword's letter case does not matter. |
| `Configuration.ResolveSortOrder` | Program.cs:114-133 | `-s` takes precedence over `--sort`. Absent both, files are sorted by name. |
| `Configuration.ResolveConfig` | Program.cs:67-133 | The resolved configuration always has inputs and an output path. Every file type is lower case and starts with '.'. |
| `Text.ToLower` | Program.cs:109 | `ToLowerInvariant` keeps the length, turns each ASCII capital into its lower-case letter and leaves every other character alone. |
| `Text.ToLowerIsLower` | Program.cs:109 | `ToLowerInvariant` keeps the length and leaves no upper-case letters. |
| `Text.LowerOfLower` | Program.cs:109 | Lower-casing is idempotent and leaves lower-case text alone. |
| `Text.Extension` | Program.cs:384 | `Path.GetExtension` gives either nothing or a suffix of the path's last component, made of '.' and at least one more character, with no other '.'. Conversely, whenever the path ends in such a suffix, that suffix is the extension; so the result is empty exactly when the path has no such suffix. |
| `Text.ExtensionScanFinds` | Program.cs:384 | The backward scan for the extension stops at the last '.' of the last component and returns the suffix from it. |
| `Text.JoinPath` | Program.cs:88 | `Path.Combine` is the directory followed by the file name, with a `\` between them unless the directory is empty or already ends in a separator. |
| `Text.TryParseBool` | Program.cs:94 | `bool.TryParse` gives true exactly when the trimmed text, lower-cased, is `true`; false exactly when it is `false`; and fails for every other text. |
| `Text.TrimStart` | Program.cs:94 | The trimmed text is a suffix of the input, everything removed is blank, and it does not start with a blank: exactly the leading blanks are removed. |
| `Text.TrimEnd` | Program.cs:94 | The trimmed text is a prefix of the input, everything removed is blank, and it does not end with a blank: exactly the trailing blanks are removed. |
| `Text.TrimStartBlanks` | Program.cs:94 | Blanks followed by a word that does not start with a blank trim to exactly that word. |
| `Text.TrimEndBlanks` | Program.cs:94 | A word that does not end with a blank, followed by blanks, trims to exactly that word. |
| `Text.BoolParseIgnoresBlanks` | Program.cs:94 | `bool.TryParse` gives the same result with or without blanks around the word. |
| `Text.BoolParseIgnoresCase` | Program.cs:94 | `bool.TryParse` gives the same result for a value and its lower-cased form. |
| `Text.BoolParseFalse` | Program.cs:94 | `bool.TryParse` reads `False` as false, so `-k False` turns keep-size off. |
| `Text.BoolParseRefusesYes` | Program.cs:94 | `bool.TryParse` rejects `yes`, so `-k yes` keeps the default. |
| `Text.LexLeTotal` | Program.cs:408 | Ordinal order on paths, which the model uses for the name sort, is total. |
| `Text.LexLeTransitive` | Program.cs:408 | Ordinal order on paths is transitive. |
| `Text.LexLeAntisymmetric` | Program.cs:408 | Ordinal order on paths is antisymmetric. |
| `Collector.KeyOfCompares` | Program.cs:398-410 | Name order compares the full paths, modification-time order the last-write times, creation-time order the creation times. |
| `Collector.KeyLeTotal` | Program.cs:398-410 | The sort key comparison is total for each order. |
| `Collector.KeyLeTransitive` | Program.cs:398-410 | The sort key comparison is transitive. |
| `Collector.AllowList` | Program.cs:375-377 | The given file types, or exactly `.png`, `.jpg`, `.jpeg`, `.bmp`, `.gif`, `.tiff` when none were given. |
| `Collector.AllowedByExtension` | Program.cs:384-385 | A path ending in an extension passes exactly when that extension, lower-cased, is allowed. A path without one passes only when the empty string is allowed. |
| `Collector.FilterAllowed` | Program.cs:393-394 | A directory's entries are kept exactly when their lower-cased extension is allowed. None is added or duplicated. |
| `Collector.FilterAllowedAppend` | Program.cs:393-394 | Filtering keeps enumeration order: the filter of a split listing is the two filters joined. |
| `Collector.Insert` | Program.cs:397-410 | Inserting into a sorted list keeps it sorted and adds exactly one entry. |
| `Collector.InsertStable` | Program.cs:397-410 | The inserted entry goes after every earlier entry with an equal key. |
| `Collector.SortEntries` | Program.cs:397-410 | The sorted listing is ordered by the key and is a permutation of the filtered listing. |
| `Collector.SortEntriesStable` | Program.cs:397-410 | Entries with equal keys keep their enumeration order (`OrderBy` is stable). |
| `Collector.CollectImageFiles` | Program.cs:372-421 | The method returns, input by input, each input's contribution: an allowed file itself, a directory's filtered and sorted entries, or nothing for a missing path. The loop invariant keeps this for each prefix of the inputs. |
| `Collector.CollectedAppend` | Program.cs:379-418 | The collected list concatenates the inputs' contributions. Nothing is sorted across inputs. |
| `Collector.MissingInputIgnored` | Program.cs:414-417 | A path that does not exist contributes nothing, so removing it changes nothing. |
| `Collector.FileInputKept` | Program.cs:381-389 | A regular-file input appears at its own place exactly when its extension is allowed. |
| `Collector.DirectoryContribution` | Program.cs:390-413 | A directory contributes a permutation of its allowed entries, sorted by the key, with ties in enumeration order. |
| `Collector.Contribution` | Program.cs:381-417 | A missing path contributes nothing. A regular file contributes itself exactly when its extension is allowed, and nothing otherwise. A directory contributes at most as many paths as it holds. |
| `Collector.ContributionAllowed` | Program.cs:381-413 | Every path one input contributes passes the extension filter. |
| `Collector.CollectedAllowed` | Program.cs:372-421 | Every collected path passes the extension filter. |
| `Layout.Scale` | Program.cs:338 | The scale is positive and keeps the scaled image within the page in both dimensions. The image then reaches one edge. |
| `Layout.ScaleIsLargest` | Program.cs:338 | No larger uniform scale keeps the image within the page. |
| `Layout.FitToPage` | Program.cs:331-346 | The drawn rectangle is positive, lies on the page, keeps the image's aspect ratio, is centred, and spans the page in one dimension. |
| `Layout.FitIsUnique` | Program.cs:331-346 | Those conditions determine the rectangle: any rectangle meeting them is the one drawn. |
| `Layout.FitOfPageSizedImage` | Program.cs:331-346 | An image of the page's own size covers the whole page. |
| `Pipeline.RenderPage` | Program.cs:301-348 | A file yields a page exactly when the first decode succeeds. The page has an image exactly when the second decode also succeeds. In keep-size mode the page has the bitmap's size and the image covers it. Otherwise the page is A4 and the image is fitted to it. |
| `Pipeline.DecodedCount` | Program.cs:293-356 | At most one page per file. |
| `Pipeline.RenderedPagesAppend` | Program.cs:293-356 | Each file's page depends on that file alone. Pages follow file order. |
| `Pipeline.PageCount` | Program.cs:293-356 | The document has as many pages as files the first decoder accepts. |
| `Pipeline.FailedFileSkipped` | Program.cs:352-355 | A file whose decode throws is skipped, and the other files' pages are unchanged. |
| `Pipeline.BlankPageOnSecondDecodeFailure` | Program.cs:307-322 | If only the second decode fails, the page already added stays, with nothing drawn on it. |
| `Pipeline.ConvertImagesToPdf` | Program.cs:269-362 | The method fails with the no-images error exactly when collection yields no files. It fails with PdfSharp's empty-document error when files were collected but none decoded, because `Save` refuses a document without pages. Otherwise the document at the output path holds the rendered pages of the collected files, in order. The loop invariant ties the pages to the files seen so far. |
| `Pipeline.HelpRequested` | Program.cs:34 | Help is requested only when `-h` or `--help` is one of the command-line tokens. |
| `Pipeline.HelpAnywhere` | Program.cs:34-38 | A bare `-h` anywhere on the command line shows the help. |
| `Pipeline.Run` | Program.cs:23-149 | Help is shown (exit code 0) exactly when `-h`/`--help` is a flag, or the command line is empty and the user does not answer yes. Otherwise the run converts with the resolved configuration: no files, or no file that decodes, ends in failure. The exit code is 1 exactly on failure. |

## Left out

- Console output is not modelled. That covers the usage text (`ShowHelp`),
  the prompt text, progress counters, warnings for missing paths, per-file
  error messages and the success line. The prompt's answer is a boolean
  parameter of `Run`, true meaning "Y".
- The image decoders (`System.Drawing.Image.FromFile`, `XImage.FromFile`) are
  modelled as an oracle from path to decode result. Failures of other library
  calls inside the loop are not modelled: `XGraphics.FromPdfPage` and
  `DrawImage`.
- `Directory.CreateDirectory`, `document.Save` and the encoding-provider
  registration are not modelled. The document is returned instead of written.
  Of `Save`'s failures only the refusal of a document without pages is
  modelled. PdfSharp is not part of this model; that rule and its message
  text follow the library's behaviour. Other library failures there would end
  the run with exit code 1.
- `Run` shows only the no-images and empty-document failures. It does not
  model other exceptions that the catch in `Main` turns into exit code 1.
- Floating point: the geometry uses exact real numbers, so IEEE rounding of
  the scale and the centring is not captured.
- The fit-mode page is fixed at A4, 595 × 842 points. PdfSharp's
  region-dependent default page size (Letter, 612 × 792, where the region is
  not metric) is not modelled.
- Text is handled character by character, with ASCII-only lower-casing. The
  invariant culture's case mapping of non-ASCII letters and UTF-16 surrogate
  pairs are not modelled. The culture-sensitive default comparison of
  `OrderBy(f => f)` is replaced by ordinal code-point order; letter-case order
  and ignorable characters differ. `bool.TryParse` trims ASCII white
  space and NUL only, not other Unicode white space.
- `CommandLine.IsOption` and `Configuration.NormalizeExtension` test only the
  first character. The `StartsWith` calls they model (Program.cs:166 and 109)
  use the current culture's comparison, under which a leading ignorable
  character such as U+00AD still matches; that case is not modelled.
- Timestamps are whole numbers of ticks. Their time zone and resolution are
  not modelled.
- Paths use Windows conventions ('\' and '/' as separators). `Path.Combine`
  is modelled only for a relative file name, the one case the program uses.
  Device and UNC path forms are not modelled.
- `Directory.GetFiles` enumeration order is part of the file-system model,
  not derived from the operating system.
