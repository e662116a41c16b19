# webshot string handling, in Dafny

`webshot.py` takes full-page screenshots of a list of URLs with a headless
browser. The browser work is a third-party library. The tool's own logic is
how it handles strings, and that is what this project models:

- `sanitize` turns any string into a file-name stem. Every maximal run of
  characters outside `[\w.-]` becomes one `_`. Then `_` is stripped from both
  ends, and the result is cut to 180 characters (`names.dfy`, module `Names`).
- `read_urls` strips each line of the URL list. It keeps the non-empty lines
  that do not start with `#` (`url_list.dfy`, module `UrlList`). The input is
  the sequence of lines, not the file.
- The `--viewport` option is lower-cased and split on `x` into exactly two
  parts, and `int()` must accept both (`viewport.dfy`, module `Viewport`).
  `None` stands for the ValueError that ends the program. `int()` refuses
  literals of more than 4300 digits, CPython's default limit, which the
  program does not change.
- The per-URL output name (`output_names.dfy`, module `OutputNames`):
  - the base is the host, `_`, and the path with every `/` turned into `_`;
  - when the decoded fragment is non-empty, the base gets `_` plus the
    sanitized fragment cut to 60 characters;
  - the base is sanitized, and `page` is used if nothing is left;
  - a screenshot is saved as `<stem>.png`, a failure as `ERROR_<sanitize(url)>.txt`.

  The loop over the URL list leaves one of those two files per URL. A failed
  capture does not stop the loop, but an error report that cannot be written
  raises out of the loop and ends the run.
- `text.dfy` (module `Text`) holds the Python `str` operations these use:
  `strip`, `lower`, `split`, `replace` and `[:n]`. `wrappers.dfy` holds `Option`.

Three consequences of the code are worth spelling out:
- The URL `https://example.com/a/b#Section%20One` gets the stem
  `example.com__a_b_Section_One`, with two underscores. The path keeps its
  leading `/`, which becomes a second `_`, and `sanitize` never merges
  underscores (`OutputNames.ExampleName`).
- The fragment is sanitized first and cut to 60 characters second
  (`OutputNames.FragmentSanitizedBeforeCut`).
- `sanitize` can end in `_`, because the cut at 180 comes after the strip.
  So it is idempotent only when its result does not end in `_`.
  `Names.TruncationCanEndInUnderscore` shows an input where sanitizing twice
  differs from sanitizing once.

## Model

| member | source | states |
|---|---|---|
| `Names.Sanitize` | webshot.py:5-6 | the result is at most 180 characters, every character is in `[\w.-]`, and it never starts with `_` |
| `Names.Collapse` | webshot.py:6 | the substitution outputs only `[\w.-]` characters, is never longer than its input, and is empty exactly when the input is |
| `Names.ForeignRunCollapses` | webshot.py:6 | a maximal run of characters outside `[\w.-]` at the front becomes exactly one `_` |
| `Names.CollapseRun` | webshot.py:6 | a maximal run of characters outside `[\w.-]` between kept characters becomes exactly one `_` |
| `Names.CollapseNamePrefix` | webshot.py:6 | a prefix made only of `[\w.-]` characters passes through the substitution unchanged |
| `Names.CollapseIdentity` | webshot.py:6 | the substitution leaves a string made only of `[\w.-]` characters unchanged |
| `Names.CollapseKeepsSignificant` | webshot.py:6 | the substitution keeps every letter, digit, `.` and `-` of the input in order and adds none |
| `Names.SanitizeKeepsSignificant` | webshot.py:6 | the letters, digits, `.` and `-` of the result are a prefix of the input's, and all of them when the input has at most 180 characters |
| `Names.SanitizeFixedPoint` | webshot.py:6 | `sanitize(s) == s` if and only if `s` has at most 180 characters, all in `[\w.-]`, and does not start or end with `_` |
| `Names.SanitizeIdempotent` | webshot.py:6 | sanitizing twice equals sanitizing once if and only if the first result is empty or does not end in `_` |
| `Names.TruncationCanEndInUnderscore` | webshot.py:6 | 179 `a`s then `_b` sanitizes to 179 `a`s then `_`, and sanitizing that again changes it |
| `Names.SanitizeGap` | webshot.py:6 | two clean words separated by characters outside `[\w.-]` sanitize to the words joined by one `_` |
| `Names.SanitizedJoin` | webshot.py:6 | two sanitized words joined by `_` are still sanitized while within 180 characters |
| `Text.LeadingCount` | webshot.py:6 | `lstrip` removes a prefix made only of stripped characters and stops at the first character it keeps |
| `Text.TrailingCount` | webshot.py:6 | `rstrip` removes a suffix made only of stripped characters and stops at the last character it keeps |
| `Text.Trim` | webshot.py:11 | `strip` is never longer than its input, and neither end of the result is a stripped character |
| `Text.TrimKeeps` | webshot.py:6 | stripping loses none of the characters that are never stripped |
| `Text.FilterConcat` | webshot.py:6 | selecting characters from a concatenation concatenates the selections |
| `Text.TrimIdentity` | webshot.py:6 | a string whose ends are not stripped characters is its own `strip` |
| `Text.TakeKeeps` | webshot.py:6 | the characters kept from a `[:n]` slice are a prefix of those kept from the whole |
| `Text.Take` | webshot.py:6 | `s[:n]` is a prefix of `s`, at most `n` long, and all of `s` when `s` is short enough |
| `Text.LowerChar` | webshot.py:23 | `lower()` maps a capital to the small letter at the same place in the alphabet and leaves every other character alone |
| `Text.Lower` | webshot.py:23 | `lower()` keeps the length, changes only capitals, leaves no capital, and a position holds `x` afterwards exactly when it held `x` or `X` |
| `Text.LowerIdempotent` | webshot.py:23 | lower-casing twice is lower-casing once |
| `Text.Split` | webshot.py:23 | `split(sep)` gives one part more than there are separators, and no part holds a separator |
| `Text.JoinSplit` | webshot.py:23 | joining the parts of a split with the separator gives back the string |
| `Text.SplitJoin` | webshot.py:23 | splitting a join of separator-free parts gives back the parts |
| `Text.ReplaceChar` | webshot.py:33 | `replace("/", "_")` keeps the length, keeps every character other than `/`, turns each `/` into `_`, and leaves no `/` |
| `Text.ReplaceUnchanged` | webshot.py:33 | `replace` returns its input exactly when the two characters are equal or the one to replace does not occur |
| `UrlList.ReadUrls` | webshot.py:8-13 | the loop returns exactly `KeptUrls(lines)` |
| `UrlList.KeptUrls` | webshot.py:10-13 | there are at most as many URLs as lines, and each is non-empty, does not start with `#`, and has no whitespace at either end |
| `UrlList.Stripped` | webshot.py:11 | `line.strip()` is no longer than the line and has no whitespace at either end |
| `UrlList.KeptUrlsFromLines` | webshot.py:10-13 | the k-th URL is the stripped form of the line at the k-th kept position |
| `UrlList.PositionsIncrease` | webshot.py:10-13 | the positions a line filter keeps are line numbers in increasing order |
| `UrlList.PositionsExactly` | webshot.py:10-13 | a line's position is kept if and only if the filter accepts the line |
| `UrlList.KeptLinesIncrease` | webshot.py:10-13 | the kept positions are line numbers in increasing order, so input order is preserved |
| `UrlList.KeptLinesExactly` | webshot.py:11-12 | a line is kept if and only if its stripped form is non-empty and does not start with `#` |
| `UrlList.KeptUrlsConcat` | webshot.py:10-13 | the URLs of two concatenated lists are the concatenation of their URLs |
| `UrlList.BlankLineSkipped` | webshot.py:11-12 | a line of whitespace only yields no URL |
| `UrlList.CommentLineSkipped` | webshot.py:11-12 | a line that is `#` after any indentation yields no URL |
| `Viewport.ParseViewport` | webshot.py:23 | a successful parse means the lower-cased option holds exactly one `x` |
| `Viewport.ParseViewportSides` | webshot.py:23 | for a lower-cased option `a + "x" + b`, the parse gives `(w, h)` if and only if neither side holds another `x`, `int(a) == w` and `int(b) == h` |
| `Viewport.ParseInt` | webshot.py:23 | `int(s)` succeeds exactly when the stripped string is an optional sign and then at most 4300 digits with single `_` between digits; the value is non-positive after `-` and non-negative otherwise |
| `Viewport.LongLiteralRefused` | webshot.py:23 | a string of more than 4300 digits is refused by `int()` |
| `Viewport.DecimalParses` | webshot.py:23 | `int()` reads the digits of `str(n)` back as `n` when there are at most 4300 of them |
| `Viewport.IntToStringUntrimmed` | webshot.py:23 | `str(i)` has no whitespace for `int()` to skip |
| `Viewport.ParseUnsigned` | webshot.py:23 | an unsigned literal with no surrounding whitespace parses to its digits' value |
| `Viewport.ParseNegative` | webshot.py:23 | `-` followed by a literal parses to minus the literal's value |
| `Viewport.IntRoundTrip` | webshot.py:23 | `int(str(i)) == i` for every integer of at most 4300 digits, negative ones included |
| `Viewport.UpperSeparatorAccepted` | webshot.py:23 | `X` parses the same as `x` |
| `Viewport.ViewportRoundTrip` | webshot.py:23 | `str(w) + "x" + str(h)` parses to `(w, h)` when each has at most 4300 digits |
| `Viewport.DefaultViewportParses` | webshot.py:19-23 | the default `1366x768` parses to width 1366 and height 768 |
| `Viewport.Decimal` | webshot.py:23 | `str(n)` of a natural number is a non-empty string of digits |
| `Viewport.DecimalValue` | webshot.py:23 | the digits of `str(n)` denote `n` |
| `OutputNames.BaseName` | webshot.py:33-35 | the base is the host, `_` and the path, one character each; a fragment adds `_` and at most 60 more characters; no `/` is left in it |
| `OutputNames.StemOf` | webshot.py:36 | `sanitize(base) or "page"` is never empty, has at most 180 characters, all in `[\w.-]`, and never starts with `_` |
| `OutputNames.FileStem` | webshot.py:31-36 | the stem of a parsed URL is never empty, has at most 180 characters, all in `[\w.-]`, and never starts with `_` |
| `OutputNames.ScreenshotName` | webshot.py:36-37 | the screenshot's name is the stem followed by `.png` and has at most 184 characters |
| `OutputNames.ErrorName` | webshot.py:53 | the error report's name is `ERROR_`, at most 180 `[\w.-]` characters, then `.txt`, whatever the parsed parts are |
| `OutputNames.ScreenshotIsNotErrorReport` | webshot.py:53 | no screenshot name equals any error-report name |
| `OutputNames.FragmentPart` | webshot.py:32-35 | a non-empty fragment adds exactly `_` and the first 60 characters of its sanitized form after the fragment-free base; that piece is clean and does not start with `_` |
| `OutputNames.FragmentSanitizedBeforeCut` | webshot.py:35 | 60 spaces then `top` contribute `top`, where cutting before sanitizing would have left nothing |
| `OutputNames.LeadingRunDropped` | webshot.py:6 | a run of characters outside `[\w.-]` in front of a non-empty sanitized word disappears, leaving the word |
| `OutputNames.ForeignOnlyVanishes` | webshot.py:6 | a string made only of characters outside `[\w.-]` sanitizes to the empty string |
| `OutputNames.FallbackToPage` | webshot.py:36 | with no fragment, a host and path with no letter, digit, `.` or `-` give the stem `page` |
| `OutputNames.ExampleName` | webshot.py:31-36 | `https://example.com/a/b#Section%20One` gives the stem `example.com__a_b_Section_One` |
| `OutputNames.DistinctPathsCollide` | webshot.py:33-37 | the paths `/x y` and `/x+y` on one host give the same stem, so the later screenshot overwrites the earlier |
| `OutputNames.FileName` | webshot.py:37-53 | a screenshot's file ends in `.png`; an error report's starts with `ERROR_` and ends in `.txt` |
| `OutputNames.SlashFree` | webshot.py:37-53 | a name whose ends hold no `/` and whose middle is `[\w.-]` characters holds no `/` |
| `OutputNames.ScreenshotNameSlashFree` | webshot.py:36-37 | a screenshot's name holds no `/` |
| `OutputNames.ErrorNameSlashFree` | webshot.py:53 | an error report's name holds no `/` |
| `OutputNames.StaysInOutputDirectory` | webshot.py:37-53 | no file name holds a `/`, so every file is written directly inside the output directory |
| `OutputNames.ArtifactOf` | webshot.py:30-54 | a job leaves a screenshot of its parsed URL exactly when its capture succeeded, and otherwise an error report that carries its URL and the exception's text |
| `OutputNames.Completed` | webshot.py:29-54 | the run gets through every job before the first whose error report cannot be written, and stops at that one |
| `OutputNames.CaptureAll` | webshot.py:29-54 | the loop leaves one artifact per job it gets through, in input order, each the one `ArtifactOf` gives; a failed capture does not stop the rest, and it covers every job exactly when no error report fails |
| `OutputNames.BatchKindsDisjoint` | webshot.py:37-53 | within a batch, a successful job's screenshot never shares its name with a failed job's error report |

## Left out

- Browser driving is not modelled: launch, navigation, the network-idle wait, the settle delay, the screenshot and `close` (webshot.py:25-28, 38, 48-51, 55). These are calls into a browser engine. Each URL's outcome (captured; the text of the exception; or that text together with a failed error report) is an input to `CaptureAll`.
- The cookie-consent loop (webshot.py:40-47) is not modelled. Its outcome depends only on browser state and on exceptions it swallows.
- File and directory I/O is not modelled: reading the list, `os.makedirs`, `os.path.join`, and writing the error text (webshot.py:9, 24, 37, 53-54). Only the computed names and the error text are modelled, so the overwrite of one file by a later one is shown only as two URLs getting the same name.
- `urllib.parse.urlparse` and `unquote` (webshot.py:31-32) are library parsers. Their results come in as `UrlParts`. A URL that `urlparse` rejects is a failed job.
- `argparse` and `tqdm` (webshot.py:16-22, 29) are command-line and progress-bar plumbing. Only the viewport string and its default are modelled.
- Names.IsWordChar: Python's `\w` matches `_` and every character for which `str.isalnum()` holds. The model takes ASCII letters, digits and `_`, so any non-ASCII letter, digit or other numeric character (`²`, `½`, `Ⅻ`) is treated as a character to replace.
- Viewport.ParseInt: `int()` also accepts non-ASCII decimal digits, which the model refuses.
- Viewport.IntToString: `str()` raises ValueError above 4300 digits, which the model does not. Every lemma that uses it (`IntToStringUntrimmed`, `IntRoundTrip`, `ViewportRoundTrip`) requires at most 4300 digits, and so does `DecimalParses`.
- OutputNames.CaptureAll: whether an error report can be written is an input (`ReportFailed`), not derived from the file system or from the byte length of the name. A report whose file opened but whose write failed leaves a file behind, which the model does not show.
- Text.Lower: only ASCII capitals are lowered. No other case mapping can produce `x` or a character that `int()` accepts, so the parse outcome is the same.
- Text.IsSpace: the list of `str.isspace()` characters is written out by hand. It is not generated from the Unicode database.
