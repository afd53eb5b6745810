# file_parser: text extraction and boundary-aware chunking, in Dafny

This project models `backend/app/utils/file_parser.py`. That file does three jobs:

- it pulls plain text out of PDF, Markdown and plain-text files;
- it puts the texts of several files together into one document with a numbered header per file;
- it cuts long texts into overlapping chunks of bounded size, preferring to cut just after a sentence or paragraph boundary.

The outside world comes in as parameters: the file system, the PDF engine, and the two encoding detectors with the codecs.

Modules:

- `Wrappers`: `Option` and `Result`. `Result.Failure` stands in for a raised exception.
- `Strings`: the Python `str` built-ins the file relies on, over code points.
  - `strip()` with the exact `str.isspace` character set;
  - `rfind`, `sep.join`;
  - `lower()` as far as it can produce ASCII letters;
  - `str(n)` for natural numbers.
- `Chunking`: `split_text_into_chunks`.
  - The function `Chunks` specifies it through the window sequence `Windows`.
  - The method `SplitTextIntoChunks` is the source's cursor loop, with the separator search as the method `WindowEnd`.
  - Both methods are proved to compute `Chunks` and `CutEnd`.
  - Lemmas state where windows end, how the cursor moves, coverage and the chunk bounds.
- `Decoding`: `_read_text_with_fallback` once the bytes are read.
  - The method `ReadTextWithFallback` reassigns `encoding` step by step, as the source does.
  - It is proved equal to `DecodeWithFallback`.
  - Lemmas state the order in which the fallbacks apply.
- `FileParser`: the rest of the file.
  - `FileParser.extract_text` is the function `ExtractText`.
  - The PDF page loop is the method `ExtractFromPdf`.
  - `extract_from_multiple` is the method `ExtractFromMultiple`, proved equal to `MultipleText`.
  - Lemmas cover the header format and the section numbering.

Points of the code's behaviour that are easy to misread:

- **Short text is returned unstripped.** A text no longer than `chunk_size` that is not blank comes back as it is, surrounding whitespace included (lines 163-164).
- **The separator search falls through.** Separators are tried in priority order. A separator whose rightmost occurrence in the window lies at or below 30% of `chunk_size` does not end the search; the next separator is tried. The search stops at the first separator that passes that test (lines 175-179), not at the first one that occurs.
- **Section headers are Chinese literals.** The batch headers are `=== 文档 {i}: ... ===` and `(提取失败: ...)` (lines 140, 142), and the model uses them verbatim.
- **The last-resort decode can fail.** The replacing decode raises `LookupError` when a detector returns a label Python does not know. So `decodeReplacing` returns a `Result`, and `FallbackTotal` states when the decode cannot fail.
- **`overlap < chunk_size` does not ensure termination.** `CursorCanStall` exhibits a window that ends within `overlap` characters of its start, which sends the cursor back to where it was.

## Model

| member | source | states |
|---|---|---|
| Strings.IsSpace | backend/app/utils/file_parser.py:181 | The code points `str.strip()` removes and `str.isspace` accepts: U+0009-U+000D, U+001C-U+0020, U+0085, U+00A0, U+1680, U+2000-U+200A, U+2028, U+2029, U+202F, U+205F, U+3000. Every blank or non-blank test in the model (lines 108, 164, 181-182) goes through it. |
| Strings.Strip | backend/app/utils/file_parser.py:181 | `text.strip()` is the slice of the input between its leading and trailing whitespace (the `IsSpace` code points). The parts cut off are blank. The result is empty iff the input is blank. A non-empty result starts and ends with a non-space. |
| Strings.StripCharacterized | backend/app/utils/file_parser.py:181 | Any split of a string into blank + core + blank, where the core is empty or has non-space ends, has `Strip` as its core. So `Strip` is fully determined. |
| Strings.StripIdempotent | backend/app/utils/file_parser.py:181 | Stripping a stripped string changes nothing. |
| Strings.RFind | backend/app/utils/file_parser.py:176 | `rfind` returns -1 or an index where the separator occurs, and there is no occurrence after it. |
| Strings.IsAtSlice | backend/app/utils/file_parser.py:176 | An occurrence in `text[start:end]` at `i` is exactly an occurrence in `text` at `start + i` that fits inside the slice. |
| Strings.Join | backend/app/utils/file_parser.py:111 | Joining no parts gives `""`. A join is at least as long as its first part. |
| Strings.JoinConcat | backend/app/utils/file_parser.py:144 | Joining two non-empty lists is joining each and putting one separator between them. |
| Strings.JoinLength | backend/app/utils/file_parser.py:144 | A join's length is the parts' total length plus one separator per gap. |
| Strings.LowerChar | backend/app/utils/file_parser.py:82 | Lower-casing leaves no ASCII capital. `A`-`Z` map to `a`-`z` (code point plus 32), the Kelvin sign maps to `k`, and every other code point is unchanged. |
| Strings.LowerMatches | backend/app/utils/file_parser.py:82-85 | For a target with no capitals and no Kelvin sign, `s.lower() == t` holds iff `s` has `t`'s length and each character of `s` is `t`'s character, its ASCII capital, or (for `k`) the Kelvin sign. So the suffix test ignores case. |
| Strings.Lower | backend/app/utils/file_parser.py:82 | Each code point is lower-cased on its own, by `LowerChar`, one result code point per input code point. |
| Strings.DecimalString | backend/app/utils/file_parser.py:140 | `str(i)` is a non-empty run of decimal digits with no leading zero. |
| Strings.DecimalRoundTrip | backend/app/utils/file_parser.py:140 | Reading the digits of `str(n)` back gives `n`. |
| Chunking.FirstQualifying | backend/app/utils/file_parser.py:175-179 | The result is the first separator, in list order, whose rightmost occurrence in the window lies past 30% of `chunk_size`. Every separator before it fails that test. `None` means none passes. |
| Chunking.SkipNonQualifying | backend/app/utils/file_parser.py:175-179 | Skipping separators that fail the test does not change what the search finds. This is the fall-through past non-qualifying separators. |
| Chunking.SoftCutAt | backend/app/utils/file_parser.py:176-178 | When separator `k` is the first to qualify, the window ends at `start + last_sep + len(sep)`. |
| Chunking.HardCut | backend/app/utils/file_parser.py:170-179 | When no separator qualifies, the window ends at `start + chunk_size`. |
| Chunking.CutEnd | backend/app/utils/file_parser.py:170-179 | A window's end lies after its start, at most `chunk_size` on and more than 30% of `chunk_size` past the start. The end is before the text's end exactly when `start + chunk_size` is. |
| Chunking.NextStart | backend/app/utils/file_parser.py:186 | Under the termination condition, the next start is strictly after the current start. |
| Chunking.WindowsFrom | backend/app/utils/file_parser.py:169-186 | Every window the cursor visits lies in the text, starts at or after the cursor, is non-empty and is at most `chunk_size` long. |
| Chunking.EmittedStep | backend/app/utils/file_parser.py:181-186 | One loop turn emits the stripped window if it is not empty, then continues from `end - overlap`, or from `len(text)` when the window reached the end. |
| Chunking.WindowEnd | backend/app/utils/file_parser.py:170-179 | The loop over separators with `break` computes `CutEnd`. |
| Chunking.DefaultsTerminate | backend/app/utils/file_parser.py:147-150 | The default `chunk_size` 500 and `overlap` 50 meet the termination condition. |
| Chunking.SplitTextIntoChunks | backend/app/utils/file_parser.py:147-188 | The cursor loop returns exactly `Chunks`, the function of lines 163-188 stated through the window sequence. A text no longer than `chunk_size` gives `[text]` unstripped when it is not blank, and `[]` otherwise. |
| Chunking.CutPlacement | backend/app/utils/file_parser.py:173-179 | Soft cut: the window ends with the chosen separator; its occurrence is past the threshold and is the rightmost in the window; all earlier separators fail the threshold. Hard cut: the end is `start + chunk_size` and no separator qualifies. |
| Chunking.SeparatorEndsWindow | backend/app/utils/file_parser.py:176-178 | Cutting after a qualifying separator's rightmost occurrence ends the window with that separator, more than 30% of `chunk_size` past the start, with no later occurrence in the window. |
| Chunking.CutWithoutSeparators | backend/app/utils/file_parser.py:170-179 | In a text with no separator, every cut is hard. |
| Chunking.CursorCanStall | backend/app/utils/file_parser.py:177-186 | With `chunk_size` 10 and `overlap` 9 (so `overlap < chunk_size`), a full-width stop at window index 8 sends the cursor back to 0. |
| Chunking.WindowsChained | backend/app/utils/file_parser.py:169-186 | From any start, the windows follow the cuts. Each next window starts `overlap` before the previous end and strictly after the previous start. All but the last end before the text's end, and the last reaches it. |
| Chunking.ChainedCovers | backend/app/utils/file_parser.py:169-186 | Chained windows with `overlap >= 0` leave no gap from the first start to the end of the text. |
| Chunking.WindowsTileText | backend/app/utils/file_parser.py:169-186 | The windows of a non-empty text start at 0, are chained, follow the cuts and cover every position. |
| Chunking.NoSeparatorHardCuts | backend/app/utils/file_parser.py:170-186 | With no separator in the text, every window but the last is exactly `chunk_size` long, and window `k` starts at `k * (chunk_size - overlap)`. |
| Chunking.FullWindows | backend/app/utils/file_parser.py:170-179 | Windows that follow the cuts of a text with no separator are all `chunk_size` long, except the last. |
| Chunking.HardCutStarts | backend/app/utils/file_parser.py:186 | Chained full-size windows starting at 0 start at multiples of `chunk_size - overlap`. |
| Chunking.NonEmptyPicks | backend/app/utils/file_parser.py:181-183 | Each emitted chunk is the non-empty stripped window at its recorded index. |
| Chunking.NonEmptyIndicesIncrease | backend/app/utils/file_parser.py:181-183 | Chunks come out in window order. |
| Chunking.NonEmptyIndicesComplete | backend/app/utils/file_parser.py:181-183 | Every window whose stripped text is not empty is emitted. |
| Chunking.NonEmptyIsFilter | backend/app/utils/file_parser.py:181-183 | The chunks are exactly the non-empty stripped windows, in window order. |
| Chunking.EmittedPieces | backend/app/utils/file_parser.py:181-183 | The emitting loop's output is the non-empty stripped windows, in order. |
| Chunking.LongTextChunks | backend/app/utils/file_parser.py:169-188 | For a text longer than `chunk_size`, the chunks are exactly the stripped texts of the non-blank windows, in window order. |
| Chunking.ChunksBounded | backend/app/utils/file_parser.py:163-183 | Every chunk is non-empty, not blank, at most `chunk_size` long, and occurs in the text. |
| Chunking.FilteredPiecesBounded | backend/app/utils/file_parser.py:181-183 | Whatever the emitting filter keeps from windows of at most `chunk_size` characters is non-blank, at most `chunk_size` long, and occurs in the text. |
| Chunking.PieceBounded | backend/app/utils/file_parser.py:181-183 | A non-empty `text[start:end].strip()` is non-blank, no longer than the window, and occurs in the text where its leading whitespace ends. |
| Chunking.SliceOccurs | backend/app/utils/file_parser.py:181 | `text[start:end].strip()` occurs in `text` at `start` plus the window's leading whitespace. |
| Decoding.FirstUsable | backend/app/utils/file_parser.py:36-56 | The label is that of the first detector with a non-empty label, or the default when no detector gives one. |
| Decoding.FirstUsableExists | backend/app/utils/file_parser.py:36-56 | Either some detector gives the first usable label or none gives one, so `FirstUsable` is determined in every case. |
| Decoding.FallbackEncoding | backend/app/utils/file_parser.py:36-56 | The label used after strict UTF-8 fails is never empty. |
| Decoding.ReadTextWithFallback | backend/app/utils/file_parser.py:30-58 | The step-by-step reassignment of `encoding` computes `DecodeWithFallback`, the function that states what the reader returns for given bytes. |
| Decoding.FallbackOrder | backend/app/utils/file_parser.py:30-58 | Valid UTF-8 decodes strictly. Otherwise the decode uses charset_normalizer's non-empty label, else chardet's non-empty label, else `'utf-8'`, always with replacement. |
| Decoding.ChardetIgnored | backend/app/utils/file_parser.py:46-52 | chardet's answer does not matter when the bytes are valid UTF-8 or charset_normalizer gave a label. |
| Decoding.RaisingIsNoLabel | backend/app/utils/file_parser.py:37-43 | A charset_normalizer that raises gives the same result as one that gives no label. |
| Decoding.RaisingChardetIsNoLabel | backend/app/utils/file_parser.py:46-52 | A chardet that raises gives the same result as one that gives no label. |
| Decoding.FallbackTotal | backend/app/utils/file_parser.py:55-58 | When the codec knows `'utf-8'` and every label given, the reader does not fail. |
| FileParser.FormatOf | backend/app/utils/file_parser.py:82 | `path.suffix.lower()`: `Lower(Suffix(Name(path)))`, the string the dispatch tests. |
| FileParser.Name | backend/app/utils/file_parser.py:139 | `Path(p).name` contains no `/`. |
| FileParser.NameIsLastComponent | backend/app/utils/file_parser.py:139 | For a path not ending in `/`, the name is a tail of the path that is either the whole path or preceded by a `/`. With `Name` having no `/`, it is the longest `/`-free tail. |
| FileParser.Suffix | backend/app/utils/file_parser.py:82 | `Path.suffix` is empty, or a tail of the name of length at least 2 that starts with its only dot, with something before it. It is empty exactly when no dot stands strictly inside the name or the name ends with a dot. |
| FileParser.ExtractFromPdf | backend/app/utils/file_parser.py:104-111 | The page loop returns `NonBlankPages` joined with `"\n\n"`: the non-blank page texts, unchanged and in page order. |
| FileParser.PdfText | backend/app/utils/file_parser.py:97-111 | A missing engine, and only that, raises `ImportError`. An engine failure propagates its message. Page texts always give a text, empty iff every page is blank. |
| FileParser.NonBlankPagesConcat | backend/app/utils/file_parser.py:106-109 | The page filter keeps page order: filtering a concatenation is concatenating the filtered parts. |
| FileParser.NonBlankPagesMembers | backend/app/utils/file_parser.py:106-109 | A page text is kept iff it is not blank. |
| FileParser.NonBlankPagesOfBlank | backend/app/utils/file_parser.py:106-109 | Only blank pages: nothing is kept. |
| FileParser.PdfTextEmpty | backend/app/utils/file_parser.py:104-111 | The PDF text is empty iff every page is blank. |
| FileParser.ReadText | backend/app/utils/file_parser.py:27-58 | Reading a file fails only with a library error: a failed `read_bytes` propagates its message, and valid UTF-8 comes back as decoded. |
| FileParser.Dispatch | backend/app/utils/file_parser.py:77-94 | For `ExtractText`, with the suffix taken as `FormatOf`: a missing file raises `FileNotFoundError` with its path, before the suffix is looked at, and nothing else does. A lower-cased suffix outside `{.pdf, .md, .markdown, .txt}`, and only such a suffix, raises `ValueError` with that suffix. `.pdf` goes to the page routine, whose missing engine is the only `ImportError`. `.md`, `.markdown` and `.txt` go to the fallback reader. |
| FileParser.OnlyTxtLeft | backend/app/utils/file_parser.py:87-94 | A supported suffix that is neither `.pdf` nor `.md`/`.markdown` is `.txt`, so the last branch always runs and line 94 is unreachable. |
| FileParser.NameWithoutSlash | backend/app/utils/file_parser.py:139 | A path without `/` is its own name. |
| FileParser.SuffixOfDotfile | backend/app/utils/file_parser.py:82 | A name whose only dot is its first character has no suffix. |
| FileParser.Unsupported | backend/app/utils/file_parser.py:82-85 | An existing file whose lower-cased suffix is not supported is rejected with that suffix. |
| FileParser.DotfileUnsupported | backend/app/utils/file_parser.py:79-85 | An existing dotfile such as `.txt` is rejected with an empty suffix. |
| FileParser.MissingFileSection | backend/app/utils/file_parser.py:80 | Through `Section`, `FailureSection` and `Message`, a missing file's section is `=== 文档 {i}: {path} (提取失败: 文件不存在: {path}) ===`. |
| FileParser.UnsupportedSection | backend/app/utils/file_parser.py:85 | An unsupported file's section is `=== 文档 {i}: {path} (提取失败: 不支持的文件格式: {suffix}) ===`, with the lower-cased suffix. |
| FileParser.ExtractedSection | backend/app/utils/file_parser.py:136-140 | Through `Section` and `SuccessSection`, an extracted file's section is `=== 文档 {i}: {name} ===`, a newline, and the text; the header shows the file name, not the path. |
| FileParser.Sections | backend/app/utils/file_parser.py:136-142 | There is one section per path. |
| FileParser.ExtractFromMultiple | backend/app/utils/file_parser.py:134-144 | The enumerate loop returns `MultipleText`: the `"\n\n"`-join of one section per path, in input order, numbered from 1. A failure becomes its section with no exception escaping. An empty input gives `""`. |
| FileParser.MultipleAppend | backend/app/utils/file_parser.py:134-144 | One more path appends a blank line and its section, numbered one past the last, and leaves the earlier output unchanged. |
| FileParser.LeadingDigits | backend/app/utils/file_parser.py:140-142 | The leading digit run of a header tail is a prefix made of digits. |
| FileParser.LeadingDigitsOfNumber | backend/app/utils/file_parser.py:140-142 | In a header, the digit run is exactly `str(i)`, because `": "` follows it. |
| FileParser.SectionNumbered | backend/app/utils/file_parser.py:140-142 | Every section, success or failure, starts with `=== 文档 ` and a number that reads back as its index. |
| FileParser.SectionsNumbered | backend/app/utils/file_parser.py:136-142 | The sections of a batch read back as numbered 1, 2, ... in input order. |

## Left out

- File-system access (`Path.exists`, `Path.read_bytes`) is not modelled. The `FileSystem` datatype's `present` and `readBytes` fields stand in for it.
- The PDF engine (`import fitz`, `fitz.open`, `page.get_text`) is not modelled. `PdfOutcome` gives either a missing engine, an engine failure carrying its message, or the page texts in order.
- The internals of charset_normalizer, chardet and Python's codecs are not modelled. They are the function fields of `Codec`. Strict UTF-8 validity and decoding are not spelled out, and neither is the U+FFFD replacement.
- Exception messages of library errors are opaque strings (`ExtractError.Failed`). Only the source's own messages (lines 80, 85, 102) and the header templates are exact.
- FileParser.Name: models `Path.name` as the part after the last `/`, ignoring trailing `/`. It does not model pathlib's dropping of `.` components or the name of an empty path.
- FileParser.Suffix: models `Path.suffix` by the last-dot rule of Python 3.13 and earlier. Python 3.14's treatment of a name ending in a dot, where a single dot counts as a suffix, is not modelled.
- Strings.Lower: a code point whose lower case is several code points (`'İ'.lower()` is `i` and a combining dot) maps to one code point here, so the length is kept where Python's need not be. Such a suffix is not supported either way, since Python's result keeps a non-ASCII code point; only the suffix quoted in the `ValueError` message differs.
- Strings.LowerChar: models `lower()` only for the code points that lower-case to ASCII letters (A-Z and the Kelvin sign), since the suffix is compared with ASCII literals. Other code points are left as they are.
- Chunking.PastThreshold: the float test `last_sep > chunk_size * 0.3` is stated exactly over the integers as `10 * last_sep > 3 * chunk_size`. Floating-point rounding of the product is not modelled.
- Chunking.SplitTextIntoChunks: for a text longer than `chunk_size` it requires `chunk_size >= 1` and `10 * overlap <= 3 * chunk_size`. Under these the cursor always moves forward. The source checks nothing, and with a larger overlap it can loop forever (`CursorCanStall`), which the model does not describe.
- Chunking.WindowsTileText: coverage is stated for `overlap >= 0` only. A negative overlap skips characters between windows.
- The unreachable `raise` at line 94 has no model. `ExtractText` shows it cannot be reached: once the `.pdf` and `.md`/`.markdown` branches are passed, the only supported suffix left is `.txt` (`OnlyTxtLeft`), so the third branch always runs.
