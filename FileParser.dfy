/** `FileParser`: pick the extraction routine by the file's suffix, pull the
    text out of a PDF's pages or a text file's bytes, and assemble the texts
    of several files into one document with a numbered header per file. The
    file system and the PDF engine are parameters. */
module FileParser {
  import opened Wrappers
  import opened Strings
  import opened Decoding

  /** What PyMuPDF gives for a path: the engine is not installed (the import
      fails), opening or reading the document raises, or the text of each
      page in page order. */
  datatype PdfOutcome = NoEngine | EngineFailed(message: string) | Pages(texts: seq<string>)

  /** The outside world as the parser sees it: `Path.exists`,
      `Path.read_bytes` (a failure carries the exception's message) and the
      PDF engine. */
  datatype FileSystem = FileSystem(
    present: string -> bool,
    readBytes: string -> Result<seq<byte>, string>,
    pdf: string -> PdfOutcome)

  /** The exceptions extraction raises. */
  datatype ExtractError =
    | FileNotFound(path: string)
    | UnsupportedFormat(suffix: string)
    | PdfEngineMissing
    | Failed(message: string)  // raised by a library; `message` is its `str(e)`

  /** `str(e)` of each exception. The literals are the source's:
      "文件不存在: ", "不支持的文件格式: " and
      "需要安装PyMuPDF: pip install PyMuPDF". */
  function Message(e: ExtractError): string {
    match e
    case FileNotFound(path) => "\U{6587}\U{4EF6}\U{4E0D}\U{5B58}\U{5728}: " + path
    case UnsupportedFormat(suffix) =>
      "\U{4E0D}\U{652F}\U{6301}\U{7684}\U{6587}\U{4EF6}\U{683C}\U{5F0F}: " + suffix
    case PdfEngineMissing => "\U{9700}\U{8981}\U{5B89}\U{88C5}PyMuPDF: pip install PyMuPDF"
    case Failed(message) => message
  }

  // ---------------------------------------------------------------------
  // Path.name and Path.suffix

  /** `Path(path).name`: the part after the last `/`, trailing `/`s ignored. */
  function Name(path: string): (name: string)
    ensures forall i :: 0 <= i < |name| ==> name[i] != '/'
    decreases |path|
  {
    if path != [] && path[|path| - 1] == '/' then Name(path[..|path| - 1])
    else
      var slash := RFind(path, "/");
      var name := path[slash + 1..];
      assert forall i :: 0 <= i < |name| ==> name[i] != '/' by {
        forall i | 0 <= i < |name| ensures name[i] != '/' {
          CharIsAt(path, slash + 1 + i);
        }
      }
      name
  }

  /** For a path that does not end in `/`, the name is its longest tail
      without a `/`: the whole path, or what follows a `/`. */
  lemma NameIsLastComponent(path: string)
    requires path == [] || path[|path| - 1] != '/'
    ensures var name := Name(path);
      && |name| <= |path| && name == path[|path| - |name|..]
      && (|name| == |path| || path[|path| - |name| - 1] == '/')
  {
    var slash := RFind(path, "/");
    assert slash != -1 ==> path[slash] == path[slash..slash + 1][0] == '/';
  }

  /** `Path.suffix` of a name: from its last dot on, when that dot is neither
      the first nor the last character, else empty. The suffix is empty
      exactly when no dot stands strictly inside the name or the name ends
      with a dot. */
  function Suffix(name: string): (suffix: string)
    ensures suffix == "" || (|suffix| >= 2 && suffix[0] == '.' && 0 < |name| - |suffix|
      && suffix == name[|name| - |suffix|..] && forall i :: 1 <= i < |suffix| ==> suffix[i] != '.')
    ensures suffix == "" <==> forall i :: 0 < i < |name| - 1 && name[i] == '.' ==> name[|name| - 1] == '.'
  {
    var r := RFind(name, ".");
    if 0 < r < |name| - 1 then
      var suffix := name[r..];
      assert forall k :: 1 <= k < |suffix| ==> suffix[k] != '.' by {
        forall k | 1 <= k < |suffix| ensures suffix[k] != '.' {
          CharIsAt(name, r + k);
        }
      }
      assert name[r] == name[r..r + 1][0] == '.';
      assert suffix[|suffix| - 1] == name[|name| - 1];
      suffix
    else
      assert forall i :: 0 < i < |name| - 1 && name[i] == '.' ==> name[|name| - 1] == '.' by {
        forall i | 0 < i < |name| - 1 && name[i] == '.' ensures name[|name| - 1] == '.' {
          CharIsAt(name, i);
          assert [name[i]] == ".";
          assert name[r] == name[r..r + 1][0];
        }
      }
      ""
  }

  const SupportedExtensions: set<string> := {".pdf", ".md", ".markdown", ".txt"}

  /** The lower-cased suffix the dispatch looks at. */
  function FormatOf(path: string): string {
    Lower(Suffix(Name(path)))
  }

  // ---------------------------------------------------------------------
  // _extract_from_pdf

  /** The page texts whose `strip()` is not empty, unchanged and in page order. */
  function NonBlankPages(pages: seq<string>): seq<string> {
    if pages == [] then []
    else
      var last := pages[|pages| - 1];
      NonBlankPages(pages[..|pages| - 1]) + (if Strip(last) != "" then [last] else [])
  }

  /** The page routine as the source runs it: a loop that keeps the
      non-blank page texts, then a join with blank lines. */
  method ExtractFromPdf(pages: seq<string>) returns (text: string)
    ensures text == Join(NonBlankPages(pages), "\n\n")
  {
    var parts: seq<string> := [];
    for i := 0 to |pages|
      invariant parts == NonBlankPages(pages[..i])
    {
      assert pages[..i + 1][..i] == pages[..i];
      if Strip(pages[i]) != "" {
        parts := parts + [pages[i]];
      }
    }
    assert pages[..|pages|] == pages;
    text := Join(parts, "\n\n");
  }

  /** Keeping the non-blank pages of two runs of pages is keeping those of
      each run, in order. */
  lemma {:induction false} NonBlankPagesConcat(a: seq<string>, b: seq<string>)
    ensures NonBlankPages(a + b) == NonBlankPages(a) + NonBlankPages(b)
    decreases |b|
  {
    if b == [] {
      assert a + b == a;
    } else {
      var b' := b[..|b| - 1];
      assert (a + b)[..|a + b| - 1] == a + b';
      NonBlankPagesConcat(a, b');
    }
  }

  /** A page is kept exactly when it is not blank, and nothing else is kept. */
  lemma {:induction false} NonBlankPagesMembers(pages: seq<string>)
    ensures forall p :: p in NonBlankPages(pages) <==> p in pages && !IsBlank(p)
    decreases |pages|
  {
    if pages != [] {
      var init := pages[..|pages| - 1];
      NonBlankPagesMembers(init);
      assert pages == init + [pages[|pages| - 1]];
    }
  }

  /** Only blank pages: nothing is kept. */
  lemma {:induction false} NonBlankPagesOfBlank(pages: seq<string>)
    requires forall i :: 0 <= i < |pages| ==> IsBlank(pages[i])
    ensures NonBlankPages(pages) == []
    decreases |pages|
  {
    if pages != [] {
      NonBlankPagesOfBlank(pages[..|pages| - 1]);
    }
  }

  /** The PDF text is empty exactly when every page is blank. */
  lemma PdfTextEmpty(pages: seq<string>)
    ensures Join(NonBlankPages(pages), "\n\n") == "" <==> forall i :: 0 <= i < |pages| ==> IsBlank(pages[i])
  {
    if forall i :: 0 <= i < |pages| ==> IsBlank(pages[i]) {
      NonBlankPagesOfBlank(pages);
    } else {
      var kept := NonBlankPages(pages);
      var i :| 0 <= i < |pages| && !IsBlank(pages[i]);
      NonBlankPagesMembers(pages);
      assert pages[i] in kept;
      assert kept[0] in kept;
    }
  }

  /** What `_extract_from_pdf` returns or raises. */
  function PdfText(outcome: PdfOutcome): (r: Result<string, ExtractError>)
    ensures r == Failure(PdfEngineMissing) <==> outcome.NoEngine?
    ensures outcome.EngineFailed? ==> r == Failure(Failed(outcome.message))
    ensures outcome.Pages? ==>
      && r.Success?
      && (r.value == "" <==> forall i :: 0 <= i < |outcome.texts| ==> IsBlank(outcome.texts[i]))
  {
    match outcome
    case NoEngine => Failure(PdfEngineMissing)
    case EngineFailed(message) => Failure(Failed(message))
    case Pages(texts) =>
      PdfTextEmpty(texts);
      Success(Join(NonBlankPages(texts), "\n\n"))
  }

  // ---------------------------------------------------------------------
  // _extract_from_md, _extract_from_txt

  /** `_read_text_with_fallback(path)`: read the bytes, then decode them.
      A failure of either step propagates with its message; valid UTF-8 is
      returned as decoded. */
  function ReadText(path: string, fs: FileSystem, codec: Codec): (r: Result<string, ExtractError>)
    ensures r.Failure? ==> r.error.Failed?
    ensures fs.readBytes(path).Failure? ==> r == Failure(Failed(fs.readBytes(path).error))
    ensures fs.readBytes(path).Success? && codec.utf8Strict(fs.readBytes(path).value).Some? ==>
      r == Success(codec.utf8Strict(fs.readBytes(path).value).value)
  {
    FallbackOrder(if fs.readBytes(path).Success? then fs.readBytes(path).value else [], codec);
    match fs.readBytes(path)
    case Failure(message) => Failure(Failed(message))
    case Success(data) =>
      match DecodeWithFallback(data, codec)
      case Success(text) => Success(text)
      case Failure(message) => Failure(Failed(message))
  }

  // ---------------------------------------------------------------------
  // extract_text

  /** `FileParser.extract_text(path)`. The source's last `raise` cannot be
      reached, since every supported suffix has a branch. */
  function ExtractText(path: string, fs: FileSystem, codec: Codec): Result<string, ExtractError> {
    if !fs.present(path) then Failure(FileNotFound(path))
    else
      var suffix := FormatOf(path);
      if suffix !in SupportedExtensions then Failure(UnsupportedFormat(suffix))
      else if suffix == ".pdf" then PdfText(fs.pdf(path))
      else if suffix in {".md", ".markdown"} then ReadText(path, fs, codec)
      else
        OnlyTxtLeft(suffix);
        ReadText(path, fs, codec)
  }

  /** Once `.pdf`, `.md` and `.markdown` are ruled out, the only supported
      suffix left is `.txt`. */
  lemma OnlyTxtLeft(suffix: string)
    requires suffix in SupportedExtensions && suffix != ".pdf" && suffix !in {".md", ".markdown"}
    ensures suffix == ".txt"
  {
  }

  /** The dispatch: a missing file is reported (with its path) before the
      suffix is looked at, and no other case reports a missing file; a
      lower-cased suffix outside the supported set, and only such a suffix,
      is rejected; `.pdf` goes to the page routine and the text formats to
      the fallback reader. */
  lemma Dispatch(path: string, fs: FileSystem, codec: Codec)
    ensures var r := ExtractText(path, fs, codec);
      && (r.Failure? && r.error.FileNotFound? <==> !fs.present(path))
      && (!fs.present(path) ==> r == Failure(FileNotFound(path)))
      && (r.Failure? && r.error.UnsupportedFormat? <==>
            fs.present(path) && FormatOf(path) !in SupportedExtensions)
      && (fs.present(path) && FormatOf(path) !in SupportedExtensions ==>
            r == Failure(UnsupportedFormat(FormatOf(path))))
      && (r.Failure? && r.error.PdfEngineMissing? <==>
            fs.present(path) && FormatOf(path) == ".pdf" && fs.pdf(path).NoEngine?)
      && (fs.present(path) && FormatOf(path) == ".pdf" ==> r == PdfText(fs.pdf(path)))
      && (fs.present(path) && FormatOf(path) in {".md", ".markdown", ".txt"} ==>
            r == ReadText(path, fs, codec))
  {
  }

  /** A string without the character `c` has no occurrence of it. */
  lemma NoOccurrence(s: string, c: char)
    requires forall i :: 0 <= i < |s| ==> s[i] != c
    ensures forall k :: !IsAt(s, [c], k)
  {
    forall k | 0 <= k && k + 1 <= |s| ensures !IsAt(s, [c], k) {
      assert s[k..k + 1][0] == s[k];
    }
  }

  /** A path without a `/` is its own name. */
  lemma NameWithoutSlash(path: string)
    requires forall i :: 0 <= i < |path| ==> path[i] != '/'
    ensures Name(path) == path
  {
    NoOccurrence(path, '/');
    assert RFind(path, "/") == -1;
  }

  /** A name whose only dot is its first character has no suffix. */
  lemma SuffixOfDotfile(name: string)
    requires |name| >= 1 && name[0] == '.'
    requires forall i :: 1 <= i < |name| ==> name[i] != '.'
    ensures Suffix(name) == ""
  {
    var tail := name[1..];
    NoOccurrence(tail, '.');
    assert name[1..|name|] == tail;
    forall k | 0 < k ensures !IsAt(name, ".", k) {
      IsAtSlice(name, 1, |name|, ".", k - 1);
      assert !IsAt(tail, ".", k - 1);
    }
    assert IsAt(name, ".", 0);
  }

  /** A dotfile such as `.txt` has no suffix, so it is rejected. */
  lemma DotfileUnsupported(path: string, fs: FileSystem, codec: Codec)
    requires fs.present(path) && |path| >= 1 && path[0] == '.'
    requires forall i :: 1 <= i < |path| ==> path[i] != '.' && path[i] != '/'
    ensures ExtractText(path, fs, codec) == Failure(UnsupportedFormat(""))
  {
    assert FormatOf(path) == "" by {
      NameWithoutSlash(path);
      SuffixOfDotfile(path);
    }
    Unsupported(path, fs, codec);
  }

  /** An existing file whose lower-cased suffix is not supported is rejected
      with that suffix. */
  lemma Unsupported(path: string, fs: FileSystem, codec: Codec)
    requires fs.present(path) && FormatOf(path) !in SupportedExtensions
    ensures ExtractText(path, fs, codec) == Failure(UnsupportedFormat(FormatOf(path)))
  {
  }

  // ---------------------------------------------------------------------
  // extract_from_multiple

  /** "=== 文档 " */
  const HeaderOpen: string := "=== \U{6587}\U{6863} "

  /** The section for the `i`-th file (counting from 1): the header with the
      file's name and its text, or, when extraction raised, a header with the
      path as given and the error message and no text. */
  function Section(i: nat, path: string, outcome: Result<string, ExtractError>): string {
    match outcome
    case Success(text) => SuccessSection(i, Name(path), text)
    case Failure(e) => FailureSection(i, path, Message(e))
  }

  /** `f"=== 文档 {i}: {filename} ===\n{text}"` */
  function SuccessSection(i: nat, filename: string, text: string): string {
    HeaderOpen + DecimalString(i) + ": " + filename + " ===\n" + text
  }

  /** `f"=== 文档 {i}: {file_path} (提取失败: {message}) ==="` */
  function FailureSection(i: nat, path: string, message: string): string {
    HeaderOpen + DecimalString(i) + ": " + path + " (\U{63D0}\U{53D6}\U{5931}\U{8D25}: " + message + ") ==="
  }

  /** `cls.extract_text` as the batch routine sees it: a total function from
      a path to a text or the exception it raises. */
  type Extractor = string -> Result<string, ExtractError>

  /** The extractor of a given file system and codec. */
  function ExtractorOf(fs: FileSystem, codec: Codec): Extractor {
    path => ExtractText(path, fs, codec)
  }

  /** The section of a missing file, in full: the path as given, then the
      `FileNotFoundError` message, which repeats the path. */
  lemma MissingFileSection(i: nat, path: string, fs: FileSystem, codec: Codec)
    requires !fs.present(path)
    ensures Section(i, path, ExtractorOf(fs, codec)(path))
      == HeaderOpen + DecimalString(i) + ": " + path + " (\U{63D0}\U{53D6}\U{5931}\U{8D25}: "
        + "\U{6587}\U{4EF6}\U{4E0D}\U{5B58}\U{5728}: " + path + ") ==="
  {
  }

  /** The section of an existing file with an unsupported suffix, in full. */
  lemma UnsupportedSection(i: nat, path: string, fs: FileSystem, codec: Codec)
    requires fs.present(path) && FormatOf(path) !in SupportedExtensions
    ensures Section(i, path, ExtractorOf(fs, codec)(path))
      == HeaderOpen + DecimalString(i) + ": " + path + " (\U{63D0}\U{53D6}\U{5931}\U{8D25}: "
        + "\U{4E0D}\U{652F}\U{6301}\U{7684}\U{6587}\U{4EF6}\U{683C}\U{5F0F}: " + FormatOf(path) + ") ==="
  {
    Unsupported(path, fs, codec);
  }

  /** The section of a file whose text was extracted: its name, not its
      path, in the header, and the text after a newline. */
  lemma ExtractedSection(i: nat, path: string, fs: FileSystem, codec: Codec)
    requires ExtractText(path, fs, codec).Success?
    ensures Section(i, path, ExtractorOf(fs, codec)(path))
      == HeaderOpen + DecimalString(i) + ": " + Name(path) + " ===\n" + ExtractText(path, fs, codec).value
  {
  }

  /** One section per path, numbered from 1 in input order. */
  function Sections(paths: seq<string>, extract: Extractor): (ss: seq<string>)
    ensures |ss| == |paths|
  {
    seq(|paths|, k requires 0 <= k < |paths| => Section(k + 1, paths[k], extract(paths[k])))
  }

  /** What `extract_from_multiple(paths)` returns. */
  function MultipleText(paths: seq<string>, extract: Extractor): string {
    Join(Sections(paths, extract), "\n\n")
  }

  /** The batch routine as the source runs it: one section per path,
      appended in a loop, every failure caught and turned into a section,
      then a join with blank lines. */
  method ExtractFromMultiple(paths: seq<string>, extract: Extractor) returns (text: string)
    ensures text == MultipleText(paths, extract)
    ensures paths == [] ==> text == ""
  {
    ghost var ss := Sections(paths, extract);
    var allTexts: seq<string> := [];
    for i := 0 to |paths|
      invariant allTexts == ss[..i]
    {
      var outcome := extract(paths[i]);
      var section;
      match outcome {
        case Success(t) =>
          var filename := Name(paths[i]);
          section := SuccessSection(i + 1, filename, t);
        case Failure(e) =>
          section := FailureSection(i + 1, paths[i], Message(e));
      }
      assert section == Section(i + 1, paths[i], outcome) == ss[i];
      allTexts := allTexts + [section];
    }
    assert allTexts == ss;
    text := Join(allTexts, "\n\n");
  }

  /** Adding a path to a batch appends one blank line and that path's
      section, numbered one past the last, and leaves the earlier output as
      it was. */
  lemma MultipleAppend(paths: seq<string>, path: string, extract: Extractor)
    requires paths != []
    ensures MultipleText(paths + [path], extract)
      == MultipleText(paths, extract) + "\n\n" + Section(|paths| + 1, path, extract(path))
  {
    var ss := Sections(paths + [path], extract);
    assert ss == Sections(paths, extract) + [Section(|paths| + 1, path, extract(path))];
    JoinConcat(Sections(paths, extract), [Section(|paths| + 1, path, extract(path))], "\n\n");
  }

  /** The longest run of decimal digits `s` starts with. */
  function LeadingDigits(s: string): (d: string)
    ensures IsDigits(d) && |d| <= |s| && d == s[..|d|]
  {
    if s != [] && '0' <= s[0] <= '9' then [s[0]] + LeadingDigits(s[1..]) else []
  }

  /** The number in a section's header, read back as `int` would. */
  function SectionNumber(section: string): Option<nat> {
    if |section| >= |HeaderOpen| && section[..|HeaderOpen|] == HeaderOpen then
      Some(ParseDecimal(LeadingDigits(section[|HeaderOpen|..])))
    else None
  }

  lemma {:induction false} LeadingDigitsOfNumber(digits: string, rest: string)
    requires IsDigits(digits) && rest != [] && !('0' <= rest[0] <= '9')
    ensures LeadingDigits(digits + rest) == digits
    decreases |digits|
  {
    if digits != [] {
      assert (digits + rest)[1..] == digits[1..] + rest;
      LeadingDigitsOfNumber(digits[1..], rest);
    } else {
      assert digits + rest == rest;
    }
  }

  /** Every section starts with its header, whose number reads back as the
      section's position counted from 1, whether extraction succeeded or not. */
  lemma SectionNumbered(i: nat, path: string, outcome: Result<string, ExtractError>)
    ensures SectionNumber(Section(i, path, outcome)) == Some(i)
  {
    var s := Section(i, path, outcome);
    var digits := DecimalString(i);
    var rest := match outcome
      case Success(text) => ": " + Name(path) + " ===\n" + text
      case Failure(e) => ": " + path + " (\U{63D0}\U{53D6}\U{5931}\U{8D25}: " + Message(e) + ") ===";
    assert rest[0] == ':';
    assert s == HeaderOpen + (digits + rest);
    assert s[..|HeaderOpen|] == HeaderOpen;
    assert s[|HeaderOpen|..] == digits + rest;
    LeadingDigitsOfNumber(digits, rest);
    DecimalRoundTrip(i);
  }

  /** The sections of a batch are numbered 1, 2, ... in input order. */
  lemma SectionsNumbered(paths: seq<string>, extract: Extractor)
    ensures forall k :: 0 <= k < |paths| ==> SectionNumber(Sections(paths, extract)[k]) == Some(k + 1)
  {
    var ss := Sections(paths, extract);
    forall k | 0 <= k < |paths| ensures SectionNumber(ss[k]) == Some(k + 1) {
      SectionNumbered(k + 1, paths[k], extract(paths[k]));
    }
  }
}
