/** `_read_text_with_fallback` once the bytes are read: strict UTF-8 first,
    then the label of the first encoding detector that gives one, then
    `'utf-8'`, decoding with `errors='replace'`. The detectors and the codecs
    are parameters: only the order in which they are consulted is modelled. */
module Decoding {
  import opened Wrappers

  newtype byte = x: int | 0 <= x < 256

  /** What an encoding detector reports: an encoding label (possibly empty),
      no label at all (`best()` or `detect()` gave `None`, or its `encoding`
      is `None`), or an exception (the library missing included), which the
      reader swallows. */
  datatype Detection = Label(name: string) | NoLabel | Raised

  /** The library calls the reader makes, as functions of the bytes.
      `utf8Strict` is `data.decode('utf-8')`, `None` where it raises
      `UnicodeDecodeError`; `decodeReplacing` is `data.decode(label,
      errors='replace')`, a failure carrying the message of the exception it
      raises (an unknown label raises `LookupError`). */
  datatype Codec = Codec(
    utf8Strict: seq<byte> -> Option<string>,
    normalizer: seq<byte> -> Detection,
    chardet: seq<byte> -> Detection,
    decodeReplacing: (seq<byte>, string) -> Result<string, string>)

  const DefaultEncoding: string := "utf-8"

  /** A detection the reader takes: a label that is not empty (`if not
      encoding` treats `None` and `''` alike). */
  predicate Usable(d: Detection) {
    d.Label? && d.name != ""
  }

  /** Detection `i` is the first usable one. */
  predicate FirstUsableAt(ds: seq<Detection>, i: int) {
    0 <= i < |ds| && Usable(ds[i]) && forall j :: 0 <= j < i ==> !Usable(ds[j])
  }

  /** The label of the first usable detection, or `default` when none is. */
  function FirstUsable(ds: seq<Detection>, default: string): (r: string)
    ensures forall i :: FirstUsableAt(ds, i) ==> r == ds[i].name
    ensures (forall i :: 0 <= i < |ds| ==> !Usable(ds[i])) ==> r == default
  {
    if ds == [] then default
    else if Usable(ds[0]) then ds[0].name
    else
      var r := FirstUsable(ds[1..], default);
      assert forall i :: FirstUsableAt(ds, i) ==> FirstUsableAt(ds[1..], i - 1);
      r
  }

  /** Either some detection is the first usable one, or none is usable. */
  lemma {:induction false} FirstUsableExists(ds: seq<Detection>)
    ensures (exists i :: FirstUsableAt(ds, i)) || forall i :: 0 <= i < |ds| ==> !Usable(ds[i])
  {
    if ds != [] && !Usable(ds[0]) {
      FirstUsableExists(ds[1..]);
      if i :| FirstUsableAt(ds[1..], i) {
        assert FirstUsableAt(ds, i + 1);
      } else {
        assert forall i :: 1 <= i < |ds| ==> ds[i] == ds[1..][i - 1];
      }
    } else if ds != [] {
      assert FirstUsableAt(ds, 0);
    }
  }

  /** The label the reader decodes with once strict UTF-8 has failed:
      charset_normalizer's, else chardet's, else `'utf-8'`. */
  function FallbackEncoding(data: seq<byte>, codec: Codec): (encoding: string)
    ensures encoding != ""
  {
    FirstUsable([codec.normalizer(data), codec.chardet(data)], DefaultEncoding)
  }

  /** What `_read_text_with_fallback` returns for the bytes `data`. */
  function DecodeWithFallback(data: seq<byte>, codec: Codec): Result<string, string> {
    match codec.utf8Strict(data)
    case Some(text) => Success(text)
    case None => codec.decodeReplacing(data, FallbackEncoding(data, codec))
  }

  /** The reader as the source runs it: `encoding` starts as `None` and is
      set by each detector in turn only while it is still unset. */
  method ReadTextWithFallback(data: seq<byte>, codec: Codec) returns (text: Result<string, string>)
    ensures text == DecodeWithFallback(data, codec)
  {
    var strict := codec.utf8Strict(data);
    if strict.Some? {
      return Success(strict.value);
    }
    var encoding: Option<string> := None;
    var best := codec.normalizer(data);
    if best.Label? && best.name != "" {
      encoding := Some(best.name);
    }
    if encoding.None? || encoding.value == "" {
      var result := codec.chardet(data);
      encoding := if result.Label? then Some(result.name) else None;
    }
    if encoding.None? || encoding.value == "" {
      encoding := Some(DefaultEncoding);
    }
    FallbackOrder(data, codec);
    text := codec.decodeReplacing(data, encoding.value);
  }

  /** The order of the fallbacks: bytes that are valid UTF-8 decode strictly;
      otherwise the first non-empty label of charset_normalizer and chardet is
      used, and `'utf-8'` when neither gives one. */
  lemma FallbackOrder(data: seq<byte>, codec: Codec)
    ensures codec.utf8Strict(data).Some? ==>
      DecodeWithFallback(data, codec) == Success(codec.utf8Strict(data).value)
    ensures codec.utf8Strict(data).None? && Usable(codec.normalizer(data)) ==>
      DecodeWithFallback(data, codec) == codec.decodeReplacing(data, codec.normalizer(data).name)
    ensures codec.utf8Strict(data).None? && !Usable(codec.normalizer(data)) && Usable(codec.chardet(data)) ==>
      DecodeWithFallback(data, codec) == codec.decodeReplacing(data, codec.chardet(data).name)
    ensures codec.utf8Strict(data).None? && !Usable(codec.normalizer(data)) && !Usable(codec.chardet(data)) ==>
      DecodeWithFallback(data, codec) == codec.decodeReplacing(data, DefaultEncoding)
  {
    var ds := [codec.normalizer(data), codec.chardet(data)];
    if Usable(ds[0]) {
      assert FirstUsableAt(ds, 0);
    } else if Usable(ds[1]) {
      assert FirstUsableAt(ds, 1);
    }
  }

  /** chardet's answer does not matter when the bytes are valid UTF-8 or
      charset_normalizer gave a label. */
  lemma ChardetIgnored(data: seq<byte>, codec: Codec, chardet: seq<byte> -> Detection)
    requires codec.utf8Strict(data).Some? || Usable(codec.normalizer(data))
    ensures DecodeWithFallback(data, codec.(chardet := chardet)) == DecodeWithFallback(data, codec)
  {
    FallbackOrder(data, codec);
    FallbackOrder(data, codec.(chardet := chardet));
  }

  /** A charset_normalizer that raises is treated as one that gives no
      label. */
  lemma RaisingIsNoLabel(data: seq<byte>, codec: Codec)
    requires codec.normalizer(data) == Raised
    ensures DecodeWithFallback(data, codec)
      == DecodeWithFallback(data, codec.(normalizer := _ => NoLabel))
  {
    FallbackOrder(data, codec);
    FallbackOrder(data, codec.(normalizer := _ => NoLabel));
  }

  /** The same for chardet. */
  lemma RaisingChardetIsNoLabel(data: seq<byte>, codec: Codec)
    requires codec.chardet(data) == Raised
    ensures DecodeWithFallback(data, codec)
      == DecodeWithFallback(data, codec.(chardet := _ => NoLabel))
  {
    FallbackOrder(data, codec);
    FallbackOrder(data, codec.(chardet := _ => NoLabel));
  }

  /** The decode never fails when the codec knows `'utf-8'` and every label
      the detectors give. */
  lemma FallbackTotal(data: seq<byte>, codec: Codec)
    requires codec.decodeReplacing(data, DefaultEncoding).Success?
    requires Usable(codec.normalizer(data)) ==> codec.decodeReplacing(data, codec.normalizer(data).name).Success?
    requires Usable(codec.chardet(data)) ==> codec.decodeReplacing(data, codec.chardet(data).name).Success?
    ensures DecodeWithFallback(data, codec).Success?
  {
    FallbackOrder(data, codec);
  }
}
