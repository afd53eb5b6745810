/** The handful of Python `str` built-ins the parser relies on, over
    `string == seq<char>` where one `char` is one code point (Python's `len`
    counts code points too). */
module Strings {

  /** Python's `str.isspace` on one code point (the characters `str.strip()`
      with no argument removes). */
  predicate IsSpace(c: char) {
    ('\U{9}' <= c <= '\U{D}') || ('\U{1C}' <= c <= ' ') ||
    c == '\U{85}' || c == '\U{A0}' || c == '\U{1680}' ||
    ('\U{2000}' <= c <= '\U{200A}') || c == '\U{2028}' || c == '\U{2029}' ||
    c == '\U{202F}' || c == '\U{205F}' || c == '\U{3000}'
  }

  /** `not s.strip()`: nothing but whitespace (the empty string included). */
  predicate IsBlank(s: string) {
    forall i :: 0 <= i < |s| ==> IsSpace(s[i])
  }

  // ---------------------------------------------------------------------
  // str.strip()

  /** The number of whitespace characters `s` starts with. */
  function LeadingSpaces(s: string): (n: nat)
    ensures n <= |s|
    ensures forall k :: 0 <= k < n ==> IsSpace(s[k])
    ensures n < |s| ==> !IsSpace(s[n])
  {
    if |s| > 0 && IsSpace(s[0]) then 1 + LeadingSpaces(s[1..]) else 0
  }

  /** The number of whitespace characters `s` ends with. */
  function TrailingSpaces(s: string): (n: nat)
    ensures n <= |s|
    ensures forall k :: |s| - n <= k < |s| ==> IsSpace(s[k])
    ensures n < |s| ==> !IsSpace(s[|s| - 1 - n])
  {
    if |s| > 0 && IsSpace(s[|s| - 1]) then 1 + TrailingSpaces(s[..|s| - 1]) else 0
  }

  /** `s.strip()`: the slice of `s` left once leading and trailing
      whitespace is removed. */
  function Strip(s: string): (r: string)
    ensures |r| <= |s|
    ensures LeadingSpaces(s) + |r| <= |s|
    ensures r == s[LeadingSpaces(s)..LeadingSpaces(s) + |r|]
    ensures IsBlank(s[..LeadingSpaces(s)]) && IsBlank(s[LeadingSpaces(s) + |r|..])
    ensures r == "" <==> IsBlank(s)
    ensures r != "" ==> !IsSpace(r[0]) && !IsSpace(r[|r| - 1])
  {
    var rest := s[LeadingSpaces(s)..];
    rest[..|rest| - TrailingSpaces(rest)]
  }

  /** `Strip` is the only slice with blank surroundings and non-blank ends:
      whatever way `s` splits as blank + core + blank, the core is `Strip(s)`. */
  lemma StripCharacterized(s: string, a: nat, core: string)
    requires a + |core| <= |s| && s[a..a + |core|] == core
    requires IsBlank(s[..a]) && IsBlank(s[a + |core|..])
    requires core == "" || (!IsSpace(core[0]) && !IsSpace(core[|core| - 1]))
    ensures Strip(s) == core
  {
    var r := Strip(s);
    var n := LeadingSpaces(s);
    if core == "" {
      forall i | 0 <= i < |s| ensures IsSpace(s[i]) {
        if i < a {
          assert s[..a][i] == s[i];
        } else {
          assert s[a..][i - a] == s[i];
        }
      }
    } else {
      var e := n + |r|;
      var f := a + |core|;
      forall k | 0 <= k < a ensures IsSpace(s[k]) {
        assert s[..a][k] == s[k];
      }
      forall k | f <= k < |s| ensures IsSpace(s[k]) {
        assert s[f..][k - f] == s[k];
      }
      forall k | 0 <= k < n ensures IsSpace(s[k]) {
        assert s[..n][k] == s[k];
      }
      forall k | e <= k < |s| ensures IsSpace(s[k]) {
        assert s[e..][k - e] == s[k];
      }
      assert s[a] == core[0] && s[f - 1] == core[|core| - 1];
      assert !IsBlank(s);
      assert s[n] == r[0] && s[e - 1] == r[|r| - 1];
      // the first and the last non-space characters are where both say
      assert n == a && e == f;
    }
  }

  /** The stripped string sits in `s` just after the leading whitespace. */
  lemma StripIsAt(s: string)
    ensures IsAt(s, Strip(s), LeadingSpaces(s))
  {
  }

  /** Stripping twice is stripping once. */
  lemma StripIdempotent(s: string)
    ensures Strip(Strip(s)) == Strip(s)
  {
    var r := Strip(s);
    StripCharacterized(r, 0, r);
  }

  // ---------------------------------------------------------------------
  // str.rfind(sub)

  /** `sub` occurs in `s` at index `i`. */
  predicate IsAt(s: string, sub: string, i: int) {
    0 <= i && i + |sub| <= |s| && s[i..i + |sub|] == sub
  }

  /** The highest index at most `i` where `sub` occurs in `s`, or -1. */
  function RFindUpTo(s: string, sub: string, i: int): (r: int)
    requires i <= |s| - |sub|
    ensures r == -1 || (0 <= r <= i && IsAt(s, sub, r))
    ensures forall k :: r < k <= i ==> !IsAt(s, sub, k)
    decreases i + 1
  {
    if i < 0 then -1
    else if IsAt(s, sub, i) then i
    else RFindUpTo(s, sub, i - 1)
  }

  /** `s.rfind(sub)`: the index of the rightmost occurrence of `sub` in `s`,
      or -1 when there is none. */
  function RFind(s: string, sub: string): (r: int)
    ensures r == -1 || IsAt(s, sub, r)
    ensures forall k :: r < k ==> !IsAt(s, sub, k)
  {
    RFindUpTo(s, sub, |s| - |sub|)
  }

  /** Every character occurs where it stands. */
  lemma CharIsAt(s: string, i: int)
    requires 0 <= i < |s|
    ensures IsAt(s, [s[i]], i)
  {
    assert s[i..i + 1] == [s[i]];
  }

  /** An occurrence inside a slice is an occurrence in the whole string
      that lies inside the slice, and the other way round. */
  lemma IsAtSlice(s: string, lo: nat, hi: nat, sub: string, i: int)
    requires lo <= hi <= |s|
    ensures IsAt(s[lo..hi], sub, i) <==> 0 <= i && i + |sub| <= hi - lo && IsAt(s, sub, lo + i)
  {
    if 0 <= i && i + |sub| <= hi - lo {
      var inner, outer := s[lo..hi][i..i + |sub|], s[lo + i..lo + i + |sub|];
      forall k | 0 <= k < |sub| ensures inner[k] == outer[k] {
        assert inner[k] == s[lo..hi][i + k] == s[lo + i + k];
      }
      assert inner == outer;
    }
  }

  // ---------------------------------------------------------------------
  // sep.join(parts)

  /** `sep.join(parts)`. */
  function Join(parts: seq<string>, sep: string): (r: string)
    ensures parts == [] ==> r == ""
    ensures |parts| > 0 ==> |r| >= |parts[0]|
  {
    if |parts| == 0 then ""
    else if |parts| == 1 then parts[0]
    else Join(parts[..|parts| - 1], sep) + sep + parts[|parts| - 1]
  }

  /** Joining two non-empty lists is joining each and putting one separator
      between them. */
  lemma {:induction false} JoinConcat(a: seq<string>, b: seq<string>, sep: string)
    requires a != [] && b != []
    ensures Join(a + b, sep) == Join(a, sep) + sep + Join(b, sep)
    decreases |b|
  {
    if |b| == 1 {
      assert (a + b)[..|a + b| - 1] == a;
    } else {
      var b' := b[..|b| - 1];
      assert (a + b)[..|a + b| - 1] == a + b';
      JoinConcat(a, b', sep);
    }
  }

  /** Total length of a list of strings. */
  function TotalLength(parts: seq<string>): nat {
    if parts == [] then 0 else TotalLength(parts[..|parts| - 1]) + |parts[|parts| - 1]|
  }

  /** The join holds every part and one separator between each two. */
  lemma {:induction false} JoinLength(parts: seq<string>, sep: string)
    requires parts != []
    ensures |Join(parts, sep)| == TotalLength(parts) + (|parts| - 1) * |sep|
  {
    if |parts| > 1 {
      JoinLength(parts[..|parts| - 1], sep);
    }
  }

  // ---------------------------------------------------------------------
  // str.lower() as far as matching file suffixes goes

  /** Python's lower-casing of one code point for every code point whose
      lower-case form is an ASCII letter: A-Z and KELVIN SIGN (U+212A);
      every other code point is left alone. */
  function LowerChar(c: char): (r: char)
    ensures !('A' <= r <= 'Z')
    ensures 'A' <= c <= 'Z' ==> 'a' <= r <= 'z' && r as int == c as int + 32
    ensures c == '\U{212A}' ==> r == 'k'
    ensures !('A' <= c <= 'Z') && c != '\U{212A}' ==> r == c
  {
    if 'A' <= c <= 'Z' then (c as int + 32) as char
    else if c == '\U{212A}' then 'k'
    else c
  }

  function Lower(s: string): (r: string)
    ensures |r| == |s|
    ensures forall i :: 0 <= i < |r| ==> r[i] == LowerChar(s[i])
  {
    seq(|s|, i requires 0 <= i < |s| => LowerChar(s[i]))
  }

  /** Comparing `s.lower()` with a lower-case target ignores case: each
      character of `s` is the target's, its capital, or (for `k`) the Kelvin
      sign. */
  lemma LowerMatches(s: string, t: string)
    requires forall i :: 0 <= i < |t| ==> !('A' <= t[i] <= 'Z') && t[i] != '\U{212A}'
    ensures Lower(s) == t <==> |s| == |t| && forall i :: 0 <= i < |s| ==>
      || s[i] == t[i]
      || ('a' <= t[i] <= 'z' && s[i] as int == t[i] as int - 32)
      || (t[i] == 'k' && s[i] == '\U{212A}')
  {
    if |s| == |t| {
      forall i | 0 <= i < |s|
        ensures LowerChar(s[i]) == t[i] <==>
          || s[i] == t[i]
          || ('a' <= t[i] <= 'z' && s[i] as int == t[i] as int - 32)
          || (t[i] == 'k' && s[i] == '\U{212A}')
      {
      }
      if Lower(s) != t {
        var i :| 0 <= i < |s| && Lower(s)[i] != t[i];
      }
    }
  }

  // ---------------------------------------------------------------------
  // str(n) for a natural number

  function DigitChar(d: nat): (c: char)
    requires d < 10
    ensures '0' <= c <= '9'
  {
    ('0' as int + d) as char
  }

  predicate IsDigits(s: string) {
    forall i :: 0 <= i < |s| ==> '0' <= s[i] <= '9'
  }

  /** `str(n)`: the decimal digits of `n`, without leading zeros. */
  function DecimalString(n: nat): (r: string)
    ensures |r| >= 1 && IsDigits(r)
    ensures r[0] == '0' ==> n == 0 && r == "0"
  {
    if n < 10 then [DigitChar(n)] else DecimalString(n / 10) + [DigitChar(n % 10)]
  }

  /** `int(s)` for a string of decimal digits. */
  function ParseDecimal(s: string): nat
    requires IsDigits(s)
  {
    if s == [] then 0 else ParseDecimal(s[..|s| - 1]) * 10 + (s[|s| - 1] as int - '0' as int)
  }

  /** `int(str(n)) == n`: section numbers can be read back from headers. */
  lemma {:induction false} DecimalRoundTrip(n: nat)
    ensures ParseDecimal(DecimalString(n)) == n
  {
    var r := DecimalString(n);
    if n >= 10 {
      DecimalRoundTrip(n / 10);
      assert r[..|r| - 1] == DecimalString(n / 10);
    }
  }
}
