/** The two string primitives the create route relies on: JavaScript's
    `String.prototype.trim` and the byte length produced by `TextEncoder`
    (UTF-8, as in RFC 3629). Strings are sequences of Unicode scalar values. */
module Text {

  type byte = x: int | 0 <= x < 256

  /** The characters `trim` removes: ECMA-262 WhiteSpace (tab, vertical tab,
      form feed, space, no-break space, byte order mark and the other
      space separators) and LineTerminator (LF, CR, LS, PS). */
  predicate IsWhitespace(c: char) {
    var n := c as int;
    || n == 0x09 || n == 0x0B || n == 0x0C || n == 0x20 || n == 0xA0 || n == 0xFEFF
    || n == 0x1680 || (0x2000 <= n <= 0x200A) || n == 0x202F || n == 0x205F || n == 0x3000
    || n == 0x0A || n == 0x0D || n == 0x2028 || n == 0x2029
  }

  predicate AllWhitespace(s: string) {
    forall k :: 0 <= k < |s| ==> IsWhitespace(s[k])
  }

  /** Number of whitespace characters at the front of `s`. */
  function LeadingSpace(s: string): (n: nat)
    ensures n <= |s|
    ensures forall k :: 0 <= k < n ==> IsWhitespace(s[k])
    ensures n < |s| ==> !IsWhitespace(s[n])
  {
    if |s| > 0 && IsWhitespace(s[0]) then 1 + LeadingSpace(s[1..]) else 0
  }

  /** Number of whitespace characters at the back of `s`. */
  function TrailingSpace(s: string): (n: nat)
    ensures n <= |s|
    ensures forall k :: |s| - n <= k < |s| ==> IsWhitespace(s[k])
    ensures n < |s| ==> !IsWhitespace(s[|s| - n - 1])
  {
    if |s| > 0 && IsWhitespace(s[|s| - 1]) then 1 + TrailingSpace(s[..|s| - 1]) else 0
  }

  /** `r` is what remains of `s` once a whitespace prefix and a whitespace
      suffix are cut off, and `r` neither starts nor ends with whitespace. */
  ghost predicate IsTrimOf(r: string, s: string) {
    && (exists a, b :: s == a + r + b && AllWhitespace(a) && AllWhitespace(b))
    && (r != [] ==> !IsWhitespace(r[0]) && !IsWhitespace(r[|r| - 1]))
  }

  /** JavaScript `s.trim()`. */
  function Trim(s: string): (r: string)
    ensures IsTrimOf(r, s)
    ensures |r| <= |s|
    ensures r == [] <==> AllWhitespace(s)
  {
    var i := LeadingSpace(s);
    var rest := s[i..];
    var j := TrailingSpace(rest);
    var r := rest[..|rest| - j];
    var front, back := s[..i], rest[|rest| - j..];
    assert AllWhitespace(front);
    assert AllWhitespace(back) by {
      forall k | 0 <= k < |back| ensures IsWhitespace(back[k]) {
        assert back[k] == rest[|rest| - j + k];
      }
    }
    assert s == front + r + back;
    if r == [] then
      assert s == front + back;
      AllWhitespaceAppend(front, back);
      r
    else
      assert r[0] == s[i] && r[|r| - 1] == rest[|rest| - j - 1];
      assert !AllWhitespace(s) by { assert !IsWhitespace(s[i]); }
      r
  }

  lemma AllWhitespaceAppend(a: string, b: string)
    requires AllWhitespace(a) && AllWhitespace(b)
    ensures AllWhitespace(a + b)
  {
  }

  /** Trimming twice is trimming once. */
  lemma {:induction false} TrimIdempotent(s: string)
    ensures Trim(Trim(s)) == Trim(s)
  {
  }

  /** Number of bytes UTF-8 uses for `c` (table in section 3 of RFC 3629). */
  function CodePointLength(c: char): nat {
    if c as int < 0x80 then 1
    else if c as int < 0x800 then 2
    else if c as int < 0x10000 then 3
    else 4
  }

  /** UTF-8 encoding of one code point. */
  function EncodeChar(c: char): (b: seq<byte>)
    ensures |b| == CodePointLength(c)
    ensures |b| == 1 <==> b[0] < 0x80
    ensures |b| == 2 <==> 0xC0 <= b[0] < 0xE0
    ensures |b| == 3 <==> 0xE0 <= b[0] < 0xF0
    ensures |b| == 4 <==> 0xF0 <= b[0] < 0xF8
    ensures forall k :: 1 <= k < |b| ==> 0x80 <= b[k] < 0xC0
  {
    var cp := c as int;
    if cp < 0x80 then [cp]
    else if cp < 0x800 then [0xC0 + cp / 0x40, 0x80 + cp % 0x40]
    else if cp < 0x10000 then
      [0xE0 + cp / 0x1000, 0x80 + (cp / 0x40) % 0x40, 0x80 + cp % 0x40]
    else
      [0xF0 + cp / 0x40000, 0x80 + (cp / 0x1000) % 0x40,
       0x80 + (cp / 0x40) % 0x40, 0x80 + cp % 0x40]
  }

  /** Inverse of `EncodeChar` on a well-formed single-character sequence. */
  function DecodeChar(b: seq<byte>): int
    requires 1 <= |b| <= 4
  {
    var n := |b|;
    if n == 1 then b[0] as int
    else if n == 2 then (b[0] as int - 0xC0) * 0x40 + (b[1] as int - 0x80)
    else if n == 3 then
      (b[0] as int - 0xE0) * 0x1000 + (b[1] as int - 0x80) * 0x40 + (b[2] as int - 0x80)
    else
      (b[0] as int - 0xF0) * 0x40000 + (b[1] as int - 0x80) * 0x1000
      + (b[2] as int - 0x80) * 0x40 + (b[3] as int - 0x80)
  }

  /** Each code point's encoding decodes back to it. */
  lemma EncodeCharRoundTrip(c: char)
    ensures DecodeChar(EncodeChar(c)) == c as int
  {
    var cp := c as int;
    if cp >= 0x10000 {
      var q := cp / 0x40;
      var q2 := q / 0x40;
      assert cp == q * 0x40 + cp % 0x40;
      assert q == q2 * 0x40 + q % 0x40;
      assert q2 == (q2 / 0x40) * 0x40 + q2 % 0x40;
      assert cp / 0x1000 == q2;
      assert cp / 0x40000 == q2 / 0x40;
    } else if cp >= 0x800 {
      var q := cp / 0x40;
      assert cp == q * 0x40 + cp % 0x40;
      assert q == (q / 0x40) * 0x40 + q % 0x40;
      assert cp / 0x1000 == q / 0x40;
    }
  }

  /** `TextEncoder().encode(s)`: its byte count is the per-code-point count
      `Utf8Length`, and it begins with the first character's encoding. */
  function Encode(s: string): (b: seq<byte>)
    ensures |b| == Utf8Length(s)
    ensures s != [] ==> b[..CodePointLength(s[0])] == EncodeChar(s[0])
  {
    if s == [] then [] else EncodeChar(s[0]) + Encode(s[1..])
  }

  /** Encoded size of `s`, counted code point by code point. */
  function Utf8Length(s: string): nat {
    if s == [] then 0 else CodePointLength(s[0]) + Utf8Length(s[1..])
  }

  /** Every code point takes between one and four bytes. */
  lemma {:induction false} Utf8LengthBounds(s: string)
    ensures |s| <= Utf8Length(s) <= 4 * |s|
    ensures Utf8Length(s) == 0 <==> s == []
  {
    if s != [] {
      Utf8LengthBounds(s[1..]);
    }
  }

  /** The encoded size is additive over concatenation. */
  lemma {:induction false} Utf8LengthAppend(a: string, b: string)
    ensures Utf8Length(a + b) == Utf8Length(a) + Utf8Length(b)
  {
    if a == [] {
      assert a + b == b;
    } else {
      assert (a + b)[1..] == a[1..] + b;
      Utf8LengthAppend(a[1..], b);
    }
  }

  /** Text made only of ASCII characters encodes to one byte per character. */
  lemma {:induction false} Utf8LengthAscii(s: string)
    requires forall k :: 0 <= k < |s| ==> s[k] as int < 0x80
    ensures Utf8Length(s) == |s|
  {
    if s != [] {
      Utf8LengthAscii(s[1..]);
    }
  }
}
