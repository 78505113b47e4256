/** Python's `urllib.parse.quote(s, safe="")`, which the assay-sample link uses
    for the assay name: the unreserved characters stay, every other
    character is written as the `%XX` escapes of its UTF-8 bytes, with
    upper-case hex digits. `Unquote` is `urllib.parse.unquote_to_bytes`, the
    reading a server applies to the escaped text. */
module Percent {

  /** One octet. */
  type Byte = b: int | 0 <= b < 256

  // -------------------------------------------------------------------------
  // UTF-8

  /** The UTF-8 encoding of one Unicode scalar value: one byte below U+0080,
      otherwise a lead byte announcing the length and continuation bytes, all
      of them at or above 0x80. */
  function Utf8(c: char): (bs: seq<Byte>)
    ensures 1 <= |bs| <= 4
    ensures |bs| == 1 <==> c as int < 0x80
    ensures |bs| == 1 ==> bs[0] == c as int
    ensures |bs| > 1 ==> forall i :: 0 <= i < |bs| ==> bs[i] >= 0x80
    ensures |bs| == LeadLength(bs[0])
  {
    var n := c as int;
    if n < 0x80 then [n]
    else if n < 0x800 then [0xC0 + n / 64, 0x80 + n % 64]
    else if n < 0x10000 then [0xE0 + n / 4096, 0x80 + (n / 64) % 64, 0x80 + n % 64]
    else [0xF0 + n / 262144, 0x80 + (n / 4096) % 64, 0x80 + (n / 64) % 64, 0x80 + n % 64]
  }

  /** How many bytes a sequence starting with lead byte `b` spans. */
  function LeadLength(b: Byte): nat {
    if b < 0x80 then 1
    else if b < 0xE0 then 2
    else if b < 0xF0 then 3
    else 4
  }

  /** The code point a UTF-8 sequence of one to four bytes stands for. */
  function DecodeUtf8(bs: seq<Byte>): int
    requires 1 <= |bs| <= 4
  {
    var b: seq<int> := bs;
    if |b| == 1 then b[0]
    else if |b| == 2 then (b[0] - 0xC0) * 64 + (b[1] - 0x80)
    else if |b| == 3 then (b[0] - 0xE0) * 4096 + (b[1] - 0x80) * 64 + (b[2] - 0x80)
    else (b[0] - 0xF0) * 262144 + (b[1] - 0x80) * 4096 + (b[2] - 0x80) * 64 + (b[3] - 0x80)
  }

  /** Decoding the encoding of a character gives the character back. */
  lemma Utf8Decodes(c: char)
    ensures DecodeUtf8(Utf8(c)) == c as int
  {
    var n := c as int;
    if n >= 0x10000 {
      FourDigits(n);
    } else if n >= 0x800 {
      ThreeDigits(n);
    }
  }

  /** `n` below 2^21 in four base-64 digits. */
  lemma FourDigits(n: int)
    requires 0 <= n
    ensures n == (n / 262144) * 262144 + ((n / 4096) % 64) * 4096 + ((n / 64) % 64) * 64 + n % 64
  {
    var a := n / 64;
    var b := a / 64;
    var c := b / 64;
    assert n == 4096 * b + (64 * (a % 64) + n % 64);
    assert n / 4096 == b;
    assert n == 262144 * c + (4096 * (b % 64) + 64 * (a % 64) + n % 64);
    assert n / 262144 == c;
  }

  /** `n` in three base-64 digits. */
  lemma ThreeDigits(n: int)
    requires 0 <= n < 0x40000
    ensures n == (n / 4096) * 4096 + ((n / 64) % 64) * 64 + n % 64
  {
  }

  /** Two characters with the same encoding are the same character. */
  lemma Utf8Injective(c: char, d: char)
    requires Utf8(c) == Utf8(d)
    ensures c == d
  {
    Utf8Decodes(c);
    Utf8Decodes(d);
  }

  /** The UTF-8 encoding of a string (`s.encode("utf-8")`). */
  function Utf8Encode(s: string): seq<Byte> {
    if s == [] then [] else Utf8(s[0]) + Utf8Encode(s[1..])
  }

  /** Distinct strings have distinct encodings: the lead byte of each
      character tells where the next one starts. */
  lemma {:induction false} Utf8EncodeInjective(s: string, t: string)
    requires Utf8Encode(s) == Utf8Encode(t)
    ensures s == t
  {
    if s != [] && t != [] {
      var a, b := Utf8(s[0]), Utf8(t[0]);
      assert Utf8Encode(s)[0] == a[0] && Utf8Encode(t)[0] == b[0];
      assert |a| == |b|;
      assert a == Utf8Encode(s)[..|a|] && b == Utf8Encode(t)[..|b|];
      Utf8Injective(s[0], t[0]);
      assert Utf8Encode(s[1..]) == Utf8Encode(s)[|a|..] && Utf8Encode(t[1..]) == Utf8Encode(t)[|b|..];
      Utf8EncodeInjective(s[1..], t[1..]);
    }
  }

  // -------------------------------------------------------------------------
  // Hex digits

  /** A hexadecimal digit in either case, as `unquote` accepts them. */
  predicate IsHexDigit(c: char) {
    '0' <= c <= '9' || 'a' <= c <= 'f' || 'A' <= c <= 'F'
  }

  /** The value of a hexadecimal digit. */
  function HexValue(c: char): (v: int)
    requires IsHexDigit(c)
    ensures 0 <= v < 16
  {
    if '0' <= c <= '9' then c as int - '0' as int
    else if 'a' <= c <= 'f' then c as int - 'a' as int + 10
    else c as int - 'A' as int + 10
  }

  /** The upper-case digit `quote` writes for `d`. */
  function HexDigit(d: int): (c: char)
    requires 0 <= d < 16
    ensures IsHexDigit(c) && HexValue(c) == d
    ensures '0' <= c <= '9' || 'A' <= c <= 'F'
  {
    if d < 10 then ('0' as int + d) as char else ('A' as int + d - 10) as char
  }

  // -------------------------------------------------------------------------
  // Quoting

  /** The characters `quote` never escapes: ASCII letters, digits and
      `_.-~`. */
  predicate IsUnreserved(c: char) {
    'A' <= c <= 'Z' || 'a' <= c <= 'z' || '0' <= c <= '9' || c == '_' || c == '.' || c == '-' || c == '~'
  }

  /** A character of quoted text: an unreserved character or the escape
      sign. */
  predicate IsQuotedChar(c: char) {
    IsUnreserved(c) || c == '%'
  }

  /** `%XX` for each byte. */
  function Escape(bs: seq<Byte>): (r: string)
    ensures |r| == 3 * |bs|
    ensures forall i :: 0 <= i < |r| ==> IsQuotedChar(r[i])
  {
    if bs == [] then [] else ['%', HexDigit(bs[0] / 16), HexDigit(bs[0] % 16)] + Escape(bs[1..])
  }

  /** One character as `quote(…, safe="")` writes it. */
  function QuoteChar(c: char): (r: string)
    ensures IsUnreserved(c) ==> r == [c]
    ensures !IsUnreserved(c) ==> |r| == 3 * |Utf8(c)| && r[0] == '%'
    ensures forall i :: 0 <= i < |r| ==> IsQuotedChar(r[i])
  {
    if IsUnreserved(c) then [c] else Escape(Utf8(c))
  }

  /** `quote(s, safe="")`: the result holds only unreserved characters and
      `%` (in particular no `&`, `=`, `?`, `/` or space, so it cannot end a
      query parameter early), is never shorter than `s`, and is `s` itself
      when `s` holds only unreserved characters. */
  function Quote(s: string): (r: string)
    ensures forall i :: 0 <= i < |r| ==> IsQuotedChar(r[i])
    ensures |r| >= |s|
    ensures (forall i :: 0 <= i < |s| ==> IsUnreserved(s[i])) ==> r == s
  {
    if s == [] then [] else QuoteChar(s[0]) + Quote(s[1..])
  }

  // -------------------------------------------------------------------------
  // Unquoting

  /** `unquote_to_bytes`: each `%` followed by two hex digits becomes the byte
      they spell; every other character stands for its UTF-8 bytes. */
  function Unquote(t: string): seq<Byte>
    decreases |t|
  {
    if t == [] then []
    else if t[0] == '%' && |t| >= 3 && IsHexDigit(t[1]) && IsHexDigit(t[2]) then
      [HexValue(t[1]) * 16 + HexValue(t[2])] + Unquote(t[3..])
    else Utf8(t[0]) + Unquote(t[1..])
  }

  /** Unquoting escapes gives back the escaped bytes, whatever follows. */
  lemma {:induction false} UnquoteEscape(bs: seq<Byte>, t: string)
    ensures Unquote(Escape(bs) + t) == bs + Unquote(t)
  {
    if bs != [] {
      var b := bs[0];
      var u := Escape(bs) + t;
      assert u == ['%', HexDigit(b / 16), HexDigit(b % 16)] + (Escape(bs[1..]) + t);
      assert u[0] == '%' && IsHexDigit(u[1]) && IsHexDigit(u[2]);
      assert u[3..] == Escape(bs[1..]) + t;
      assert HexValue(u[1]) * 16 + HexValue(u[2]) == b;
      assert Unquote(u) == [b] + Unquote(Escape(bs[1..]) + t);
      UnquoteEscape(bs[1..], t);
      assert bs == [b] + bs[1..];
    } else {
      assert Escape(bs) + t == t;
    }
  }

  /** Unquoting the quoted text gives the UTF-8 bytes of the original: the
      encoding loses nothing. */
  lemma {:induction false} UnquoteQuote(s: string)
    ensures Unquote(Quote(s)) == Utf8Encode(s)
  {
    if s != [] {
      var c := s[0];
      var rest := Quote(s[1..]);
      UnquoteQuote(s[1..]);
      if IsUnreserved(c) {
        var u := [c] + rest;
        assert u[0] == c && u[1..] == rest;
      } else {
        UnquoteEscape(Utf8(c), rest);
      }
    }
  }

  /** Distinct names are quoted differently. */
  lemma QuoteInjective(s: string, t: string)
    requires Quote(s) == Quote(t)
    ensures s == t
  {
    UnquoteQuote(s);
    UnquoteQuote(t);
    Utf8EncodeInjective(s, t);
  }
}
