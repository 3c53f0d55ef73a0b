/** `encodeURIComponent` over a string of Unicode scalar values: the
    characters it leaves alone pass through, every other character becomes
    the `%XY` escapes of its UTF-8 bytes, with upper-case hex digits. The
    decoder alongside it follows `decodeURIComponent` (it rejects malformed
    escapes, overlong forms and surrogate code points) and serves as the
    encoder's inverse: encoding is proved lossless, hence injective. */
module Uri {
  import opened Wrappers

  /** The characters `encodeURIComponent` does not escape. */
  predicate Unescaped(c: char) {
    || ('A' <= c <= 'Z') || ('a' <= c <= 'z') || ('0' <= c <= '9')
    || c == '-' || c == '_' || c == '.' || c == '!' || c == '~'
    || c == '*' || c == '\'' || c == '(' || c == ')'
  }

  predicate IsHexDigit(c: char) {
    ('0' <= c <= '9') || ('A' <= c <= 'F')
  }

  /** Characters that can appear in an encoded component. */
  predicate UriSafe(c: char) {
    Unescaped(c) || c == '%'
  }

  function HexDigit(d: int): (c: char)
    requires 0 <= d < 16
    ensures IsHexDigit(c)
  {
    if d < 10 then ('0' as int + d) as char else ('A' as int + d - 10) as char
  }

  function HexValue(c: char): Option<int> {
    if '0' <= c <= '9' then Some(c as int - '0' as int)
    else if 'A' <= c <= 'F' then Some(c as int - 'A' as int + 10)
    else if 'a' <= c <= 'f' then Some(c as int - 'a' as int + 10)
    else None
  }

  /** One byte as `%XY`. */
  function Pct(b: int): (r: string)
    requires 0 <= b < 256
    ensures |r| == 3 && r[0] == '%'
    ensures forall i :: 0 <= i < |r| ==> UriSafe(r[i])
  {
    ['%', HexDigit(b / 16), HexDigit(b % 16)]
  }

  /** The escapes of one character. */
  function EncodeChar(c: char): (r: string)
    ensures |r| >= 1
    ensures forall i :: 0 <= i < |r| ==> UriSafe(r[i])
    ensures Unescaped(c) <==> r == [c]
  {
    var cp := c as int;
    if Unescaped(c) then [c]
    else if cp < 0x80 then Pct(cp)
    else if cp < 0x800 then Pct(0xC0 + cp / 64) + Pct(0x80 + cp % 64)
    else if cp < 0x10000 then
      Pct(0xE0 + cp / 4096) + Pct(0x80 + (cp / 64) % 64) + Pct(0x80 + cp % 64)
    else
      Pct(0xF0 + cp / 262144) + Pct(0x80 + (cp / 4096) % 64)
        + Pct(0x80 + (cp / 64) % 64) + Pct(0x80 + cp % 64)
  }

  /** `encodeURIComponent(s)`. */
  function Encode(s: string): (r: string)
    ensures forall i :: 0 <= i < |r| ==> UriSafe(r[i])
    ensures |r| >= |s|
    decreases |s|
  {
    if |s| == 0 then "" else EncodeChar(s[0]) + Encode(s[1..])
  }

  /** The byte escaped at index `k`, if a well-formed escape starts there. */
  function ByteAt(s: string, k: nat): Option<int> {
    if k + 3 <= |s| && s[k] == '%' && HexValue(s[k + 1]).Some? && HexValue(s[k + 2]).Some? then
      Some(16 * HexValue(s[k + 1]).value + HexValue(s[k + 2]).value)
    else None
  }

  /** The six payload bits of a continuation byte escaped at index `k`. */
  function ContAt(s: string, k: nat): Option<int> {
    var b := ByteAt(s, k);
    if b.Some? && 0x80 <= b.value < 0xC0 then Some(b.value - 0x80) else None
  }

  /** A code point that is a Unicode scalar value of at least `least`. */
  function Scalar(cp: int, least: int, n: nat): Option<(char, nat)> {
    if least <= cp && (0 <= cp < 0xD800 || 0xE000 <= cp < 0x110000) then Some((cp as char, n))
    else None
  }

  /** Decodes the UTF-8 sequence of escapes at the start of `s`: the character
      and the number of input characters it used. */
  function DecodeEscape(s: string): (r: Option<(char, nat)>)
    ensures r.Some? ==> 3 <= r.value.1 <= |s|
  {
    var b0 := ByteAt(s, 0);
    if b0.None? then None
    else if b0.value < 0x80 then Some((b0.value as char, 3))
    else if 0xC0 <= b0.value < 0xE0 then
      var c1 := ContAt(s, 3);
      if c1.None? then None
      else Scalar((b0.value - 0xC0) * 64 + c1.value, 0x80, 6)
    else if 0xE0 <= b0.value < 0xF0 then
      var c1, c2 := ContAt(s, 3), ContAt(s, 6);
      if c1.None? || c2.None? then None
      else Scalar(((b0.value - 0xE0) * 64 + c1.value) * 64 + c2.value, 0x800, 9)
    else if 0xF0 <= b0.value < 0xF8 then
      var c1, c2, c3 := ContAt(s, 3), ContAt(s, 6), ContAt(s, 9);
      if c1.None? || c2.None? || c3.None? then None
      else Scalar((((b0.value - 0xF0) * 64 + c1.value) * 64 + c2.value) * 64 + c3.value, 0x10000, 12)
    else None
  }

  function Cons(c: char, r: Option<string>): Option<string> {
    if r.Some? then Some([c] + r.value) else None
  }

  /** `decodeURIComponent(s)`, `None` where it would throw. */
  function Decode(s: string): Option<string>
    decreases |s|
  {
    if |s| == 0 then Some("")
    else if s[0] != '%' then Cons(s[0], Decode(s[1..]))
    else
      var e := DecodeEscape(s);
      if e.None? then None else Cons(e.value.0, Decode(s[e.value.1..]))
  }

  lemma HexRoundTrip(d: int)
    requires 0 <= d < 16
    ensures HexValue(HexDigit(d)) == Some(d)
  {
  }

  /** An escape written by `Pct` reads back as its byte, wherever it sits. */
  lemma ByteAtPct(p: string, b: int, t: string)
    requires 0 <= b < 256
    ensures ByteAt(p + Pct(b) + t, |p|) == Some(b)
  {
    var s := p + Pct(b) + t;
    assert s[|p|] == '%' && s[|p| + 1] == HexDigit(b / 16) && s[|p| + 2] == HexDigit(b % 16);
    HexRoundTrip(b / 16);
    HexRoundTrip(b % 16);
  }

  /** The escapes of one character decode to that character, and decoding
      resumes right after them. */
  lemma DecodeEncodeChar(c: char, t: string)
    ensures Decode(EncodeChar(c) + t) == Cons(c, Decode(t))
  {
    var s := EncodeChar(c) + t;
    if Unescaped(c) {
      assert s[1..] == t;
    } else {
      var n := EscapeLength(c, t);
      assert s[0] == '%';
    }
  }

  /** For an escaped character: the escape sequence decodes to it and has
      length `n`. */
  lemma EscapeLength(c: char, t: string) returns (n: nat)
    requires !Unescaped(c)
    ensures 3 <= n <= |EncodeChar(c) + t|
    ensures DecodeEscape(EncodeChar(c) + t) == Some((c, n))
    ensures (EncodeChar(c) + t)[n..] == t
  {
    var cp := c as int;
    if cp < 0x80 {
      n := 3;
      ByteAtPct("", cp, t);
      assert "" + Pct(cp) + t == EncodeChar(c) + t;
    } else if cp < 0x800 {
      n := 6;
      EscapeTwo(c, t);
    } else if cp < 0x10000 {
      n := 9;
      EscapeThree(c, t);
    } else {
      n := 12;
      EscapeFour(c, t);
    }
  }

  lemma EscapeTwo(c: char, t: string)
    requires !Unescaped(c) && 0x80 <= c as int < 0x800
    ensures DecodeEscape(EncodeChar(c) + t) == Some((c, 6))
    ensures (EncodeChar(c) + t)[6..] == t
  {
    var cp := c as int;
    var b0, b1 := 0xC0 + cp / 64, 0x80 + cp % 64;
    assert EncodeChar(c) == Pct(b0) + Pct(b1);
    var s := Pct(b0) + Pct(b1) + t;
    DecodeTwo(b0, b1, t);
    assert (b0 - 0xC0) * 64 + (b1 - 0x80) == cp;
  }

  lemma DecodeTwo(b0: int, b1: int, t: string)
    requires 0xC0 <= b0 < 0xE0 && 0x80 <= b1 < 0xC0
    ensures DecodeEscape(Pct(b0) + Pct(b1) + t) == Scalar((b0 - 0xC0) * 64 + (b1 - 0x80), 0x80, 6)
    ensures (Pct(b0) + Pct(b1) + t)[6..] == t
  {
    var s := Pct(b0) + Pct(b1) + t;
    ByteAtPct("", b0, Pct(b1) + t);
    assert "" + Pct(b0) + (Pct(b1) + t) == s;
    ByteAtPct(Pct(b0), b1, t);
  }

  lemma EscapeThree(c: char, t: string)
    requires !Unescaped(c) && 0x800 <= c as int < 0x10000
    ensures DecodeEscape(EncodeChar(c) + t) == Some((c, 9))
    ensures (EncodeChar(c) + t)[9..] == t
  {
    var cp := c as int;
    var b0, b1, b2 := 0xE0 + cp / 4096, 0x80 + (cp / 64) % 64, 0x80 + cp % 64;
    assert EncodeChar(c) == Pct(b0) + Pct(b1) + Pct(b2);
    DecodeThree(b0, b1, b2, t);
    ThreeByteValue(cp);
  }

  lemma DecodeThree(b0: int, b1: int, b2: int, t: string)
    requires 0xE0 <= b0 < 0xF0 && 0x80 <= b1 < 0xC0 && 0x80 <= b2 < 0xC0
    ensures DecodeEscape(Pct(b0) + Pct(b1) + Pct(b2) + t)
         == Scalar(((b0 - 0xE0) * 64 + (b1 - 0x80)) * 64 + (b2 - 0x80), 0x800, 9)
    ensures (Pct(b0) + Pct(b1) + Pct(b2) + t)[9..] == t
  {
    var s := Pct(b0) + Pct(b1) + Pct(b2) + t;
    ByteAtPct("", b0, Pct(b1) + Pct(b2) + t);
    assert "" + Pct(b0) + (Pct(b1) + Pct(b2) + t) == s;
    ByteAtPct(Pct(b0), b1, Pct(b2) + t);
    assert Pct(b0) + Pct(b1) + (Pct(b2) + t) == s;
    ByteAtPct(Pct(b0) + Pct(b1), b2, t);
  }

  lemma EscapeFour(c: char, t: string)
    requires !Unescaped(c) && 0x10000 <= c as int
    ensures DecodeEscape(EncodeChar(c) + t) == Some((c, 12))
    ensures (EncodeChar(c) + t)[12..] == t
  {
    var cp := c as int;
    var b0, b1 := 0xF0 + cp / 262144, 0x80 + (cp / 4096) % 64;
    var b2, b3 := 0x80 + (cp / 64) % 64, 0x80 + cp % 64;
    assert EncodeChar(c) == Pct(b0) + Pct(b1) + Pct(b2) + Pct(b3);
    DecodeFour(b0, b1, b2, b3, t);
    FourByteValue(cp);
  }

  lemma DecodeFour(b0: int, b1: int, b2: int, b3: int, t: string)
    requires 0xF0 <= b0 < 0xF8 && 0x80 <= b1 < 0xC0 && 0x80 <= b2 < 0xC0 && 0x80 <= b3 < 0xC0
    ensures DecodeEscape(Pct(b0) + Pct(b1) + Pct(b2) + Pct(b3) + t)
         == Scalar((((b0 - 0xF0) * 64 + (b1 - 0x80)) * 64 + (b2 - 0x80)) * 64 + (b3 - 0x80), 0x10000, 12)
    ensures (Pct(b0) + Pct(b1) + Pct(b2) + Pct(b3) + t)[12..] == t
  {
    var s := Pct(b0) + Pct(b1) + Pct(b2) + Pct(b3) + t;
    ByteAtPct("", b0, Pct(b1) + Pct(b2) + Pct(b3) + t);
    assert "" + Pct(b0) + (Pct(b1) + Pct(b2) + Pct(b3) + t) == s;
    ByteAtPct(Pct(b0), b1, Pct(b2) + Pct(b3) + t);
    assert Pct(b0) + Pct(b1) + (Pct(b2) + Pct(b3) + t) == s;
    ByteAtPct(Pct(b0) + Pct(b1), b2, Pct(b3) + t);
    assert Pct(b0) + Pct(b1) + Pct(b2) + (Pct(b3) + t) == s;
    ByteAtPct(Pct(b0) + Pct(b1) + Pct(b2), b3, t);
  }

  lemma ThreeByteValue(cp: int)
    requires 0x800 <= cp < 0x10000
    ensures ((cp / 4096) * 64 + (cp / 64) % 64) * 64 + cp % 64 == cp
  {
  }

  lemma FourByteValue(cp: int)
    requires 0x10000 <= cp < 0x110000
    ensures (((cp / 262144) * 64 + (cp / 4096) % 64) * 64 + (cp / 64) % 64) * 64 + cp % 64 == cp
  {
  }

  /** Decoding undoes encoding. */
  lemma {:induction false} DecodeEncode(s: string)
    ensures Decode(Encode(s)) == Some(s)
    decreases |s|
  {
    if |s| > 0 {
      DecodeEncode(s[1..]);
      DecodeEncodeChar(s[0], Encode(s[1..]));
      assert [s[0]] + s[1..] == s;
    }
  }

  /** Distinct strings never encode alike. */
  lemma EncodeInjective(a: string, b: string)
    requires Encode(a) == Encode(b)
    ensures a == b
  {
    DecodeEncode(a);
    DecodeEncode(b);
  }
}
