/**
 * Unicode scalar values and their UTF-8 (RFC 3629) and UTF-16 (RFC 2781) lengths. Source text
 * is a sequence of scalar values; its bytes are `Encode(s)`.
 */
module Unicode {
  import opened Basics

  /** A Unicode scalar value: a code point that is not a surrogate. */
  type Scalar = c: int | 0 <= c < 0x11_0000 && !(0xD800 <= c < 0xE000)

  /** Bytes of c in UTF-8, 1 to 4 (section 3 of RFC 3629). */
  function Utf8Len(c: Scalar): nat {
    if c < 0x80 then 1 else if c < 0x800 then 2 else if c < 0x1_0000 then 3 else 4
  }

  /** UTF-16 code units of c: a surrogate pair above the Basic Multilingual Plane (RFC 2781). */
  function Utf16Len(c: Scalar): nat {
    if c >= 0x1_0000 then 2 else 1
  }

  /** The UTF-8 encoding of one scalar value (the table of section 3 of RFC 3629). */
  function EncodeChar(c: Scalar): (b: seq<byte>)
    ensures |b| == Utf8Len(c)
    ensures c < 0x80 ==> b == [c]
    ensures c >= 0x80 ==> b[0] >= 0xC0 && forall k :: 1 <= k < |b| ==> 0x80 <= b[k] < 0xC0
  {
    if c < 0x80 then [c]
    else if c < 0x800 then [0xC0 + c / 64, 0x80 + c % 64]
    else if c < 0x1_0000 then [0xE0 + c / 4096, 0x80 + (c / 64) % 64, 0x80 + c % 64]
    else [0xF0 + c / 262144, 0x80 + (c / 4096) % 64, 0x80 + (c / 64) % 64, 0x80 + c % 64]
  }

  /** The UTF-8 encoding of a string of scalar values. */
  function Encode(s: seq<Scalar>): seq<byte> {
    if s == [] then [] else EncodeChar(s[0]) + Encode(s[1..])
  }

  /** Total UTF-8 length of s. */
  function U8(s: seq<Scalar>): nat {
    if s == [] then 0 else Utf8Len(s[0]) + U8(s[1..])
  }

  /** Total UTF-16 length of s. */
  function U16(s: seq<Scalar>): nat {
    if s == [] then 0 else Utf16Len(s[0]) + U16(s[1..])
  }

  lemma {:induction false} EncodeLength(s: seq<Scalar>)
    ensures |Encode(s)| == U8(s)
  {
    if s != [] {
      EncodeLength(s[1..]);
    }
  }

  lemma {:induction false} EncodeAppend(a: seq<Scalar>, b: seq<Scalar>)
    ensures Encode(a + b) == Encode(a) + Encode(b)
    ensures U8(a + b) == U8(a) + U8(b)
    ensures U16(a + b) == U16(a) + U16(b)
  {
    if a != [] {
      assert (a + b)[1..] == a[1..] + b;
      EncodeAppend(a[1..], b);
    } else {
      assert a + b == b;
    }
  }

  /** Appending one scalar value to a prefix. */
  lemma PrefixStep(s: seq<Scalar>, i: nat)
    requires i < |s|
    ensures Encode(s[..i + 1]) == Encode(s[..i]) + EncodeChar(s[i])
    ensures U8(s[..i + 1]) == U8(s[..i]) + Utf8Len(s[i])
    ensures U16(s[..i + 1]) == U16(s[..i]) + Utf16Len(s[i])
  {
    assert s[..i + 1] == s[..i] + [s[i]];
    EncodeAppend(s[..i], [s[i]]);
    assert [s[i]][1..] == [];
  }

  /** UTF-16 length never exceeds UTF-8 length, and equals it for ASCII. */
  lemma {:induction false} U16AtMostU8(s: seq<Scalar>)
    ensures U16(s) <= U8(s)
    ensures (forall k :: 0 <= k < |s| ==> s[k] < 0x80) ==> U16(s) == U8(s)
  {
    if s != [] {
      U16AtMostU8(s[1..]);
    }
  }

  lemma {:induction false} U16Monotone(s: seq<Scalar>, i: nat, j: nat)
    requires i <= j <= |s|
    ensures U16(s[..i]) <= U16(s[..j]) && U8(s[..i]) <= U8(s[..j])
    ensures i < j ==> U16(s[..i]) < U16(s[..j]) && U8(s[..i]) < U8(s[..j])
    decreases j - i
  {
    if i < j {
      PrefixStep(s, j - 1);
      U16Monotone(s, i, j - 1);
    }
  }

  // ---------------------------------------------------------------------------------------
  // White space
  // ---------------------------------------------------------------------------------------

  /**
   * The White_Space property of the Unicode Character Database (Rust's `char::is_whitespace`).
   * In ASCII it is tab, line feed, vertical tab, form feed, carriage return and space; every
   * white-space character lies in the Basic Multilingual Plane.
   */
  function IsWhitespace(c: Scalar): (r: bool)
    ensures c < 0x80 ==> (r <==> c == SPACE as Scalar || TAB as Scalar <= c <= CR as Scalar)
    ensures r ==> Utf8Len(c) <= 3 && Utf16Len(c) == 1
  {
    || 0x09 <= c <= 0x0D || c == 0x20 || c == 0x85 || c == 0xA0 || c == 0x1680
    || 0x2000 <= c <= 0x200A || c == 0x2028 || c == 0x2029 || c == 0x202F || c == 0x205F
    || c == 0x3000
  }

  /**
   * Length of the UTF-8 encoded white-space character at the start of b, or 0 when b does not
   * start with one.
   */
  function WhitespaceLen(b: seq<byte>): (n: nat)
    ensures n <= |b|
  {
    if |b| >= 1 && (0x09 <= b[0] <= 0x0D || b[0] == 0x20) then 1
    else if |b| >= 2 && b[0] == 0xC2 && (b[1] == 0x85 || b[1] == 0xA0) then 2
    else if |b| >= 3 && b[0] == 0xE1 && b[1] == 0x9A && b[2] == 0x80 then 3
    else if |b| >= 3 && b[0] == 0xE2 && b[1] == 0x80
            && (0x80 <= b[2] <= 0x8A || b[2] == 0xA8 || b[2] == 0xA9 || b[2] == 0xAF) then 3
    else if |b| >= 3 && b[0] == 0xE2 && b[1] == 0x81 && b[2] == 0x9F then 3
    else if |b| >= 3 && b[0] == 0xE3 && b[1] == 0x80 && b[2] == 0x80 then 3
    else 0
  }

  /**
   * The UTF-8 bytes b consist of white-space characters only (`s.chars().all(char::is_whitespace)`).
   * Such bytes hold no ASCII character other than ASCII white space.
   */
  function AllWhitespace(b: seq<byte>): (r: bool)
    ensures r ==> forall k :: 0 <= k < |b| && b[k] < 0x80 ==> b[k] == SPACE || TAB <= b[k] <= CR
    decreases |b|
  {
    if b == [] then true
    else
      var n := WhitespaceLen(b);
      n > 0 && AllWhitespace(b[n..])
  }

  /** The first encoded character is recognised exactly when it is white space. */
  lemma WhitespaceLenOfChar(c: Scalar, rest: seq<byte>)
    ensures WhitespaceLen(EncodeChar(c) + rest) == if IsWhitespace(c) then Utf8Len(c) else 0
  {
    var b := EncodeChar(c) + rest;
    assert b[0] == EncodeChar(c)[0];
    if c < 0x80 {
    } else if c < 0x800 {
      assert b[1] == 0x80 + c % 64;
    } else if c < 0x1_0000 {
      assert b[1] == 0x80 + (c / 64) % 64 && b[2] == 0x80 + c % 64;
    } else {
      assert b[0] >= 0xF0;
    }
  }

  /** Byte-level white-space classification agrees with the character-level one. */
  lemma {:induction false} AllWhitespaceOfEncode(s: seq<Scalar>)
    ensures AllWhitespace(Encode(s)) <==> forall k :: 0 <= k < |s| ==> IsWhitespace(s[k])
  {
    if s != [] {
      WhitespaceLenOfChar(s[0], Encode(s[1..]));
      AllWhitespaceOfEncode(s[1..]);
      var b := Encode(s);
      if IsWhitespace(s[0]) {
        assert b[Utf8Len(s[0])..] == Encode(s[1..]);
      }
      assert forall k :: 1 <= k < |s| ==> s[k] == s[1..][k - 1];
    }
  }
}
