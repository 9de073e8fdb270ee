/** UTF-8, section 3 of RFC 3629, and decoding with replacement characters. */
module Utf8 {

  type Byte = x: int | 0 <= x < 256

  function EncodeChar(c: char): (bytes: seq<Byte>)
    ensures 1 <= |bytes| <= 4
  {
    var n := c as int;
    if n < 0x80 then [n]
    else if n < 0x800 then [0xC0 + n / 64, 0x80 + n % 64]
    else if n < 0x1_0000 then [0xE0 + n / 4096, 0x80 + n / 64 % 64, 0x80 + n % 64]
    else [0xF0 + n / 262144, 0x80 + n / 4096 % 64, 0x80 + n / 64 % 64, 0x80 + n % 64]
  }

  function Encode(s: string): seq<Byte> {
    if s == "" then [] else EncodeChar(s[0]) + Encode(s[1..])
  }

  /** Bytes in a sequence that begins with `lead`, 0 when none does. */
  function Need(lead: Byte): (n: nat)
    ensures n <= 4
  {
    if lead < 0x80 then 1
    else if 0xC2 <= lead < 0xE0 then 2
    else if 0xE0 <= lead < 0xF0 then 3
    else if 0xF0 <= lead < 0xF5 then 4
    else 0
  }

  predicate IsTail(b: Byte) {
    0x80 <= b < 0xC0
  }

  /** The second byte's range depends on the first: no overlong form, no surrogate, nothing past U+10FFFF. */
  predicate IsSecond(lead: Byte, b: Byte) {
    IsTail(b) && (lead == 0xE0 ==> 0xA0 <= b) && (lead == 0xED ==> b < 0xA0)
    && (lead == 0xF0 ==> 0x90 <= b) && (lead == 0xF4 ==> b < 0x90)
  }

  /** How many leading bytes begin a well-formed sequence, at most its whole length. */
  function Matched(bytes: seq<Byte>): (n: nat)
    requires bytes != []
    ensures n <= |bytes| && n <= Need(bytes[0])
  {
    var need := Need(bytes[0]);
    if need == 0 then 0
    else if need == 1 || |bytes| < 2 || !IsSecond(bytes[0], bytes[1]) then 1
    else if need == 2 || |bytes| < 3 || !IsTail(bytes[2]) then 2
    else if need == 3 || |bytes| < 4 || !IsTail(bytes[3]) then 3
    else 4
  }

  /** The character a complete sequence stands for. */
  function Scalar(bytes: seq<Byte>): char
    requires bytes != [] && Matched(bytes) == Need(bytes[0]) > 0
  {
    var need := Need(bytes[0]);
    if need == 1 then bytes[0] as char
    else if need == 2 then Scalar2(bytes[0], bytes[1])
    else if need == 3 then Scalar3(bytes[0], bytes[1], bytes[2])
    else Scalar4(bytes[0], bytes[1], bytes[2], bytes[3])
  }

  function Scalar2(a: int, b: int): char
    requires 0xC2 <= a < 0xE0 && 0x80 <= b < 0xC0
  {
    ((a - 0xC0) * 64 + (b - 0x80)) as char
  }

  function Scalar3(a: int, b: int, c: int): char
    requires 0xE0 <= a < 0xF0 && 0x80 <= b < 0xC0 && 0x80 <= c < 0xC0
    requires a == 0xED ==> b < 0xA0
  {
    ((a - 0xE0) * 4096 + (b - 0x80) * 64 + (c - 0x80)) as char
  }

  function Scalar4(a: int, b: int, c: int, d: int): char
    requires 0xF0 <= a < 0xF5 && 0x80 <= b < 0xC0 && 0x80 <= c < 0xC0 && 0x80 <= d < 0xC0
    requires (a == 0xF0 ==> 0x90 <= b) && (a == 0xF4 ==> b < 0x90)
  {
    ((a - 0xF0) * 262144 + (b - 0x80) * 4096 + (c - 0x80) * 64 + (d - 0x80)) as char
  }

  /** `bytes.decode("utf-8", errors="replace")`: one U+FFFD for each maximal ill-formed part. */
  function Decode(bytes: seq<Byte>): string {
    if bytes == [] then ""
    else
      var n := Matched(bytes);
      if 0 < n == Need(bytes[0]) then [Scalar(bytes)] + Decode(bytes[n..])
      else ['\U{fffd}'] + Decode(bytes[if n == 0 then 1 else n..])
  }

  lemma CharSequence(c: char, bytes: seq<Byte>)
    requires EncodeChar(c) <= bytes
    ensures Matched(bytes) == Need(bytes[0]) == |EncodeChar(c)| && Scalar(bytes) == c
  {
    hide Scalar4, Scalar3, Scalar2;
    var e := EncodeChar(c);
    assert forall k :: 0 <= k < |e| ==> bytes[k] == e[k];
    var n := c as int;
    if n < 0x80 {
    } else if n < 0x800 {
      Round2(n);
    } else if n < 0x1_0000 {
      Round3(n);
    } else {
      Round4(n);
    }
  }

  lemma Round2(n: int)
    requires 0x80 <= n < 0x800
    ensures Scalar2(0xC0 + n / 64, 0x80 + n % 64) as int == n
  {}

  lemma Round3(n: int)
    requires 0x800 <= n < 0x1_0000 && !(0xD800 <= n < 0xE000)
    ensures 0xE0 <= 0xE0 + n / 4096 < 0xF0
    ensures n / 4096 == 0 ==> 0x20 <= n / 64 % 64
    ensures n / 4096 == 13 ==> n / 64 % 64 < 0x20
    ensures Scalar3(0xE0 + n / 4096, 0x80 + n / 64 % 64, 0x80 + n % 64) as int == n
  {}

  lemma Round4(n: int)
    requires 0x1_0000 <= n < 0x11_0000
    ensures 0xF0 <= 0xF0 + n / 262144 < 0xF5
    ensures n / 262144 == 0 ==> 0x10 <= n / 4096 % 64
    ensures n / 262144 == 4 ==> n / 4096 % 64 < 0x10
    ensures Scalar4(0xF0 + n / 262144, 0x80 + n / 4096 % 64, 0x80 + n / 64 % 64, 0x80 + n % 64) as int == n
  {
    assert n == 64 * (n / 64) + n % 64;
    assert n / 64 == 64 * (n / 4096) + n / 64 % 64;
    assert n / 4096 == 64 * (n / 262144) + n / 4096 % 64;
  }

  lemma DecodeChar(c: char, rest: seq<Byte>)
    ensures Decode(EncodeChar(c) + rest) == [c] + Decode(rest)
  {
    var e := EncodeChar(c);
    assert (e + rest)[|e|..] == rest;
    CharSequence(c, e + rest);
  }

  /** Every text survives being encoded and decoded. */
  lemma {:induction false} DecodeEncode(s: string)
    ensures Decode(Encode(s)) == s
  {
    if s != "" {
      DecodeEncode(s[1..]);
      DecodeChar(s[0], Encode(s[1..]));
    }
  }

  lemma MatchedWithin(x: seq<Byte>, y: seq<Byte>)
    requires x != [] && (y == [] || !IsTail(y[0]))
    ensures Matched(x + y) == Matched(x)
  {
    var s := x + y;
    assert s[0] == x[0];
    assert forall k :: 0 <= k < |x| ==> s[k] == x[k];
    assert y != [] ==> s[|x|] == y[0];
  }

  lemma SameScalar(x: seq<Byte>, y: seq<Byte>)
    requires x != [] && Matched(x + y) == Matched(x) == Need(x[0]) > 0
    ensures Scalar(x + y) == Scalar(x)
  {
    hide Scalar2, Scalar3, Scalar4;
    assert forall k :: 0 <= k < |x| ==> (x + y)[k] == x[k];
  }

  /** Whatever comes before it, well or ill formed, a byte that begins a character is where decoding takes up again. */
  lemma {:induction false} DecodeResumes(x: seq<Byte>, y: seq<Byte>)
    requires y == [] || !IsTail(y[0])
    ensures Decode(x + y) == Decode(x) + Decode(y)
    decreases |x|
  {
    hide Matched, Scalar, IsTail;
    if x == [] {
      assert x + y == y;
    } else {
      MatchedWithin(x, y);
      var n := Matched(x);
      if 0 < n == Need(x[0]) {
        SameScalar(x, y);
        assert (x + y)[n..] == x[n..] + y;
        DecodeResumes(x[n..], y);
      } else {
        var m := if n == 0 then 1 else n;
        assert (x + y)[m..] == x[m..] + y;
        DecodeResumes(x[m..], y);
      }
    }
  }

  /** No text is lost behind bytes that cannot be read. */
  lemma TextSurvives(bytes: seq<Byte>, text: string)
    ensures Decode(bytes + Encode(text)) == Decode(bytes) + text
  {
    hide Decode;
    DecodeEncode(text);
    if text != "" {
      assert Encode(text)[0] == EncodeChar(text[0])[0];
    }
    DecodeResumes(bytes, Encode(text));
  }

  lemma {:induction false} EncodeAppend(a: string, b: string)
    ensures Encode(a + b) == Encode(a) + Encode(b)
  {
    hide EncodeChar;
    if a == "" {
      assert a + b == b;
    } else {
      EncodeAppend(a[1..], b);
      assert (a + b)[1..] == a[1..] + b;
      assert EncodeChar(a[0]) + (Encode(a[1..]) + Encode(b)) == Encode(a) + Encode(b);
    }
  }

  /** Every character takes at least one byte. */
  lemma {:induction false} EncodeLength(s: string)
    ensures |s| <= |Encode(s)|
  {
    if s != "" {
      EncodeLength(s[1..]);
    }
  }
}
