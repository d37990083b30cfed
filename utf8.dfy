/**
 * Strict UTF-8, as Python's `bytes.decode('utf-8')` applies it: shortest
 * forms only, no surrogate code points, nothing above U+10FFFF, and a
 * truncated sequence at the end is an error. `Decode` answers `None` where
 * Python raises `UnicodeDecodeError`. `Encode` is what a client does to
 * its text before writing it.
 */
module Utf8 {
  import opened Wrappers

  type byte = x: int | 0 <= x < 256

  predicate IsContinuation(b: byte) {
    0x80 <= b <= 0xBF
  }

  /** The UTF-8 form of one code point. */
  function EncodeChar(c: char): (r: seq<byte>)
    ensures 1 <= |r| <= 4
  {
    var cp := c as int;
    var q1 := cp / 64;
    var q2 := q1 / 64;
    var q3 := q2 / 64;
    if cp < 0x80 then [cp]
    else if cp < 0x800 then [0xC0 + q1, 0x80 + cp % 64]
    else if cp < 0x10000 then [0xE0 + q2, 0x80 + q1 % 64, 0x80 + cp % 64]
    else [0xF0 + q3, 0x80 + q2 % 64, 0x80 + q1 % 64, 0x80 + cp % 64]
  }

  function Encode(s: string): (r: seq<byte>)
    ensures |s| <= |r| <= 4 * |s|
    ensures s == [] <==> r == []
  {
    if s == [] then [] else EncodeChar(s[0]) + Encode(s[1..])
  }

  /** Lowest and highest second byte allowed after a three-byte lead byte. */
  function Second3Low(b0: byte): byte { if b0 == 0xE0 then 0xA0 else 0x80 }
  function Second3High(b0: byte): byte { if b0 == 0xED then 0x9F else 0xBF }

  /** Lowest and highest second byte allowed after a four-byte lead byte. */
  function Second4Low(b0: byte): byte { if b0 == 0xF0 then 0x90 else 0x80 }
  function Second4High(b0: byte): byte { if b0 == 0xF4 then 0x8F else 0xBF }

  /** The code point a two-, three- or four-byte sequence carries. */
  function Point2(b0: int, b1: int): int { (b0 - 0xC0) * 64 + (b1 - 0x80) }
  function Point3(b0: int, b1: int, b2: int): int { (b0 - 0xE0) * 4096 + (b1 - 0x80) * 64 + (b2 - 0x80) }
  function Point4(b0: int, b1: int, b2: int, b3: int): int {
    (b0 - 0xF0) * 262144 + (b1 - 0x80) * 4096 + (b2 - 0x80) * 64 + (b3 - 0x80)
  }

  /** The first code point of `b` and the number of bytes it takes, if `b` starts with a valid one. */
  function DecodeChar(b: seq<byte>): (r: Option<(char, nat)>)
    ensures r.Some? ==> 1 <= r.value.1 <= |b| && r.value.1 <= 4
  {
    if |b| == 0 then None
    else if b[0] < 0x80 then Some((b[0] as char, 1))
    else if 0xC2 <= b[0] <= 0xDF then
      if |b| >= 2 && IsContinuation(b[1])
      then Some((Point2(b[0], b[1]) as char, 2))
      else None
    else if 0xE0 <= b[0] <= 0xEF then
      if |b| >= 3 && Second3Low(b[0]) <= b[1] <= Second3High(b[0]) && IsContinuation(b[2])
      then Some((Point3(b[0], b[1], b[2]) as char, 3))
      else None
    else if 0xF0 <= b[0] <= 0xF4 then
      if |b| >= 4 && Second4Low(b[0]) <= b[1] <= Second4High(b[0])
         && IsContinuation(b[2]) && IsContinuation(b[3])
      then Some((Point4(b[0], b[1], b[2], b[3]) as char, 4))
      else None
    else None
  }

  /** `bytes.decode('utf-8')`: the whole input must be well formed. */
  function Decode(b: seq<byte>): (r: Option<string>)
    decreases |b|
    ensures r.Some? ==> |r.value| <= |b| <= 4 * |r.value|
  {
    if |b| == 0 then Some("")
    else match DecodeChar(b)
      case None => None
      case Some((c, n)) =>
        match Decode(b[n..])
        case None => None
        case Some(t) => Some([c] + t)
  }

  /** Decoding reads back the code point that `EncodeChar` wrote, whatever follows it. */
  lemma DecodeEncodeChar(c: char, rest: seq<byte>)
    ensures DecodeChar(EncodeChar(c) + rest) == Some((c, |EncodeChar(c)|))
  {
    var cp := c as int;
    var e := EncodeChar(c);
    var b := e + rest;
    assert b[..|e|] == e;
    if cp < 0x80 {
    } else if cp < 0x800 {
      assert Point2(b[0], b[1]) == cp by { Split2(cp); }
    } else if cp < 0x10000 {
      assert Point3(b[0], b[1], b[2]) == cp by { Split3(cp); }
    } else {
      assert Point4(b[0], b[1], b[2], b[3]) == cp by { Split4(cp); }
    }
  }

  lemma Split2(cp: int)
    requires 0x80 <= cp < 0x800
    ensures Point2(0xC0 + cp / 64, 0x80 + cp % 64) == cp
  {
  }

  lemma Split3(cp: int)
    requires 0x800 <= cp < 0x10000
    ensures Point3(0xE0 + cp / 64 / 64, 0x80 + cp / 64 % 64, 0x80 + cp % 64) == cp
  {
    var q1 := cp / 64;
    assert cp == 64 * q1 + cp % 64;
    assert q1 == 64 * (q1 / 64) + q1 % 64;
  }

  lemma Split4(cp: int)
    requires 0x10000 <= cp
    ensures Point4(0xF0 + cp / 64 / 64 / 64, 0x80 + cp / 64 / 64 % 64, 0x80 + cp / 64 % 64, 0x80 + cp % 64) == cp
  {
    var q1 := cp / 64;
    var q2 := q1 / 64;
    assert cp == 64 * q1 + cp % 64;
    assert q1 == 64 * q2 + q1 % 64;
    assert q2 == 64 * (q2 / 64) + q2 % 64;
  }

  lemma EncodePoint2(b0: byte, b1: byte)
    requires 0xC2 <= b0 <= 0xDF && IsContinuation(b1)
    ensures EncodeChar(Point2(b0, b1) as char) == [b0, b1]
  {
    var cp := Point2(b0, b1);
    assert cp / 64 == b0 as int - 0xC0 && cp % 64 == b1 as int - 0x80;
  }

  lemma EncodePoint3(b0: byte, b1: byte, b2: byte)
    requires 0xE0 <= b0 <= 0xEF && Second3Low(b0) <= b1 <= Second3High(b0) && IsContinuation(b2)
    ensures EncodeChar(Point3(b0, b1, b2) as char) == [b0, b1, b2]
  {
    var cp := Point3(b0, b1, b2);
    var q1 := (b0 as int - 0xE0) * 64 + (b1 as int - 0x80);
    assert cp == q1 * 64 + (b2 as int - 0x80);
    assert cp / 64 == q1 && cp % 64 == b2 as int - 0x80;
    assert q1 / 64 == b0 as int - 0xE0 && q1 % 64 == b1 as int - 0x80;
  }

  lemma EncodePoint4(b0: byte, b1: byte, b2: byte, b3: byte)
    requires 0xF0 <= b0 <= 0xF4 && Second4Low(b0) <= b1 <= Second4High(b0)
    requires IsContinuation(b2) && IsContinuation(b3)
    ensures EncodeChar(Point4(b0, b1, b2, b3) as char) == [b0, b1, b2, b3]
  {
    var cp := Point4(b0, b1, b2, b3);
    var q2 := (b0 as int - 0xF0) * 64 + (b1 as int - 0x80);
    var q1 := q2 * 64 + (b2 as int - 0x80);
    assert cp == q1 * 64 + (b3 as int - 0x80);
    assert cp / 64 == q1 && cp % 64 == b3 as int - 0x80;
    assert q1 / 64 == q2 && q1 % 64 == b2 as int - 0x80;
    assert q2 / 64 == b0 as int - 0xF0 && q2 % 64 == b1 as int - 0x80;
  }

  /** A code point that decodes from `b` was written as exactly the bytes it consumed. */
  lemma EncodeDecodeChar(b: seq<byte>)
    requires DecodeChar(b).Some?
    ensures EncodeChar(DecodeChar(b).value.0) == b[..DecodeChar(b).value.1]
  {
    if b[0] < 0x80 {
    } else if b[0] <= 0xDF {
      EncodePoint2(b[0], b[1]);
    } else if b[0] <= 0xEF {
      EncodePoint3(b[0], b[1], b[2]);
    } else {
      EncodePoint4(b[0], b[1], b[2], b[3]);
    }
  }

  lemma {:induction false} EncodeAppend(a: string, b: string)
    ensures Encode(a + b) == Encode(a) + Encode(b)
  {
    if a == [] {
      assert a + b == b;
    } else {
      assert (a + b)[0] == a[0] && (a + b)[1..] == a[1..] + b;
      EncodeAppend(a[1..], b);
      calc {
        Encode(a + b);
        EncodeChar(a[0]) + Encode(a[1..] + b);
        EncodeChar(a[0]) + (Encode(a[1..]) + Encode(b));
        (EncodeChar(a[0]) + Encode(a[1..])) + Encode(b);
      }
    }
  }

  /** Round trip: a decoder reads back every encoded string. */
  lemma {:induction false} DecodeEncode(s: string)
    ensures Decode(Encode(s)) == Some(s)
  {
    if s != [] {
      var e := EncodeChar(s[0]);
      DecodeEncodeChar(s[0], Encode(s[1..]));
      assert (e + Encode(s[1..]))[|e|..] == Encode(s[1..]);
      DecodeEncode(s[1..]);
      assert s == [s[0]] + s[1..];
    }
  }

  /** Round trip: whatever decodes was the encoding of what it decoded to. */
  lemma {:induction false} EncodeDecode(b: seq<byte>)
    requires Decode(b).Some?
    ensures Encode(Decode(b).value) == b
    decreases |b|
  {
    if |b| > 0 {
      DecodeCons(b);
      var c, n := DecodeChar(b).value.0, DecodeChar(b).value.1;
      var rest := Decode(b[n..]).value;
      calc {
        Encode(Decode(b).value);
        Encode([c] + rest);
        { EncodeCons(c, rest); }
        EncodeChar(c) + Encode(rest);
        { EncodeDecodeChar(b); EncodeDecode(b[n..]); }
        b[..n] + b[n..];
        b;
      }
    }
  }

  /** A non-empty input that decodes starts with a code point, and the rest decodes on its own. */
  lemma {:induction false} DecodeCons(b: seq<byte>)
    requires |b| > 0 && Decode(b).Some?
    ensures DecodeChar(b).Some?
    ensures Decode(b[DecodeChar(b).value.1..]).Some?
    ensures Decode(b).value == [DecodeChar(b).value.0] + Decode(b[DecodeChar(b).value.1..]).value
  {
  }

  lemma {:induction false} EncodeCons(c: char, rest: string)
    ensures Encode([c] + rest) == EncodeChar(c) + Encode(rest)
  {
    assert ([c] + rest)[0] == c && ([c] + rest)[1..] == rest;
  }

  /** Two strings whose encodings are prefix-related were prefix-related already. */
  lemma {:induction false} EncodePrefix(t: string, s: string)
    requires |Encode(t)| <= |Encode(s)| && Encode(t) == Encode(s)[..|Encode(t)|]
    ensures |t| <= |s| && t == s[..|t|]
    ensures |Encode(t)| < |Encode(s)| ==> |t| < |s|
  {
    var tail := Encode(s)[|Encode(t)|..];
    assert Encode(t) + tail == Encode(s);
    EncodeThenTail(t, s, tail);
  }

  /** `EncodePrefix` with the rest of `s`'s encoding named: induction on `t`. */
  lemma {:induction false} EncodeThenTail(t: string, s: string, tail: seq<byte>)
    requires Encode(t) + tail == Encode(s)
    ensures |t| <= |s| && t == s[..|t|]
    ensures tail != [] ==> |t| < |s|
    decreases |t|
  {
    if t == [] {
      assert tail == Encode(s);
    } else {
      assert s != [];
      SameHead(t, s, tail);
      EncodeThenTail(t[1..], s[1..], tail);
      assert t == [t[0]] + t[1..];
      assert s[..|t|] == [s[0]] + s[1..][..|t| - 1];
    }
  }

  /** Two encodings that agree up to the end of the first code point start with the same code point. */
  lemma {:induction false} SameHead(t: string, s: string, tail: seq<byte>)
    requires t != [] && s != [] && Encode(t) + tail == Encode(s)
    ensures t[0] == s[0] && Encode(t[1..]) + tail == Encode(s[1..])
  {
    var x, r := EncodeChar(t[0]), Encode(t[1..]);
    assert Encode(t) == x + r;
    assert Encode(s) == EncodeChar(s[0]) + Encode(s[1..]);
    AppendAssoc(x, r, tail);
    FirstCharDetermined(t[0], r + tail, s[0], Encode(s[1..]));
  }

  lemma {:induction false} AppendAssoc<T>(a: seq<T>, b: seq<T>, c: seq<T>)
    ensures (a + b) + c == a + (b + c)
  {
  }

  /** The bytes of one code point cannot be the start of another's: the code point and what follows are determined. */
  lemma {:induction false} FirstCharDetermined(c: char, rest: seq<byte>, d: char, rest2: seq<byte>)
    requires EncodeChar(c) + rest == EncodeChar(d) + rest2
    ensures c == d && rest == rest2
  {
    DecodeEncodeChar(c, rest);
    DecodeEncodeChar(d, rest2);
    var n := |EncodeChar(c)|;
    assert rest == (EncodeChar(c) + rest)[n..];
    assert rest2 == (EncodeChar(d) + rest2)[n..];
  }

  /**
   * A prefix of an encoded string that decodes at all decodes to a prefix
   * of that string, and to the whole string only when it is the whole
   * encoding.
   */
  lemma DecodeEncodedPrefix(s: string, k: nat)
    requires k <= |Encode(s)| && Decode(Encode(s)[..k]).Some?
    ensures var t := Decode(Encode(s)[..k]).value; |t| <= |s| && t == s[..|t|]
    ensures k < |Encode(s)| ==> |Decode(Encode(s)[..k]).value| < |s|
  {
    var t := Decode(Encode(s)[..k]).value;
    EncodeDecode(Encode(s)[..k]);
    EncodePrefix(t, s);
  }
}
