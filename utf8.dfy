/** UTF-8, the `format` of the file transfer: `str.encode()` and the strict
    `bytes.decode('utf-8')`, which refuses overlong forms, surrogates and
    code points past U+10FFFF. Characters are Unicode scalar values. */
module Utf8 {
  import opened Wrappers
  import opened Bytes

  /** A continuation byte `10xxxxxx`. */
  predicate Cont(b: byte)
  {
    0x80 <= b < 0xC0
  }

  /** The one to four bytes of a scalar value. */
  function EncodeChar(c: char): (bs: seq<byte>)
    ensures 1 <= |bs| <= 4
    ensures (c as int < 0x80) <==> |bs| == 1
    ensures |bs| == 1 ==> bs[0] as int == c as int
  {
    var cp := c as int;
    var q1 := cp / 64;
    var q2 := q1 / 64;
    var q3 := q2 / 64;
    if cp < 0x80 then [cp as byte]
    else if cp < 0x800 then [(0xC0 + q1) as byte, (0x80 + cp % 64) as byte]
    else if cp < 0x1_0000 then [(0xE0 + q2) as byte, (0x80 + q1 % 64) as byte, (0x80 + cp % 64) as byte]
    else [(0xF0 + q3) as byte, (0x80 + q2 % 64) as byte, (0x80 + q1 % 64) as byte, (0x80 + cp % 64) as byte]
  }

  /** `s.encode('utf-8')`. */
  function Encode(s: string): (bs: seq<byte>)
    ensures |bs| >= |s|
  {
    if s == [] then [] else EncodeChar(s[0]) + Encode(s[1..])
  }

  /** The first character of a well-formed sequence and the number of bytes
      it takes; `None` where the decoder raises. */
  function DecodeFirst(bs: seq<byte>): (r: Option<(char, nat)>)
    requires |bs| > 0
    ensures r.Some? ==> 1 <= r.value.1 <= |bs|
  {
    var b0 := bs[0] as int;
    if b0 < 0x80 then Some((b0 as char, 1))
    else if 0xC2 <= b0 < 0xE0 then
      if |bs| >= 2 && Cont(bs[1]) then
        Some((((b0 - 0xC0) * 64 + (bs[1] as int - 0x80)) as char, 2))
      else None
    else if 0xE0 <= b0 < 0xF0 then
      var lo := if b0 == 0xE0 then 0xA0 else 0x80;
      var hi := if b0 == 0xED then 0xA0 else 0xC0;
      if |bs| >= 3 && lo <= bs[1] as int < hi && Cont(bs[2]) then
        Some((((b0 - 0xE0) * 4096 + (bs[1] as int - 0x80) * 64 + (bs[2] as int - 0x80)) as char, 3))
      else None
    else if 0xF0 <= b0 < 0xF5 then
      var lo := if b0 == 0xF0 then 0x90 else 0x80;
      var hi := if b0 == 0xF4 then 0x90 else 0xC0;
      if |bs| >= 4 && lo <= bs[1] as int < hi && Cont(bs[2]) && Cont(bs[3]) then
        Some((((b0 - 0xF0) * 262144 + (bs[1] as int - 0x80) * 4096
               + (bs[2] as int - 0x80) * 64 + (bs[3] as int - 0x80)) as char, 4))
      else None
    else None
  }

  /** `bs.decode('utf-8')`; `None` is the UnicodeDecodeError case. */
  function Decode(bs: seq<byte>): (r: Option<string>)
    decreases |bs|
  {
    if bs == [] then Some([])
    else
      match DecodeFirst(bs)
      case None => None
      case Some((c, n)) =>
        match Decode(bs[n..])
        case None => None
        case Some(rest) => Some([c] + rest)
  }

  /** The decoder reads back exactly the character the encoder wrote, and
      stops where its bytes end. */
  lemma DecodeFirstEncodeChar(c: char, rest: seq<byte>)
    ensures DecodeFirst(EncodeChar(c) + rest) == Some((c, |EncodeChar(c)|))
  {
    var cp := c as int;
    if 0x80 <= cp < 0x800 {
      DecodeFirstEncodeTwo(c, rest);
    } else if 0x800 <= cp < 0x1_0000 {
      DecodeFirstEncodeThree(c, rest);
    } else if 0x1_0000 <= cp {
      DecodeFirstEncodeFour(c, rest);
    }
  }

  lemma DecodeFirstEncodeTwo(c: char, rest: seq<byte>)
    requires 0x80 <= c as int < 0x800
    ensures DecodeFirst(EncodeChar(c) + rest) == Some((c, 2))
  {
    var cp := c as int;
    var q1 := cp / 64;
    assert cp == q1 * 64 + cp % 64;
    var bs := EncodeChar(c) + rest;
    assert bs[0] as int == 0xC0 + q1 && bs[1] as int == 0x80 + cp % 64;
  }

  lemma DecodeFirstEncodeThree(c: char, rest: seq<byte>)
    requires 0x800 <= c as int < 0x1_0000
    ensures DecodeFirst(EncodeChar(c) + rest) == Some((c, 3))
  {
    var cp := c as int;
    var q1 := cp / 64;
    var q2 := q1 / 64;
    assert cp == q1 * 64 + cp % 64;
    assert q1 == q2 * 64 + q1 % 64;
    var bs := EncodeChar(c) + rest;
    assert bs[0] as int == 0xE0 + q2 && bs[1] as int == 0x80 + q1 % 64 && bs[2] as int == 0x80 + cp % 64;
  }

  lemma DecodeFirstEncodeFour(c: char, rest: seq<byte>)
    requires 0x1_0000 <= c as int
    ensures DecodeFirst(EncodeChar(c) + rest) == Some((c, 4))
  {
    var cp := c as int;
    var q1 := cp / 64;
    var q2 := q1 / 64;
    var q3 := q2 / 64;
    assert cp == q1 * 64 + cp % 64;
    assert q1 == q2 * 64 + q1 % 64;
    assert q2 == q3 * 64 + q2 % 64;
    var bs := EncodeChar(c) + rest;
    assert bs[0] as int == 0xF0 + q3 && bs[1] as int == 0x80 + q2 % 64;
    assert bs[2] as int == 0x80 + q1 % 64 && bs[3] as int == 0x80 + cp % 64;
  }

  /** `Encode(s).decode() == s` for every string. */
  lemma {:induction false} DecodeEncode(s: string)
    ensures Decode(Encode(s)) == Some(s)
  {
    if s != [] {
      var bs := Encode(s);
      var k := |EncodeChar(s[0])|;
      DecodeFirstEncodeChar(s[0], Encode(s[1..]));
      assert bs[k..] == Encode(s[1..]);
      DecodeEncode(s[1..]);
      assert [s[0]] + s[1..] == s;
    }
  }

  /** ASCII text encodes byte for byte. */
  lemma {:induction false} EncodeAscii(s: string)
    requires forall i :: 0 <= i < |s| ==> s[i] as int < 0x80
    ensures |Encode(s)| == |s|
    ensures forall i :: 0 <= i < |s| ==> Encode(s)[i] as int == s[i] as int
  {
    if s != [] {
      EncodeAscii(s[1..]);
    }
  }
}
