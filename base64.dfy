/**
 * The base 64 encoding of section 4 of RFC 4648: the 64-character alphabet of
 * Table 1 and '=' padding. Every 3 octets become 4 characters; a final group of
 * 1 or 2 octets becomes 2 or 3 characters followed by "==" or "=", the unused
 * low bits being zero. The decoder is strict: it accepts exactly the strings
 * the encoder produces.
 */
module Base64 {
  import opened Wrappers
  import opened Bytes

  /** The 6-bit value that one alphabet character stands for. */
  type sextet = x: int | 0 <= x < 64

  /** The padding character. */
  const Pad: char := '='

  /** The character that encodes the value `v`: Table 1 of section 4 of RFC 4648. */
  function CharOf(v: sextet): (c: char)
    ensures c != Pad
  {
    if v < 26 then ('A' as int + v) as char
    else if v < 52 then ('a' as int + (v - 26)) as char
    else if v < 62 then ('0' as int + (v - 52)) as char
    else if v == 62 then '+'
    else '/'
  }

  /** The value a character encodes, or None for a character outside the alphabet. */
  function ValueOf(c: char): (r: Option<sextet>)
    ensures r.Some? ==> CharOf(r.value) == c
    ensures r.None? ==> forall v: sextet :: CharOf(v) != c
  {
    if 'A' <= c <= 'Z' then Some(c as int - 'A' as int)
    else if 'a' <= c <= 'z' then Some(c as int - 'a' as int + 26)
    else if '0' <= c <= '9' then Some(c as int - '0' as int + 52)
    else if c == '+' then Some(62)
    else if c == '/' then Some(63)
    else None
  }

  /** Each character of the alphabet decodes to its position in Table 1. */
  lemma ValueOfCharOf(v: sextet)
    ensures ValueOf(CharOf(v)) == Some(v)
  {
  }

  /** A full quantum: three octets as four characters. */
  function EncodeQuantum(b0: byte, b1: byte, b2: byte): string
  {
    [CharOf(b0 / 4), CharOf(b0 % 4 * 16 + b1 / 16), CharOf(b1 % 16 * 4 + b2 / 64), CharOf(b2 % 64)]
  }

  /** Encodes a byte sequence. */
  function Encode(b: seq<byte>): (s: string)
    ensures |s| == (|b| + 2) / 3 * 4
    decreases |b|
  {
    if |b| == 0 then []
    else if |b| == 1 then [CharOf(b[0] / 4), CharOf(b[0] % 4 * 16), Pad, Pad]
    else if |b| == 2 then [CharOf(b[0] / 4), CharOf(b[0] % 4 * 16 + b[1] / 16), CharOf(b[1] % 16 * 4), Pad]
    else EncodeQuantum(b[0], b[1], b[2]) + Encode(b[3..])
  }

  /** Decodes four alphabet characters into three octets. */
  function DecodeQuantum(q: string): (r: Option<seq<byte>>)
    requires |q| == 4
    ensures r.Some? ==> |r.value| == 3
  {
    var v0, v1, v2, v3 := ValueOf(q[0]), ValueOf(q[1]), ValueOf(q[2]), ValueOf(q[3]);
    if v0.None? || v1.None? || v2.None? || v3.None? then None
    else Some([v0.value * 4 + v1.value / 16, v1.value % 16 * 16 + v2.value / 4, v2.value % 4 * 64 + v3.value])
  }

  /** Decodes the last quantum, which may carry one or two padding characters. */
  function DecodeFinal(q: string): (r: Option<seq<byte>>)
    requires |q| == 4
    ensures r.Some? ==> 1 <= |r.value| <= 3
  {
    if q[2] == Pad && q[3] == Pad then
      var v0, v1 := ValueOf(q[0]), ValueOf(q[1]);
      if v0.None? || v1.None? || v1.value % 16 != 0 then None
      else Some([v0.value * 4 + v1.value / 16])
    else if q[3] == Pad then
      var v0, v1, v2 := ValueOf(q[0]), ValueOf(q[1]), ValueOf(q[2]);
      if v0.None? || v1.None? || v2.None? || v2.value % 4 != 0 then None
      else Some([v0.value * 4 + v1.value / 16, v1.value % 16 * 16 + v2.value / 4])
    else DecodeQuantum(q)
  }

  /** Decodes a base 64 string, or None when it is not the encoding of any byte sequence. */
  function Decode(s: string): (r: Option<seq<byte>>)
    ensures r.Some? ==> |s| == (|r.value| + 2) / 3 * 4
    decreases |s|
  {
    if |s| == 0 then Some([])
    else if |s| < 4 then None
    else if |s| == 4 then DecodeFinal(s)
    else
      match DecodeQuantum(s[..4])
      case None => None
      case Some(head) =>
        match Decode(s[4..])
        case None => None
        case Some(tail) => Some(head + tail)
  }

  /** Regrouping three octets into four sextets and back loses nothing. */
  lemma QuantumArith(b0: byte, b1: byte, b2: byte)
    ensures (b0 / 4) * 4 + (b0 % 4 * 16 + b1 / 16) / 16 == b0
    ensures (b0 % 4 * 16 + b1 / 16) % 16 * 16 + (b1 % 16 * 4 + b2 / 64) / 4 == b1
    ensures (b1 % 16 * 4 + b2 / 64) % 4 * 64 + b2 % 64 == b2
  {
  }

  /** Regrouping four sextets into three octets and back loses nothing. */
  lemma SextetArith(v0: sextet, v1: sextet, v2: sextet, v3: sextet)
    ensures (v0 * 4 + v1 / 16) / 4 == v0
    ensures (v0 * 4 + v1 / 16) % 4 * 16 + (v1 % 16 * 16 + v2 / 4) / 16 == v1
    ensures (v1 % 16 * 16 + v2 / 4) % 16 * 4 + (v2 % 4 * 64 + v3) / 64 == v2
    ensures (v2 % 4 * 64 + v3) % 64 == v3
  {
  }

  /** A full quantum decodes back to its three octets. */
  lemma DecodeEncodeQuantum(b0: byte, b1: byte, b2: byte)
    ensures DecodeQuantum(EncodeQuantum(b0, b1, b2)) == Some([b0, b1, b2])
  {
    QuantumArith(b0, b1, b2);
    ValueOfCharOf(b0 / 4);
    ValueOfCharOf(b0 % 4 * 16 + b1 / 16);
    ValueOfCharOf(b1 % 16 * 4 + b2 / 64);
    ValueOfCharOf(b2 % 64);
  }

  /** A final single octet, encoded with two padding characters, decodes back. */
  lemma DecodeEncodeOne(b0: byte)
    ensures Decode(Encode([b0])) == Some([b0])
  {
    var s := Encode([b0]);
    assert s == [CharOf(b0 / 4), CharOf(b0 % 4 * 16), Pad, Pad];
    QuantumArith(b0, 0, 0);
    ValueOfCharOf(b0 / 4);
    ValueOfCharOf(b0 % 4 * 16);
    assert DecodeFinal(s) == Some([b0]);
  }

  /** A final pair of octets, encoded with one padding character, decodes back. */
  lemma DecodeEncodeTwo(b0: byte, b1: byte)
    ensures Decode(Encode([b0, b1])) == Some([b0, b1])
  {
    var s := Encode([b0, b1]);
    assert s == [CharOf(b0 / 4), CharOf(b0 % 4 * 16 + b1 / 16), CharOf(b1 % 16 * 4), Pad];
    QuantumArith(b0, b1, 0);
    ValueOfCharOf(b0 / 4);
    ValueOfCharOf(b0 % 4 * 16 + b1 / 16);
    ValueOfCharOf(b1 % 16 * 4);
    assert DecodeFinal(s) == Some([b0, b1]);
  }

  /** Encoding proceeds one full quantum at a time. */
  lemma EncodeSplit(b: seq<byte>)
    requires |b| >= 3
    ensures Encode(b) == EncodeQuantum(b[0], b[1], b[2]) + Encode(b[3..])
  {
  }

  /** Decoding a full quantum followed by more input decodes both parts. */
  lemma DecodeAppend(q: string, rest: string)
    requires |q| == 4 && DecodeQuantum(q).Some? && |rest| > 0 && Decode(rest).Some?
    ensures Decode(q + rest) == Some(DecodeQuantum(q).value + Decode(rest).value)
  {
    var s := q + rest;
    assert s[..4] == q;
    assert s[4..] == rest;
  }

  /** Three octets alone encode to one quantum that decodes back. */
  lemma DecodeEncodeThree(b0: byte, b1: byte, b2: byte)
    ensures Decode(Encode([b0, b1, b2])) == Some([b0, b1, b2])
  {
    var b := [b0, b1, b2];
    EncodeSplit(b);
    assert b[3..] == [];
    DecodeEncodeQuantum(b0, b1, b2);
  }

  /** Decoding inverts encoding: every byte sequence survives the round trip. */
  lemma {:induction false} DecodeEncode(b: seq<byte>)
    ensures Decode(Encode(b)) == Some(b)
    decreases |b|
  {
    if |b| == 0 {
    } else if |b| == 1 {
      DecodeEncodeOne(b[0]);
      assert b == [b[0]];
    } else if |b| == 2 {
      DecodeEncodeTwo(b[0], b[1]);
      assert b == [b[0], b[1]];
    } else if |b| == 3 {
      DecodeEncodeThree(b[0], b[1], b[2]);
      assert b == [b[0], b[1], b[2]];
    } else {
      DecodeEncode(b[3..]);
      DecodeEncodeStep(b);
    }
  }

  /** The inductive step of the round trip: one more full quantum in front. */
  lemma DecodeEncodeStep(b: seq<byte>)
    requires |b| > 3 && Decode(Encode(b[3..])) == Some(b[3..])
    ensures Decode(Encode(b)) == Some(b)
  {
    var t := b[3..];
    var q := EncodeQuantum(b[0], b[1], b[2]);
    var rest := Encode(t);
    assert |rest| > 0;
    EncodeSplit(b);
    assert Encode(b) == q + rest;
    DecodeEncodeQuantum(b[0], b[1], b[2]);
    DecodeAppend(q, rest);
    assert Decode(q + rest) == Some([b[0], b[1], b[2]] + t);
    SplitThree(b);
  }

  lemma SplitThree(b: seq<byte>)
    requires |b| >= 3
    ensures [b[0], b[1], b[2]] + b[3..] == b
  {
  }

  /** Decoding three octets and encoding them again gives back the four characters. */
  lemma EncodeDecodeQuantum(q: string)
    requires |q| == 4 && DecodeQuantum(q).Some?
    ensures var b := DecodeQuantum(q).value; EncodeQuantum(b[0], b[1], b[2]) == q
  {
    var v0: int, v1: int, v2: int, v3: int := ValueOf(q[0]).value, ValueOf(q[1]).value, ValueOf(q[2]).value, ValueOf(q[3]).value;
    SextetArith(v0, v1, v2, v3);
    var b := DecodeQuantum(q).value;
    assert b == [v0 * 4 + v1 / 16, v1 % 16 * 16 + v2 / 4, v2 % 4 * 64 + v3];
    assert EncodeQuantum(b[0], b[1], b[2]) == [CharOf(v0), CharOf(v1), CharOf(v2), CharOf(v3)];
  }

  /** A final quantum with padding re-encodes to itself. */
  lemma EncodeDecodeFinal(q: string)
    requires |q| == 4 && q[3] == Pad && DecodeFinal(q).Some?
    ensures Encode(DecodeFinal(q).value) == q
  {
    var b := DecodeFinal(q).value;
    var v0: int, v1: int := ValueOf(q[0]).value, ValueOf(q[1]).value;
    if q[2] == Pad {
      SextetArith(v0, v1, 0, 0);
      assert b == [v0 * 4 + v1 / 16];
      assert Encode(b) == [CharOf(v0), CharOf(v1), Pad, Pad];
    } else {
      var v2: int := ValueOf(q[2]).value;
      SextetArith(v0, v1, v2, 0);
      assert b == [v0 * 4 + v1 / 16, v1 % 16 * 16 + v2 / 4];
      assert Encode(b) == [CharOf(v0), CharOf(v1), CharOf(v2), Pad];
    }
  }

  /** The decoder is exact: any string it accepts is the encoding of what it decodes to. */
  lemma {:induction false} EncodeDecode(s: string)
    requires Decode(s).Some?
    ensures Encode(Decode(s).value) == s
    decreases |s|
  {
    var b := Decode(s).value;
    if |s| == 0 {
    } else if |s| == 4 {
      if s[3] == Pad {
        EncodeDecodeFinal(s);
      } else {
        EncodeDecodeQuantum(s);
        assert b[3..] == [];
        assert Encode(b) == EncodeQuantum(b[0], b[1], b[2]) + Encode(b[3..]);
      }
    } else {
      var head := DecodeQuantum(s[..4]).value;
      var tail := Decode(s[4..]).value;
      assert b == head + tail;
      EncodeDecodeQuantum(s[..4]);
      EncodeDecode(s[4..]);
      assert b[3..] == tail;
      assert s == s[..4] + s[4..];
    }
  }
}
