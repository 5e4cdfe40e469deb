/** Base16 encoding as Go's encoding/hex does it (section 8 of RFC 4648):
    lower-case digits on the way out, either case accepted on the way in. */
module Hex {
  import opened Common

  predicate IsLowerHexDigit(c: char)
  {
    '0' <= c <= '9' || 'a' <= c <= 'f'
  }

  /** The lower-case digit for a nibble. */
  function Digit(v: int): (c: char)
    requires 0 <= v < 16
    ensures IsLowerHexDigit(c)
  {
    if v < 10 then ('0' as int + v) as char else ('a' as int + v - 10) as char
  }

  /** The nibble a digit stands for; `None` for a character that is not a hex digit. */
  function Value(c: char): (r: Option<int>)
    ensures r.Some? ==> 0 <= r.value < 16
  {
    if '0' <= c <= '9' then Some(c as int - '0' as int)
    else if 'a' <= c <= 'f' then Some(c as int - 'a' as int + 10)
    else if 'A' <= c <= 'F' then Some(c as int - 'A' as int + 10)
    else None
  }

  lemma ValueOfDigit(v: int)
    requires 0 <= v < 16
    ensures Value(Digit(v)) == Some(v)
  {
  }

  /** hex.EncodeToString: two digits per byte, high nibble first. */
  function Encode(data: seq<Byte>): (s: string)
    ensures |s| == 2 * |data|
  {
    if data == [] then "" else [Digit(data[0] / 16), Digit(data[0] % 16)] + Encode(data[1..])
  }

  /** hex.DecodeString: `None` on an odd length or a character that is not a hex digit. */
  function Decode(s: string): (r: Option<seq<Byte>>)
    ensures r.Some? ==> 2 * |r.value| == |s|
  {
    if |s| == 0 then Some([])
    else if |s| == 1 then None
    else
      match (Value(s[0]), Value(s[1]), Decode(s[2..]))
      case (Some(hi), Some(lo), Some(rest)) => Some([hi * 16 + lo] + rest)
      case _ => None
  }

  /** Byte `i` becomes characters `2i` and `2i+1`, high nibble first. */
  lemma {:induction false} EncodeAt(data: seq<Byte>, i: int)
    requires 0 <= i < |data|
    ensures Encode(data)[2 * i] == Digit(data[i] / 16)
    ensures Encode(data)[2 * i + 1] == Digit(data[i] % 16)
  {
    if i > 0 {
      EncodeAt(data[1..], i - 1);
      assert Encode(data)[2..] == Encode(data[1..]);
    }
  }

  /** Every character of the encoding is one of 0-9a-f. */
  lemma EncodeIsLowerHex(data: seq<Byte>)
    ensures forall k :: 0 <= k < |Encode(data)| ==> IsLowerHexDigit(Encode(data)[k])
  {
    forall k | 0 <= k < |Encode(data)|
      ensures IsLowerHexDigit(Encode(data)[k])
    {
      EncodeAt(data, k / 2);
    }
  }

  /** Decoding the encoding gives the bytes back. */
  lemma {:induction false} DecodeEncode(data: seq<Byte>)
    ensures Decode(Encode(data)) == Some(data)
  {
    if data != [] {
      var s := Encode(data);
      assert s[2..] == Encode(data[1..]);
      DecodeEncode(data[1..]);
      ValueOfDigit(data[0] / 16);
      ValueOfDigit(data[0] % 16);
      assert [data[0]] + data[1..] == data;
    }
  }

  /** Distinct byte strings have distinct encodings. */
  lemma EncodeInjective(a: seq<Byte>, b: seq<Byte>)
    requires Encode(a) == Encode(b)
    ensures a == b
  {
    DecodeEncode(a);
    DecodeEncode(b);
  }

  lemma {:induction false} EncodeAppend(a: seq<Byte>, b: seq<Byte>)
    ensures Encode(a + b) == Encode(a) + Encode(b)
  {
    if a != [] {
      assert (a + b)[1..] == a[1..] + b;
      EncodeAppend(a[1..], b);
    } else {
      assert a + b == b;
    }
  }
}
