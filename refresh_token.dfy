/** Refresh-token generation (internal/auth/refresh_token.go): a 32-byte
    buffer filled by the random source, rendered as lower-case hex. The
    random source is the parameter `entropy`: the bytes it delivers. */
module RefreshToken {
  import opened Common
  import Hex

  const BufferSize := 32

  /** rand.Read: copies what the source delivers into `data`, at most
      `data.Length` bytes, and reports how many. */
  method ReadRandom(data: array<Byte>, entropy: seq<Byte>) returns (n: nat)
    modifies data
    ensures n == Min(|entropy|, data.Length)
    ensures data[..n] == entropy[..n]
    ensures data[n..] == old(data[n..])
  {
    n := Min(|entropy|, data.Length);
    forall i | 0 <= i < n {
      data[i] := entropy[i];
    }
  }

  /** MakeRefreshToken. Its error result is always nil (a read error is
      swallowed), so the model returns the token alone. */
  method MakeRefreshToken(entropy: seq<Byte>) returns (token: string)
    ensures token == Hex.Encode(entropy[..Min(|entropy|, BufferSize)])
    ensures |token| == 2 * Min(|entropy|, BufferSize) <= 64
    ensures forall k :: 0 <= k < |token| ==> Hex.IsLowerHexDigit(token[k])
    ensures Hex.Decode(token) == Some(entropy[..Min(|entropy|, BufferSize)])
  {
    var data := new Byte[BufferSize];
    var n := ReadRandom(data, entropy);
    token := Hex.Encode(data[..n]);
    Hex.EncodeIsLowerHex(data[..n]);
    Hex.DecodeEncode(data[..n]);
  }
}
