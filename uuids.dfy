/** The two operations of google/uuid that the handlers rely on: rendering
    an identifier with `String()` and reading one back with `Parse`. Only
    the canonical 36-character form `xxxxxxxx-xxxx-xxxx-xxxx-xxxxxxxxxxxx`
    is read. */
module Uuids {
  import opened Common
  import Hex

  type Uuid = b: seq<Byte> | |b| == 16 witness [0, 0, 0, 0, 0, 0, 0, 0, 0, 0, 0, 0, 0, 0, 0, 0]

  /** uuid.Nil, the all-zero identifier that every failure path returns. */
  const Nil: Uuid := [0, 0, 0, 0, 0, 0, 0, 0, 0, 0, 0, 0, 0, 0, 0, 0]

  /** uuid.UUID.String: lower-case hex in groups of 8-4-4-4-12 digits. */
  function ToString(u: Uuid): (s: string)
    ensures |s| == 36
  {
    Hex.Encode(u[..4]) + "-" + Hex.Encode(u[4..6]) + "-" + Hex.Encode(u[6..8]) + "-"
      + Hex.Encode(u[8..10]) + "-" + Hex.Encode(u[10..])
  }

  /** The 32 digits of a 36-character string once the four dashes are dropped. */
  function Digits(s: string): (d: string)
    requires |s| == 36
    ensures |d| == 32
  {
    s[..8] + s[9..13] + s[14..18] + s[19..23] + s[24..]
  }

  /** uuid.Parse on the canonical form: dashes at 8, 13, 18 and 23 and hex
      digits of either case elsewhere. */
  function Parse(s: string): (r: Option<Uuid>)
    ensures r.Some? <==>
      && |s| == 36 && s[8] == '-' && s[13] == '-' && s[18] == '-' && s[23] == '-'
      && Hex.Decode(Digits(s)).Some?
    ensures r.Some? ==> Hex.Decode(Digits(s)) == Some(r.value)
  {
    if |s| != 36 || s[8] != '-' || s[13] != '-' || s[18] != '-' || s[23] != '-' then None
    else
      match Hex.Decode(Digits(s))
      case Some(b) => Some(b)
      case None => None
  }

  /** Dropping the four dashes from groups of 8, 4, 4, 4 and 12 characters
      leaves the groups run together. */
  lemma GroupsLayout(g1: string, g2: string, g3: string, g4: string, g5: string)
    requires |g1| == 8 && |g2| == 4 && |g3| == 4 && |g4| == 4 && |g5| == 12
    ensures var s := g1 + "-" + g2 + "-" + g3 + "-" + g4 + "-" + g5;
      && |s| == 36
      && s[8] == '-' && s[13] == '-' && s[18] == '-' && s[23] == '-'
      && Digits(s) == g1 + g2 + g3 + g4 + g5
  {
    var s := g1 + "-" + g2 + "-" + g3 + "-" + g4 + "-" + g5;
    assert s[..8] == g1;
    assert s[9..13] == g2;
    assert s[14..18] == g3;
    assert s[19..23] == g4;
    assert s[24..] == g5;
  }

  /** The rendering has its dashes where Parse looks for them, and its
      digits are the hex encoding of the whole identifier. */
  lemma ToStringLayout(u: Uuid)
    ensures var s := ToString(u);
      && s[8] == '-' && s[13] == '-' && s[18] == '-' && s[23] == '-'
      && Digits(s) == Hex.Encode(u)
  {
    var a, b, c, d, e := u[..4], u[4..6], u[6..8], u[8..10], u[10..];
    GroupsLayout(Hex.Encode(a), Hex.Encode(b), Hex.Encode(c), Hex.Encode(d), Hex.Encode(e));
    EncodeGroups(a, b, c, d, e);
    assert a + b == u[..6];
    assert a + b + c == u[..8];
    assert a + b + c + d == u[..10];
    assert a + b + c + d + e == u;
  }

  lemma EncodeGroups(a: seq<Byte>, b: seq<Byte>, c: seq<Byte>, d: seq<Byte>, e: seq<Byte>)
    ensures Hex.Encode(a) + Hex.Encode(b) + Hex.Encode(c) + Hex.Encode(d) + Hex.Encode(e)
         == Hex.Encode(a + b + c + d + e)
  {
    Hex.EncodeAppend(a, b);
    Hex.EncodeAppend(a + b, c);
    Hex.EncodeAppend(a + b + c, d);
    Hex.EncodeAppend(a + b + c + d, e);
  }

  /** Parsing the rendering of an identifier gives the identifier back. */
  lemma ParseToString(u: Uuid)
    ensures Parse(ToString(u)) == Some(u)
  {
    ToStringLayout(u);
    Hex.DecodeEncode(u);
  }

  /** Two identifiers with the same rendering are equal. */
  lemma ToStringInjective(u: Uuid, v: Uuid)
    requires ToString(u) == ToString(v)
    ensures u == v
  {
    ParseToString(u);
    ParseToString(v);
  }
}
