/** The parts of Go's strings and unicode/utf8 packages the chirp handlers
    use, on strings of Unicode code points: ASCII lower-casing, splitting
    on and joining with a single space, and the UTF-8 length of a string
    (section 3 of RFC 3629). */
module Text {

  const Space := ' '

  function LowerChar(c: char): char
  {
    if 'A' <= c <= 'Z' then (c as int - 'A' as int + 'a' as int) as char else c
  }

  /** strings.ToLower, restricted to the ASCII letters. */
  function ToLower(s: string): (r: string)
    ensures |r| == |s|
    ensures forall i :: 0 <= i < |s| ==> r[i] == LowerChar(s[i])
  {
    if s == [] then [] else [LowerChar(s[0])] + ToLower(s[1..])
  }

  predicate NoSpace(w: string)
  {
    Space !in w
  }

  /** The number of spaces in `s`. */
  function Spaces(s: string): nat
  {
    if s == [] then 0 else (if s[0] == Space then 1 else 0) + Spaces(s[1..])
  }

  /** The total length of a list of words. */
  function TotalLength(ws: seq<string>): nat
  {
    if ws == [] then 0 else |ws[0]| + TotalLength(ws[1..])
  }

  /** Every code point is ASCII, one byte in UTF-8. */
  predicate Ascii(s: string)
  {
    forall i :: 0 <= i < |s| ==> s[i] as int < 0x80
  }

  /** strings.Split(s, " "): the maximal space-free pieces between spaces;
      always at least one piece, so the empty string gives [""]. */
  function Split(s: string): (ws: seq<string>)
    ensures |ws| >= 1
    ensures |ws| == Spaces(s) + 1
  {
    if s == [] then [""]
    else
      var rest := Split(s[1..]);
      if s[0] == Space then [""] + rest else [[s[0]] + rest[0]] + rest[1..]
  }

  /** strings.Join(ws, " "). */
  function Join(ws: seq<string>): (s: string)
    ensures |ws| >= 1 ==> |s| == TotalLength(ws) + |ws| - 1
  {
    if |ws| == 0 then "" else if |ws| == 1 then ws[0] else ws[0] + [Space] + Join(ws[1..])
  }

  /** ToLower applied to every word. */
  function LowerAll(ws: seq<string>): (r: seq<string>)
    ensures |r| == |ws|
  {
    seq(|ws|, i requires 0 <= i < |ws| => ToLower(ws[i]))
  }

  /** The number of bytes UTF-8 uses for a code point. */
  function CharLen(c: char): nat
  {
    if c as int < 0x80 then 1 else if c as int < 0x800 then 2 else if c as int < 0x10000 then 3 else 4
  }

  /** len(s) on the UTF-8 encoding of `s`. */
  function Utf8Len(s: string): (n: nat)
    ensures Ascii(s) ==> n == |s|
  {
    if s == [] then 0 else CharLen(s[0]) + Utf8Len(s[1..])
  }

  lemma {:induction false} LowerAppend(a: string, b: string)
    ensures ToLower(a + b) == ToLower(a) + ToLower(b)
  {
    if a != [] {
      assert (a + b)[1..] == a[1..] + b;
      LowerAppend(a[1..], b);
    } else {
      assert a + b == b;
    }
  }

  /** Lower-casing twice is lower-casing once. */
  lemma {:induction false} LowerIdempotent(s: string)
    ensures ToLower(ToLower(s)) == ToLower(s)
  {
    if s != [] {
      LowerIdempotent(s[1..]);
    }
  }

  /** Text without upper-case ASCII letters is its own lower-casing. */
  lemma {:induction false} LowerFixed(s: string)
    requires forall i :: 0 <= i < |s| ==> !('A' <= s[i] <= 'Z')
    ensures ToLower(s) == s
  {
    if s != [] {
      LowerFixed(s[1..]);
    }
  }

  /** Every piece of a split is free of spaces. */
  lemma {:induction false} SplitNoSpace(s: string)
    ensures forall i :: 0 <= i < |Split(s)| ==> NoSpace(Split(s)[i])
  {
    if s != [] {
      SplitNoSpace(s[1..]);
    }
  }

  /** Joining the pieces of a split restores the string. */
  lemma {:induction false} JoinSplit(s: string)
    ensures Join(Split(s)) == s
  {
    if s != [] {
      var rest := Split(s[1..]);
      JoinSplit(s[1..]);
      if s[0] == Space {
        assert ([""] + rest)[1..] == rest;
      } else {
        var ws := [[s[0]] + rest[0]] + rest[1..];
        assert ws[1..] == rest[1..];
        if |rest| > 1 {
          assert Join(rest) == rest[0] + [Space] + Join(rest[1..]);
        }
      }
    }
  }

  lemma {:induction false} SplitWord(w: string)
    requires NoSpace(w)
    ensures Split(w) == [w]
  {
    if w != [] {
      assert w[0] in w;
      assert forall c :: c in w[1..] ==> c in w;
      SplitWord(w[1..]);
      assert [w[0]] + w[1..] == w;
    }
  }

  lemma {:induction false} SplitCons(w: string, t: string)
    requires NoSpace(w)
    ensures Split(w + [Space] + t) == [w] + Split(t)
  {
    var s := w + [Space] + t;
    if w == [] {
      assert s[1..] == t;
    } else {
      assert s[1..] == w[1..] + [Space] + t;
      assert w[0] in w && s[0] == w[0];
      assert forall c :: c in w[1..] ==> c in w;
      SplitCons(w[1..], t);
      assert [w[0]] + w[1..] == w;
    }
  }

  /** Splitting a join of space-free words gives the words back. */
  lemma {:induction false} SplitJoin(ws: seq<string>)
    requires |ws| >= 1
    requires forall i :: 0 <= i < |ws| ==> NoSpace(ws[i])
    ensures Split(Join(ws)) == ws
  {
    if |ws| == 1 {
      SplitWord(ws[0]);
    } else {
      SplitCons(ws[0], Join(ws[1..]));
      SplitJoin(ws[1..]);
    }
  }

  /** Lower-casing commutes with splitting: word `i` of the lower-cased text
      is the lower-cased word `i`. */
  lemma {:induction false} SplitLower(s: string)
    ensures Split(ToLower(s)) == LowerAll(Split(s))
  {
    if s != [] {
      SplitLower(s[1..]);
      var rest := Split(s[1..]);
      assert ToLower(s)[1..] == ToLower(s[1..]);
      if s[0] == Space {
        LowerAllCons("", rest);
      } else {
        LowerAllCons([s[0]] + rest[0], rest[1..]);
        assert rest == [rest[0]] + rest[1..];
        LowerAllCons(rest[0], rest[1..]);
      }
    }
  }

  lemma LowerAllCons(w: string, ws: seq<string>)
    ensures LowerAll([w] + ws) == [ToLower(w)] + LowerAll(ws)
  {
  }

  /** Lower-casing a join lower-cases every word (the space is unchanged). */
  lemma {:induction false} LowerJoin(ws: seq<string>)
    ensures ToLower(Join(ws)) == Join(LowerAll(ws))
  {
    if |ws| > 1 {
      LowerJoin(ws[1..]);
      LowerAppend(ws[0] + [Space], Join(ws[1..]));
      LowerAppend(ws[0], [Space]);
      assert LowerAll(ws)[1..] == LowerAll(ws[1..]);
    }
  }

  /** A string never has more code points than UTF-8 bytes, nor more than a
      quarter as many. */
  lemma {:induction false} Utf8LenBounds(s: string)
    ensures |s| <= Utf8Len(s) <= 4 * |s|
  {
    if s != [] {
      Utf8LenBounds(s[1..]);
    }
  }

  /** `n` copies of one code point take `n` times its width. */
  lemma {:induction false} Utf8LenRepeat(c: char, n: nat)
    ensures Utf8Len(seq(n, _ => c)) == n * CharLen(c)
  {
    if n > 0 {
      assert seq(n, _ => c)[1..] == seq(n - 1, _ => c);
      Utf8LenRepeat(c, n - 1);
    }
  }
}
