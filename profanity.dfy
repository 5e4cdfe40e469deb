/** What replaceBadWords computes (internal/handlers/chirpyHandler.go and
    validate_chirp.go hold two identical copies): lower-case the chirp,
    split it on single spaces, replace every word that is one of the bad
    words by "****", and join the words again. */
module Profanity {
  import opened Text

  const BadWords: seq<string> := ["kerfuffle", "sharbert", "fornax"]
  const Mask := "****"

  function CensorWord(w: string): string
  {
    if w in BadWords then Mask else w
  }

  function CensorAll(ws: seq<string>): (r: seq<string>)
    ensures |r| == |ws|
  {
    seq(|ws|, i requires 0 <= i < |ws| => CensorWord(ws[i]))
  }

  /** The cleaned chirp. */
  function Censor(chirp: string): (r: string)
    ensures ToLower(r) == r
  {
    var cs := CensorAll(Split(ToLower(chirp)));
    CensoredWordsShape(chirp);
    LowerJoin(cs);
    assert LowerAll(cs) == cs;
    Join(cs)
  }

  /** The words of the cleaned chirp, before they are joined. */
  lemma CensoredWordsShape(chirp: string)
    ensures forall i :: 0 <= i < |CensorAll(Split(ToLower(chirp)))| ==>
      var w := CensorAll(Split(ToLower(chirp)))[i];
      NoSpace(w) && ToLower(w) == w && w !in BadWords
  {
    var ws := Split(ToLower(chirp));
    SplitNoSpace(ToLower(chirp));
    SplitLower(chirp);
    forall i | 0 <= i < |ws| ensures ToLower(ws[i]) == ws[i] {
      LowerIdempotent(Split(chirp)[i]);
    }
  }

  /** Word `i` of the output is "****" when the lower-cased input word `i`
      is a bad word, and that lower-cased word otherwise; so the output has
      as many words as the input. */
  lemma {:induction false} CensoredWords(chirp: string)
    ensures |Split(Censor(chirp))| == |Split(chirp)|
    ensures forall i :: 0 <= i < |Split(chirp)| ==>
      Split(Censor(chirp))[i] == CensorWord(ToLower(Split(chirp)[i]))
  {
    var cs := CensorAll(Split(ToLower(chirp)));
    CensoredWordsShape(chirp);
    SplitJoin(cs);
    SplitLower(chirp);
  }

  /** The same, as an equivalence: word `i` of the output is "****" exactly
      when the lower-cased input word is a bad word or was "****" already. */
  lemma MaskedExactly(chirp: string, i: int)
    requires 0 <= i < |Split(chirp)|
    ensures |Split(Censor(chirp))| == |Split(chirp)|
    ensures Split(Censor(chirp))[i] == Mask <==>
      ToLower(Split(chirp)[i]) in BadWords || ToLower(Split(chirp)[i]) == Mask
  {
    CensoredWords(chirp);
  }

  /** The number of space-separated words does not change. */
  lemma WordCountPreserved(chirp: string)
    ensures |Split(Censor(chirp))| == |Split(chirp)|
  {
    CensoredWords(chirp);
  }

  /** A chirp of one word is cleaned as that word alone. */
  lemma OneWord(w: string)
    requires NoSpace(w)
    ensures Censor(w) == CensorWord(ToLower(w))
  {
    SplitLower(w);
    SplitWord(w);
    assert Split(ToLower(w)) == [ToLower(w)];
    assert CensorAll([ToLower(w)]) == [CensorWord(ToLower(w))];
  }

  /** Matching ignores case: "Kerfuffle" is masked. */
  lemma MatchIgnoresCase(chirp: string)
    requires chirp == "Kerfuffle"
    ensures Censor(chirp) == Mask
  {
    LowerKerfuffle(chirp);
    assert NoSpace(chirp);
    OneWord(chirp);
    assert ToLower(chirp) == BadWords[0];
  }

  lemma LowerKerfuffle(w: string)
    requires w == "Kerfuffle"
    ensures ToLower(w) == "kerfuffle"
  {
    var rest := w[1..];
    assert rest == "erfuffle";
    assert forall i :: 0 <= i < |rest| ==> 'a' <= rest[i] <= 'z';
    LowerFixed(rest);
  }

  /** Matching takes whole words only: "kerfuffle!" is kept. */
  lemma MatchWholeWordsOnly(chirp: string)
    requires chirp == "kerfuffle!"
    ensures Censor(chirp) == chirp
  {
    assert forall i :: 0 <= i < |chirp| ==> 'a' <= chirp[i] <= 'z' || chirp[i] == '!';
    LowerFixed(chirp);
    assert NoSpace(chirp);
    OneWord(chirp);
    assert chirp !in BadWords;
  }

  /** Cleaning a cleaned chirp changes nothing. */
  lemma Idempotent(chirp: string)
    ensures Censor(Censor(chirp)) == Censor(chirp)
  {
    var cs := CensorAll(Split(ToLower(chirp)));
    CensoredWordsShape(chirp);
    LowerJoin(cs);
    assert LowerAll(cs) == cs;
    SplitJoin(cs);
    assert CensorAll(cs) == cs;
  }

  /** Without bad words the output is the lower-cased input. */
  lemma CleanChirpOnlyLowered(chirp: string)
    requires forall i :: 0 <= i < |Split(chirp)| ==> ToLower(Split(chirp)[i]) !in BadWords
    ensures Censor(chirp) == ToLower(chirp)
  {
    var ws := Split(ToLower(chirp));
    SplitLower(chirp);
    assert CensorAll(ws) == ws;
    JoinSplit(ToLower(chirp));
  }
}
