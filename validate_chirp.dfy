/** The stand-alone chirp validator (validate_chirp.go). Its request body is
    the result of JSON decoding, `None` when decoding fails. */
module ValidateChirp {
  import opened Common
  import Text
  import Profanity
  import ChirpyHandler

  /** The response body of a valid chirp. */
  datatype Cleaned = Cleaned(cleanedChirp: string)

  /** The length gate here counts UTF-8 bytes: len(body) on a Go string.
      It refuses whatever CreateChirpy's code-point gate refuses, since a
      string has at least as many bytes as code points. */
  predicate TooLong(body: string): (r: bool)
    ensures ChirpyHandler.TooLong(body) ==> r
  {
    Text.Utf8LenBounds(body);
    Text.Utf8Len(body) > ChirpyHandler.MaxChirpLength
  }

  /** replaceBadWords (this file's own copy): lower-case, split, overwrite
      the bad words in place, join. */
  method ReplaceBadWords(chirp: string) returns (cleaned: string)
    ensures cleaned == Profanity.Censor(chirp)
  {
    var words := Text.Split(Text.ToLower(chirp));
    ghost var split := words;
    for i := 0 to |words|
      invariant |words| == |split|
      invariant forall k :: 0 <= k < |words| ==>
        words[k] == if k < i then Profanity.CensorWord(split[k]) else split[k]
    {
      if words[i] in Profanity.BadWords {
        words := words[i := Profanity.Mask];
      }
    }
    assert words == Profanity.CensorAll(split);
    cleaned := Text.Join(words);
  }

  /** handlerValidateChirp: 400 on undecodable JSON, 400 when the body is over
      140 bytes, otherwise 200 with exactly the cleaned body. */
  method HandlerValidateChirp(body: Option<string>) returns (r: Reply<Cleaned>)
    ensures body.None? ==> r == Fail(StatusBadRequest, "Something went wrong")
    ensures body.Some? && TooLong(body.value) ==> r == Fail(StatusBadRequest, "Chirp is too long")
    ensures body.Some? && !TooLong(body.value) ==>
      r == Json(StatusOK, Cleaned(Profanity.Censor(body.value)))
  {
    if body.None? {
      return Fail(StatusBadRequest, "Something went wrong");
    }
    if TooLong(body.value) {
      return Fail(StatusBadRequest, "Chirp is too long");
    }
    var cleaned := ReplaceBadWords(body.value);
    return Json(StatusOK, Cleaned(cleaned));
  }

  /** The two gates disagree: 71 copies of the two-byte letter U+00E9 are 71
      code points but 142 bytes, refused here and accepted by CreateChirpy. */
  lemma GatesDisagree()
    ensures var body := seq(71, _ => 'é');
      TooLong(body) && !ChirpyHandler.TooLong(body)
  {
    Text.Utf8LenRepeat('é', 71);
  }
}
