/** Chirp bodies: the profanity filter `clean_message`, the 140-byte limit and
    the order of the checks in the chirp handlers (chirps.go; main.go carries an
    older copy of the same code). */
module Chirps {
  import opened Results
  import opened Text
  import opened Models

  const Profane: seq<string> := ["kerfuffle", "sharbert", "fornax"]
  const Censored := "****"

  /** Longest body accepted, in bytes (`len` of a Go string). */
  const MaxChirpLength := 140

  /** `slices.Contains(profane, strings.ToLower(word))`. */
  predicate IsProfane(word: string)
  {
    ToLower(word) in Profane
  }

  function CensorWord(word: string): (w: string)
  {
    if IsProfane(word) then Censored else word
  }

  function CensorWords(words: seq<string>): (r: seq<string>)
    ensures |r| == |words|
  {
    seq(|words|, i requires 0 <= i < |words| => CensorWord(words[i]))
  }

  /** The message `clean_message` returns: its words are the original words,
      each replaced by "****" when it is one of the three listed words in any
      ASCII case, and otherwise kept verbatim. */
  function Cleaned(message: string): (r: string)
    ensures Split(r, ' ') == CensorWords(Split(message, ' '))
  {
    var censored := CensorWords(Split(message, ' '));
    CensoredWordsAvoidSpace(Split(message, ' '));
    SplitJoin(censored, ' ');
    Join(censored, ' ')
  }

  /** Censoring keeps words free of spaces. */
  lemma CensoredWordsAvoidSpace(words: seq<string>)
    requires forall i :: 0 <= i < |words| ==> ' ' !in words[i]
    ensures forall i :: 0 <= i < |words| ==> ' ' !in CensorWords(words)[i]
  {
    assert Censored == ['*', '*', '*', '*'];
  }

  /** `clean_message`: split on spaces, append each word or its replacement to
      `cleaned`, join with spaces. */
  method CleanMessage(message: string) returns (result: string)
    ensures result == Cleaned(message)
  {
    var words := Split(message, ' ');
    var cleaned: seq<string> := [];
    for i := 0 to |words|
      invariant |cleaned| == i
      invariant forall j :: 0 <= j < i ==> cleaned[j] == CensorWord(words[j])
    {
      if ToLower(words[i]) in Profane {
        cleaned := cleaned + [Censored];
      } else {
        cleaned := cleaned + [words[i]];
      }
    }
    assert cleaned == CensorWords(words);
    result := Join(cleaned, ' ');
  }

  /** Word by word: the number of space-separated words is preserved, and word
      `i` is "****" exactly when word `i` of the original lowercases to a listed
      word; otherwise it is the original word, case included. */
  lemma WordByWord(message: string, i: nat)
    requires i < |Split(message, ' ')|
    ensures |Split(Cleaned(message), ' ')| == |Split(message, ' ')|
    ensures var w := Split(message, ' ')[i];
            Split(Cleaned(message), ' ')[i] ==
              if ToLower(w) in ["kerfuffle", "sharbert", "fornax"] then "****" else w
  {
  }

  /** A message none of whose words is listed comes back unchanged. */
  lemma CleanWithoutProfanity(message: string)
    requires forall i :: 0 <= i < |Split(message, ' ')| ==> !IsProfane(Split(message, ' ')[i])
    ensures Cleaned(message) == message
  {
    var words := Split(message, ' ');
    assert CensorWords(words) == words;
    JoinSplit(message, ' ');
  }

  /** Cleaning twice is cleaning once: "****" is not a listed word. */
  lemma CleanIdempotent(message: string)
    ensures Cleaned(Cleaned(message)) == Cleaned(message)
  {
    var censored := CensorWords(Split(message, ' '));
    forall i | 0 <= i < |censored| ensures CensorWord(censored[i]) == censored[i] {
      if censored[i] == Censored {
        assert |ToLower(Censored)| == 4;
      }
    }
    assert CensorWords(censored) == censored;
  }

  predicate IsAsciiLetter(c: char)
  {
    'a' <= c <= 'z' || 'A' <= c <= 'Z'
  }

  /** Matching is on the whole word: a listed word with a non-letter attached,
      such as "kerfuffle!", is kept verbatim. */
  lemma AttachedPunctuationKept(word: string, mark: char)
    requires !IsAsciiLetter(mark)
    ensures CensorWord(word + [mark]) == word + [mark]
  {
    var w := word + [mark];
    var lower := ToLower(w);
    assert lower[|w| - 1] == mark;
    if lower in Profane {
      var k :| 0 <= k < |Profane| && Profane[k] == lower;
      assert IsAsciiLetter(Profane[k][|Profane[k]| - 1]);
    }
  }

  /** `len(body) > 140`: the byte length of the UTF-8 body. */
  predicate TooLong(body: string)
  {
    Utf8Length(body) > MaxChirpLength
  }

  /** The limit is on bytes: more than 140 characters is always too long, and an
      ASCII body is too long exactly when it has more than 140 characters, so
      one of exactly 140 is accepted. */
  lemma LengthLimit(body: string)
    ensures |body| > 140 ==> TooLong(body)
    ensures IsAscii(body) ==> (TooLong(body) <==> |body| > 140)
  {
    Utf8LengthBounds(body);
  }

  /** `dbChirpToChirp`: every field of the row, unchanged. */
  function DbChirpToChirp(row: DbChirp): (c: Chirp)
  {
    Chirp(row.id, row.createdAt, row.updatedAt, row.body, row.userId)
  }

  /** `handlerValidateChirp`: 400 for a body over the limit, otherwise 200 with
      the cleaned body. */
  method ValidateChirp(body: string) returns (resp: Response)
    ensures TooLong(body) ==> resp == Failure(400, "Chirp is too long")
    ensures !TooLong(body) ==> resp == Response(200, [CleanedBody(Cleaned(body))])
  {
    if Utf8Length(body) > MaxChirpLength {
      return Failure(400, "Chirp is too long");
    }
    var cleaned := CleanMessage(body);
    resp := Response(200, [CleanedBody(cleaned)]);
  }

  /** The rejections of `handlerNewChirp` before it inserts: the author is looked
      up first, so an unknown author is reported whatever the body's length. */
  function NewChirpRejection(authorExists: bool, body: string): (r: Option<string>)
    ensures !authorExists <==> r == Some("User does not exist")
    ensures r == Some("Chirp is too long") <==> authorExists && TooLong(body)
    ensures r.None? <==> authorExists && !TooLong(body)
  {
    if !authorExists then Some("User does not exist")
    else if TooLong(body) then Some("Chirp is too long")
    else None
  }
}
