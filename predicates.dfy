/** The content predicate: the `SubtitlePredicateResult` record and the
    blasphemy detector `has_blasphemy`, a case-insensitive substring test
    against a fixed word list. */
module Predicates {

  import opened Wrappers
  import opened Strings

  /** The classification a predicate gives a matching subtitle line. */
  datatype SubtitlePredicateResult = SubtitlePredicateResult(
    category: string,
    severity: int,
    description: string)

  const BLASPHEMY_WORDS: seq<string> := ["god", "jesus", "christ", "lord"]

  const BLASPHEMY: SubtitlePredicateResult :=
    SubtitlePredicateResult("profanity", 3, "blasphemy auto-detected from subtitles")

  /** `any(w.casefold() in text for w in words)` */
  function AnyWordIn(words: seq<string>, text: string): bool {
    |words| > 0 && (Contains(text, Casefold(words[0])) || AnyWordIn(words[1..], text))
  }

  /** `has_blasphemy(txt)`: the fixed classification when a listed word occurs
      in the case-folded text; `None` (the function falling off its end)
      otherwise. */
  function HasBlasphemy(txt: string): (r: Option<SubtitlePredicateResult>)
    ensures r.Some? <==> SomeWordOccurs(BLASPHEMY_WORDS, Casefold(txt))
  {
    AnyWordInMeansOccurs(BLASPHEMY_WORDS, Casefold(txt));
    if AnyWordIn(BLASPHEMY_WORDS, Casefold(txt)) then Some(BLASPHEMY) else None
  }

  /** Some listed word, case-folded, occurs in the text. */
  ghost predicate SomeWordOccurs(words: seq<string>, text: string) {
    exists k :: 0 <= k < |words| && IsSubstring(Casefold(words[k]), text)
  }

  /** The short-circuiting `any` over the list means "some word occurs". */
  lemma {:induction false} AnyWordInMeansOccurs(words: seq<string>, text: string)
    ensures AnyWordIn(words, text) <==> SomeWordOccurs(words, text)
  {
    if |words| > 0 {
      ContainsIsSubstring(text, Casefold(words[0]));
      AnyWordInMeansOccurs(words[1..], text);
      if SomeWordOccurs(words, text) {
        var k :| 0 <= k < |words| && IsSubstring(Casefold(words[k]), text);
        if k > 0 {
          assert words[1..][k - 1] == words[k];
        }
      }
      if SomeWordOccurs(words[1..], text) {
        var k :| 0 <= k < |words[1..]| && IsSubstring(Casefold(words[1..][k]), text);
        assert words[k + 1] == words[1..][k];
      }
    }
  }

  /** The listed words are already in lower case, so folding them changes nothing. */
  lemma BlasphemyWordsFolded()
    ensures forall k :: 0 <= k < |BLASPHEMY_WORDS| ==> Casefold(BLASPHEMY_WORDS[k]) == BLASPHEMY_WORDS[k]
  {
    forall k | 0 <= k < |BLASPHEMY_WORDS|
      ensures Casefold(BLASPHEMY_WORDS[k]) == BLASPHEMY_WORDS[k]
    {
      var w := BLASPHEMY_WORDS[k];
      forall i | 0 <= i < |w| ensures Casefold(w)[i] == w[i] {
        assert 'a' <= w[i] <= 'z';
      }
    }
  }

  /** A result is returned exactly when one of "god", "jesus", "christ",
      "lord" occurs in the case-folded text, and it is then always the
      profanity classification of severity 3. */
  lemma HasBlasphemyIff(txt: string)
    ensures HasBlasphemy(txt) ==
      if exists k :: 0 <= k < |BLASPHEMY_WORDS| && IsSubstring(BLASPHEMY_WORDS[k], Casefold(txt))
      then Some(SubtitlePredicateResult("profanity", 3, "blasphemy auto-detected from subtitles"))
      else None
  {
    BlasphemyWordsFolded();
  }

  /** The empty text matches nothing. */
  lemma EmptyTextHasNoBlasphemy()
    ensures HasBlasphemy("") == None
  {
    HasBlasphemyIff("");
    forall k | 0 <= k < |BLASPHEMY_WORDS|
      ensures !IsSubstring(BLASPHEMY_WORDS[k], Casefold(""))
    {
      assert |BLASPHEMY_WORDS[k]| > 0;
    }
  }

  /** Texts that differ only in letter case get the same result. */
  lemma CaseInsensitive(a: string, b: string)
    requires SameIgnoringCase(a, b)
    ensures HasBlasphemy(a) == HasBlasphemy(b)
  {
    CasefoldSameIgnoringCase(a, b);
  }

  /** Matching is monotone: any text that contains a matching text matches. */
  lemma MonotoneUnderExtension(t: string, u: string)
    requires IsSubstring(t, u)
    requires HasBlasphemy(t).Some?
    ensures HasBlasphemy(u).Some?
  {
    HasBlasphemyIff(t);
    HasBlasphemyIff(u);
    var k :| 0 <= k < |BLASPHEMY_WORDS| && IsSubstring(BLASPHEMY_WORDS[k], Casefold(t));
    CasefoldSubstring(t, u);
    SubstringTransitive(BLASPHEMY_WORDS[k], Casefold(t), Casefold(u));
  }

  /** There is no word boundary: "godly" matches. */
  lemma GodlyMatches()
    ensures HasBlasphemy("godly") == Some(BLASPHEMY)
  {
    var folded := Casefold("godly");
    assert folded[0..3] == "god";
    assert OccursAt(BLASPHEMY_WORDS[0], folded, 0);
    HasBlasphemyIff("godly");
  }

  /** A capitalised word inside punctuation matches. */
  lemma OhMyGodMatches()
    ensures HasBlasphemy("Oh my God!") == Some(BLASPHEMY)
  {
    var folded := Casefold("Oh my God!");
    assert folded[6..9] == "god";
    assert OccursAt(BLASPHEMY_WORDS[0], folded, 6);
    HasBlasphemyIff("Oh my God!");
  }

  lemma {:induction false} AbsentLetter(w: string, t: string, j: int)
    requires 0 <= j < |w| && w[j] !in t
    ensures !IsSubstring(w, t)
  {
    if IsSubstring(w, t) {
      LetterOfSubstring(w, t, j);
    }
  }

  /** A line without any listed word does not match: each word has a letter
      ("g", "j", "c", "d") that the folded line lacks. */
  lemma HelloThereDoesNotMatch()
    ensures HasBlasphemy("Hello there") == None
  {
    var folded := Casefold("Hello there");
    assert folded == "hello there" by {
      forall i | 0 <= i < 11 ensures folded[i] == "hello there"[i] { }
    }
    AbsentLetter("god", folded, 0);
    AbsentLetter("jesus", folded, 0);
    AbsentLetter("christ", folded, 0);
    AbsentLetter("lord", folded, 3);
    HasBlasphemyIff("Hello there");
  }
}
