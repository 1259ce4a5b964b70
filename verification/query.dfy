/**
 * Query and verse normalisation (`norm`, `words`) and the four matching modes
 * of the search route, with the dispatcher `matchText`.
 */
module Query {
  import opened Chars
  import opened Text

  /** A character `norm` can leave: a letter, a number, an apostrophe or a plain space. */
  predicate IsNormChar(c: char) {
    IsWordChar(c) || c == ' '
  }

  /** A character that lower-casing does not change. */
  predicate IsLowerFixed(c: char) {
    Lower(c) == c
  }

  /**
   * `norm`: tags stripped, lower-cased, U+2019 turned into an apostrophe, every
   * run of characters other than letters, numbers and apostrophes turned into one
   * space, then trimmed.
   */
  function Norm(s: string): string {
    Trim(Squash(Apostrophes(LowerStr(StripTags(s))), IsNonWord))
  }

  /** `norm` leaves letters, numbers, apostrophes and single spaces, and no space at either end. */
  lemma NormShape(s: string)
    ensures Spaced(Norm(s))
    ensures All(Norm(s), IsNormChar)
  {
    var squashed := Squash(Apostrophes(LowerStr(StripTags(s))), IsNonWord);
    NonWordSquashed(Apostrophes(LowerStr(StripTags(s))));
    TrimSingleSpaced(squashed);
    TrimAll(squashed, IsNormChar);
  }

  /** Squashing non-word runs leaves only word characters and single spaces. */
  lemma NonWordSquashed(a: string)
    ensures SingleSpaced(Squash(a, IsNonWord))
    ensures All(Squash(a, IsNonWord), IsNormChar)
  {
    var x := Squash(a, IsNonWord);
    forall i | 0 <= i < |x| && IsWhite(x[i])
      ensures x[i] == ' '
    {
      WhiteIsNonWord(x[i]);
    }
    forall i, j | 0 <= i < j < |x| && j == i + 1 && IsWhite(x[i])
      ensures !IsWhite(x[j])
    {
      WhiteIsNonWord(x[i]);
      WhiteIsNonWord(x[j]);
    }
  }

  /** `words`: `norm` split at whitespace, empty pieces dropped. */
  function Words(q: string): seq<string> {
    Split(Norm(q))
  }

  /** Every word is non-empty and made of letters, numbers and apostrophes only. */
  lemma WordsShape(q: string)
    ensures forall i :: 0 <= i < |Words(q)| ==> Words(q)[i] != [] && All(Words(q)[i], IsWordChar)
  {
    var n := Norm(q);
    var r := Split(n);
    NormShape(q);
    SplitTokensOccur(n);
    forall i | 0 <= i < |r|
      ensures All(r[i], IsWordChar)
    {
      ContainedChars(n, r[i]);
      forall j | 0 <= j < |r[i]|
        ensures IsWordChar(r[i][j])
      {
        var k :| 0 <= k < |n| && n[k] == r[i][j];
        assert IsNormChar(n[k]);
      }
    }
  }

  /** Every character of a string contained in `hay` occurs in `hay`. */
  lemma {:induction false} ContainedChars(hay: string, needle: string)
    requires Contains(hay, needle)
    ensures forall j :: 0 <= j < |needle| ==> needle[j] in hay
    decreases |hay|
  {
    if !(needle <= hay) {
      ContainedChars(hay[1..], needle);
      forall j | 0 <= j < |needle|
        ensures needle[j] in hay
      {
        assert needle[j] in hay[1..];
      }
    } else {
      forall j | 0 <= j < |needle|
        ensures needle[j] in hay
      {
        assert needle[j] == hay[j];
      }
    }
  }

  /** `matchAllWholeWords`: every query word is one of the verse's words. */
  function MatchAllWholeWords(text: string, q: string): bool {
    var hay := Words(text);
    var need := Words(q);
    if need == [] then false
    else forall i :: 0 <= i < |need| ==> need[i] in hay
  }

  /** `matchAllPartialWords`: every query word occurs somewhere in the normalised verse. */
  function MatchAllPartialWords(text: string, q: string): bool {
    var plain := Norm(text);
    var toks := Words(q);
    if toks == [] then false
    else forall i :: 0 <= i < |toks| ==> Contains(plain, toks[i])
  }

  /** `matchAnyWord`: some query word occurs somewhere in the normalised verse. */
  function MatchAnyWord(text: string, q: string): bool {
    var plain := Norm(text);
    var toks := Words(q);
    if toks == [] then false
    else exists i :: 0 <= i < |toks| && Contains(plain, toks[i])
  }

  /** The verse as exact-phrase matching sees it: tags stripped, lower-cased, whitespace collapsed, trimmed. */
  function PhraseText(text: string): string {
    Trim(Collapse(LowerStr(StripTags(text))))
  }

  /** The query as exact-phrase matching sees it: lower-cased, whitespace collapsed, trimmed. */
  function PhraseNeedle(q: string): string {
    Trim(Collapse(LowerStr(q)))
  }

  /** `matchExactPhrase`: the prepared query is a non-empty substring of the prepared verse. */
  function MatchExactPhrase(text: string, q: string): bool {
    var needle := PhraseNeedle(q);
    if needle == [] then false
    else Contains(PhraseText(text), needle)
  }

  /** `matchText`: dispatch on the mode; every mode other than `allw`, `all` and `any` is exact phrase. */
  function MatchText(text: string, q: string, mode: string): bool {
    if mode == "allw" then MatchAllWholeWords(text, q)
    else if mode == "all" then MatchAllPartialWords(text, q)
    else if mode == "any" then MatchAnyWord(text, q)
    else MatchExactPhrase(text, q)
  }

  /** `norm(text)` is the space-join of `words(text)`. */
  lemma NormIsJoinOfWords(text: string)
    ensures Join(Words(text), " ") == Norm(text)
  {
    NormShape(text);
    JoinSplit(Norm(text));
  }

  /** A normalised string is its own normal form. */
  lemma NormIdempotent(s: string)
    ensures Norm(Norm(s)) == Norm(s)
  {
    var n := Norm(s);
    NormShape(s);
    NormLowerFixed(s);
    NormPrefixFixed(n);
    NormSpacedByNonWord(n);
    SquashFixed(n, IsNonWord);
    TrimFixed(n);
  }

  /** The steps of `norm` before squashing leave a normalised string alone. */
  lemma NormPrefixFixed(n: string)
    requires All(n, IsNormChar) && All(n, IsLowerFixed)
    ensures Apostrophes(LowerStr(StripTags(n))) == n
  {
    NormNoTags(n);
    StripTagsFixed(n);
    LowerStrFixed(n);
    ApostrophesFixed(n);
  }

  lemma LowerStrFixed(n: string)
    requires All(n, IsLowerFixed)
    ensures LowerStr(n) == n
  {
    forall i | 0 <= i < |n|
      ensures LowerStr(n)[i] == n[i]
    {
      assert IsLowerFixed(n[i]);
    }
  }

  lemma ApostrophesFixed(n: string)
    requires All(n, IsNormChar)
    ensures Apostrophes(n) == n
  {
    forall i | 0 <= i < |n|
      ensures Apostrophes(n)[i] == n[i]
    {
      assert IsNormChar(n[i]);
    }
  }

  lemma NormNoTags(n: string)
    requires All(n, IsNormChar)
    ensures TagFree(n)
  {
    forall i | 0 <= i < |n|
      ensures n[i] != '<'
    {
      assert IsNormChar(n[i]);
    }
  }

  /** Every character `norm` produces is already lower-case. */
  lemma NormLowerFixed(s: string)
    ensures All(Norm(s), IsLowerFixed)
  {
    var t := StripTags(s);
    var a := Apostrophes(LowerStr(t));
    forall i | 0 <= i < |a|
      ensures IsLowerFixed(a[i])
    {
      LowerIdempotent(t[i]);
    }
    SquashAll(a, IsNonWord, IsLowerFixed);
    TrimAll(Squash(a, IsNonWord), IsLowerFixed);
  }

  lemma NormSpacedByNonWord(n: string)
    requires Spaced(n) && All(n, IsNormChar)
    ensures SpacedBy(n, IsNonWord)
  {
    forall i, j | 0 <= i < j < |n| && j == i + 1 && IsNonWord(n[i])
      ensures !IsNonWord(n[j])
    {
      assert IsNormChar(n[i]) && IsNormChar(n[j]);
    }
  }

  /** Whole-word matching implies all-partial matching: a word of the verse occurs in its normal form. */
  lemma WholeImpliesPartial(text: string, q: string)
    ensures MatchAllWholeWords(text, q) ==> MatchAllPartialWords(text, q)
  {
    if MatchAllWholeWords(text, q) {
      WordsOccur(text, Words(q));
    }
  }

  /** Words of the verse occur in the verse's normal form. */
  lemma WordsOccur(text: string, need: seq<string>)
    requires forall i :: 0 <= i < |need| ==> need[i] in Words(text)
    ensures forall i :: 0 <= i < |need| ==> Contains(Norm(text), need[i])
  {
    var hay := Words(text);
    SplitTokensOccur(Norm(text));
    forall i | 0 <= i < |need|
      ensures Contains(Norm(text), need[i])
    {
      var k :| 0 <= k < |hay| && hay[k] == need[i];
    }
  }

  /** All-partial matching implies any-word matching: the query has at least one word. */
  lemma PartialImpliesAny(text: string, q: string)
    ensures MatchAllPartialWords(text, q) ==> MatchAnyWord(text, q)
  {
    if MatchAllPartialWords(text, q) {
      assert Contains(Norm(text), Words(q)[0]);
    }
  }

  /** A character that `norm` always turns into a space: not a letter, number, apostrophe or U+2019. */
  predicate IsSpaceForNorm(c: char) {
    IsNonWord(c) && c != RightQuote
  }

  /** A query made only of such characters has no words. */
  lemma PunctuationQueryHasNoWords(q: string)
    requires All(q, IsSpaceForNorm)
    ensures Words(q) == []
  {
    var t := StripTags(q);
    var a := Apostrophes(LowerStr(t));
    forall i | 0 <= i < |a|
      ensures IsNonWord(a[i])
    {
      assert IsSpaceForNorm(t[i]);
    }
    var x := Squash(a, IsNonWord);
    forall i | 0 <= i < |x|
      ensures IsWhite(x[i])
    {
    }
    TrimEmpty(x);
  }

  /** A query with no words matches nothing in the three word modes. */
  lemma NoWordsNoWordMatch(text: string, q: string)
    requires Words(q) == []
    ensures !MatchAllWholeWords(text, q) && !MatchAllPartialWords(text, q) && !MatchAnyWord(text, q)
  {
  }

  /** A blank query matches nothing in any mode. */
  lemma BlankQueryMatchesNothing(text: string, q: string, mode: string)
    requires AllWhite(q)
    ensures !MatchText(text, q, mode)
  {
    BlankQueryHasNoWords(q);
    BlankQueryHasNoPhrase(q);
    NoWordsNoWordMatch(text, q);
    if mode != "allw" && mode != "all" && mode != "any" {
      OtherModesAreExactPhrase(text, q, mode);
    }
  }

  lemma BlankQueryHasNoWords(q: string)
    requires AllWhite(q)
    ensures Words(q) == []
  {
    forall i | 0 <= i < |q|
      ensures IsSpaceForNorm(q[i])
    {
      WhiteIsNonWord(q[i]);
    }
    PunctuationQueryHasNoWords(q);
  }

  lemma BlankQueryHasNoPhrase(q: string)
    requires AllWhite(q)
    ensures PhraseNeedle(q) == []
  {
    var l := LowerStr(q);
    assert AllWhite(l);
    AllWhiteSquashed(l);
    TrimEmpty(Collapse(l));
  }

  lemma AllWhiteSquashed(s: string)
    requires AllWhite(s)
    ensures AllWhite(Collapse(s))
  {
    var c := Collapse(s);
    forall i | 0 <= i < |c|
      ensures IsWhite(c[i])
    {
    }
  }

  /** Exact-phrase matching ignores the case of the query. */
  lemma ExactPhraseIgnoresQueryCase(text: string, q: string)
    ensures MatchExactPhrase(text, LowerStr(q)) == MatchExactPhrase(text, q)
  {
    forall i | 0 <= i < |q|
      ensures LowerStr(LowerStr(q))[i] == LowerStr(q)[i]
    {
      LowerIdempotent(q[i]);
    }
    assert LowerStr(LowerStr(q)) == LowerStr(q);
  }

  /** A tag-free verse with some non-whitespace is found by exact phrase when its own text is the query. */
  lemma ExactPhraseFindsItself(text: string)
    requires TagFree(text) && !AllWhite(text)
    ensures MatchExactPhrase(text, text)
  {
    StripTagsFixed(text);
    var l := LowerStr(text);
    var i :| 0 <= i < |text| && !IsWhite(text[i]);
    assert !IsWhite(l[i]);
    CollapseKeepsNonWhite(l, i);
    TrimEmpty(Collapse(l));
  }

  lemma CollapseKeepsNonWhite(s: string, i: nat)
    requires i < |s| && !IsWhite(s[i])
    ensures !AllWhite(Collapse(s))
    decreases |s|
  {
    if i == 0 {
      assert Collapse(s)[0] == s[0];
    } else {
      CollapseKeepsNonWhite(s[1..], i - 1);
      var c := Collapse(s[1..]);
      var k :| 0 <= k < |c| && !IsWhite(c[k]);
      if IsWhite(s[0]) && |s| > 1 && IsWhite(s[1]) {
        assert Collapse(s) == c;
      } else {
        assert Collapse(s)[k + 1] == c[k];
      }
    }
  }

  /** A verse with at least one word is found by its own text in every word mode. */
  lemma WordModesFindVerseItself(text: string)
    requires Words(text) != []
    ensures MatchAllWholeWords(text, text)
    ensures MatchAllPartialWords(text, text)
    ensures MatchAnyWord(text, text)
  {
    WholeImpliesPartial(text, text);
    PartialImpliesAny(text, text);
  }

  /** Every mode other than `allw`, `all` and `any`, including an unknown one, is exact phrase. */
  lemma OtherModesAreExactPhrase(text: string, q: string, mode: string)
    requires mode != "allw" && mode != "all" && mode != "any"
    ensures MatchText(text, q, mode) == MatchExactPhrase(text, q)
  {
  }

  /** Rewriting U+2019 before lower-casing changes nothing once `norm` rewrites it after. */
  lemma ApostropheLowerApostrophe(c: char)
    ensures Apostrophe(Lower(Apostrophe(c))) == Apostrophe(Lower(c))
  {
  }

  /** `norm` treats U+2019 as `'` wherever it stands, inside tags or not. */
  lemma NormIgnoresRightQuote(s: string)
    ensures Norm(Apostrophes(s)) == Norm(s)
  {
    StripTagsApostrophes(s);
    var u := StripTags(s);
    forall i | 0 <= i < |u|
      ensures Apostrophes(LowerStr(Apostrophes(u)))[i] == Apostrophes(LowerStr(u))[i]
    {
      ApostropheLowerApostrophe(u[i]);
    }
    assert Apostrophes(LowerStr(Apostrophes(u))) == Apostrophes(LowerStr(u));
  }

  /** Strings that agree once U+2019 is rewritten have the same normal form. */
  lemma NormSameRewrite(s: string, t: string)
    requires Apostrophes(s) == Apostrophes(t)
    ensures Norm(s) == Norm(t)
  {
    NormIgnoresRightQuote(s);
    NormIgnoresRightQuote(t);
  }

  /** A right single quotation mark and an apostrophe give the same normalised text. */
  lemma NormRightQuote(x: string, y: string)
    ensures Norm(x + [RightQuote] + y) == Norm(x + "'" + y)
  {
    var s, t := x + [RightQuote] + y, x + "'" + y;
    forall i | 0 <= i < |s|
      ensures Apostrophes(s)[i] == Apostrophes(t)[i]
    {
    }
    assert Apostrophes(s) == Apostrophes(t);
    NormSameRewrite(s, t);
  }

  /** The word modes look at the verse only through its normal form. */
  lemma WordModesSameVerseNorm(a: string, b: string, q: string, mode: string)
    requires mode == "allw" || mode == "all" || mode == "any"
    requires Norm(a) == Norm(b)
    ensures MatchText(a, q, mode) == MatchText(b, q, mode)
  {
    assert Words(a) == Words(b);
  }

  /** The word modes look at the query only through its normal form. */
  lemma WordModesSameQueryNorm(text: string, a: string, b: string, mode: string)
    requires mode == "allw" || mode == "all" || mode == "any"
    requires Norm(a) == Norm(b)
    ensures MatchText(text, a, mode) == MatchText(text, b, mode)
  {
    assert Words(a) == Words(b);
  }

  /** The three word modes see U+2019 and `'` alike, in the verse and in the query. */
  lemma WordModesIgnoreRightQuote(x: string, y: string, other: string, mode: string)
    requires mode == "allw" || mode == "all" || mode == "any"
    ensures MatchText(x + [RightQuote] + y, other, mode) == MatchText(x + "'" + y, other, mode)
    ensures MatchText(other, x + [RightQuote] + y, mode) == MatchText(other, x + "'" + y, mode)
  {
    NormRightQuote(x, y);
    WordModesSameVerseNorm(x + [RightQuote] + y, x + "'" + y, other, mode);
    WordModesSameQueryNorm(other, x + [RightQuote] + y, x + "'" + y, mode);
  }

  /** A one-character verse or query that is no tag, no space and already lower case is its own phrase form. */
  lemma SingleCharPhrase(c: char)
    requires c != '<' && !IsWhite(c) && Lower(c) == c
    ensures PhraseText([c]) == [c] && PhraseNeedle([c]) == [c]
  {
    StripTagsNoOpen([c]);
    assert LowerStr([c]) == [c];
    CollapseFixed([c]);
    TrimFixed([c]);
  }

  /** A one-character word is its own normal form and its only word. */
  lemma SingleCharWord(c: char)
    requires IsWordChar(c) && c != '<' && Lower(c) == c && c != RightQuote
    ensures Norm([c]) == [c] && Words([c]) == [[c]]
  {
    StripTagsNoOpen([c]);
    assert LowerStr([c]) == [c];
    assert Apostrophes([c]) == [c];
    SquashFixed([c], IsNonWord);
    TrimFixed([c]);
    assert TokenEnd([c]) == 1;
  }

  /** The two quote characters: no space, already lower case, and `'` is a word character. */
  lemma QuoteCharFacts()
    ensures !IsWhite(RightQuote) && Lower(RightQuote) == RightQuote
    ensures !IsWhite('\'') && Lower('\'') == '\'' && IsWordChar('\'')
  {
  }

  /** A one-character string holds no other one-character string. */
  lemma SingleCharContains(c: char, d: char)
    requires c != d
    ensures !Contains([c], [d])
  {
    assert [c][0] == c && [d][0] == d;
    assert !([d] <= [c]);
    assert [c][1..] == [];
  }

  /** A verse whose normal form is the query's own is found by `all` mode, unless the query has no words. */
  lemma PartialWordsFindSameNorm(text: string, q: string)
    requires Norm(text) == Norm(q) && Words(q) != []
    ensures MatchAllPartialWords(text, q)
  {
    SplitTokensOccur(Norm(q));
  }

  lemma RightQuoteNormsLikeApostrophe()
    ensures Norm([RightQuote]) == Norm("'")
  {
    assert Apostrophes([RightQuote]) == Apostrophes("'") by {
      assert Apostrophes([RightQuote])[0] == '\'' == Apostrophes("'")[0];
    }
    NormSameRewrite([RightQuote], "'");
  }

  /** `all` mode finds the query `'` in a verse holding U+2019. */
  lemma PartialWordsFindRightQuote()
    ensures MatchAllPartialWords([RightQuote], "'")
  {
    QuoteCharFacts();
    SingleCharWord('\'');
    RightQuoteNormsLikeApostrophe();
    PartialWordsFindSameNorm([RightQuote], "'");
  }

  /** Exact phrase finds the query `'` in a verse holding `'`. */
  lemma ExactPhraseFindsApostrophe()
    ensures MatchExactPhrase("'", "'")
  {
    QuoteCharFacts();
    SingleCharPhrase('\'');
  }

  /** Exact phrase does not find the query `'` in a verse holding U+2019. */
  lemma ExactPhraseMissesRightQuote()
    ensures !MatchExactPhrase([RightQuote], "'")
  {
    QuoteCharFacts();
    SingleCharPhrase('\'');
    SingleCharPhrase(RightQuote);
    SingleCharContains(RightQuote, '\'');
  }

  /**
   * Exact phrase does not rewrite U+2019: the query `'` is found in a verse
   * holding `'` and not in one holding U+2019, which `all` mode finds.
   */
  lemma ExactPhraseKeepsRightQuote()
    ensures MatchText("'", "'", "exact")
    ensures !MatchText([RightQuote], "'", "exact")
    ensures MatchText([RightQuote], "'", "all")
  {
    ExactPhraseFindsApostrophe();
    ExactPhraseMissesRightQuote();
    PartialWordsFindRightQuote();
  }
}
