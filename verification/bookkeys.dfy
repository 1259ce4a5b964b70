/**
 * The book-key normaliser (`bookKey`) and the New Testament key set.
 *
 * A book key is the internal comparison form of a book name: case-folded, with
 * Latvian (and other Latin) diacritics folded to the base letter, whitespace runs
 * and no-break spaces collapsed to one space, and no whitespace at either end.
 * It lets the display name "1. Tesaloniķiešiem" find the file or list entry
 * spelled "1. Tesalonikiešiem". Keys are never shown to users.
 */
module BookKeys {
  import opened Chars
  import opened Text

  /** `replace(/\u00A0/g, " ")`. */
  function NbspToSpace(c: char): (r: char)
    ensures IsWhite(r) <==> IsWhite(c)
  {
    if c == Nbsp then ' ' else c
  }

  /** NFD decomposition, removal of U+0300..U+036F, NFC recomposition: marks go, precomposed letters fold. */
  function FoldDiacritics(s: string): (r: string)
    decreases |s|
  {
    if s == [] then []
    else (if IsMark(s[0]) then [] else [BaseLetter(s[0])]) + FoldDiacritics(s[1..])
  }

  /**
   * `bookKey` exactly as the source writes it: whitespace is collapsed and trimmed
   * BEFORE the combining marks are removed, so a mark that follows a space leaves
   * that space behind at the end of the key, or next to another space.
   */
  function BookKeyAsWritten(s: string): string {
    FoldDiacritics(LowerStr(Trim(Collapse(MapChars(s, NbspToSpace)))))
  }

  /** Counterexample: the key of "a" + space + U+0304 ends in a space, and is not its own key. */
  lemma BookKeyAsWrittenNotIdempotent()
    ensures BookKeyAsWritten("a \U{304}") == "a "
    ensures BookKeyAsWritten("a ") == "a"
    ensures BookKeyAsWritten(BookKeyAsWritten("a \U{304}")) != BookKeyAsWritten("a \U{304}")
  {
    WrittenKeyOfMarkAfterSpace();
    WrittenKeyOfTrailingSpace();
  }

  lemma WrittenKeyOfMarkAfterSpace()
    ensures BookKeyAsWritten("a \U{304}") == "a "
  {
    MarkAfterSpaceNoNbsp();
    MarkAfterSpaceTrimmed();
    MarkAfterSpaceLower();
    MarkAfterSpaceFolded();
  }

  lemma MarkAfterSpaceNoNbsp()
    ensures MapChars("a \U{304}", NbspToSpace) == "a \U{304}"
  {
  }

  lemma MarkAfterSpaceFolded()
    ensures FoldDiacritics("a \U{304}") == "a "
  {
    var s := "a \U{304}";
    assert FoldDiacritics(s[2..]) == [];
  }

  lemma MarkAfterSpaceTrimmed()
    ensures Trim(Collapse("a \U{304}")) == "a \U{304}"
  {
    var s := "a \U{304}";
    assert Collapse(s) == s;
    assert TrimStart(s) == s;
  }

  lemma MarkAfterSpaceLower()
    ensures LowerStr("a \U{304}") == "a \U{304}"
  {
    var s := "a \U{304}";
    assert LowerStr(s)[0] == Lower(s[0]) && LowerStr(s)[1] == Lower(s[1]) && LowerStr(s)[2] == Lower(s[2]);
  }

  lemma WrittenKeyOfTrailingSpace()
    ensures BookKeyAsWritten("a ") == "a"
  {
    SpaceAfterANoNbsp();
    SpaceAfterACollapsed();
    SpaceAfterATrimmed();
    PlainALower();
  }

  lemma SpaceAfterANoNbsp()
    ensures MapChars("a ", NbspToSpace) == "a "
  {
    var t := "a ";
    assert MapChars(t, NbspToSpace)[0] == t[0] && MapChars(t, NbspToSpace)[1] == t[1];
  }

  lemma SpaceAfterACollapsed()
    ensures Collapse("a ") == "a "
  {
    var t := "a ";
    assert Squash(t[1..], IsWhite) == " ";
  }

  lemma SpaceAfterATrimmed()
    ensures Trim("a ") == "a"
  {
    var t := "a ";
    assert TrimStart(t) == t;
    assert t[..1] == "a";
    assert TrimEnd(t) == "a";
  }

  lemma PlainALower()
    ensures LowerStr("a") == "a" && FoldDiacritics("a") == "a"
  {
    assert LowerStr("a")[0] == 'a';
    assert FoldDiacritics("a"[1..]) == [];
  }

  /**
   * Second counterexample: a mark that opens the name and is followed by a space.
   * `trim` keeps the mark, because it is not whitespace, so removing it exposes the
   * space at the start of the written key; the corrected key drops it.
   */
  lemma BookKeyAsWrittenLeadingMark()
    ensures BookKeyAsWritten("\U{304} a") == " a"
    ensures BookKey("\U{304} a") == "a"
  {
    LeadingMarkWritten();
    LeadingMarkCorrected();
  }

  lemma LeadingMarkWritten()
    ensures BookKeyAsWritten("\U{304} a") == " a"
  {
    LeadingMarkNoNbsp();
    LeadingMarkTrimmed();
    LeadingMarkLower();
    LeadingMarkFolded();
  }

  lemma LeadingMarkNoNbsp()
    ensures MapChars("\U{304} a", NbspToSpace) == "\U{304} a"
  {
    var s := "\U{304} a";
    assert MapChars(s, NbspToSpace)[0] == s[0] && MapChars(s, NbspToSpace)[1] == s[1] && MapChars(s, NbspToSpace)[2] == s[2];
  }

  lemma LeadingMarkTrimmed()
    ensures Trim(Collapse("\U{304} a")) == "\U{304} a"
  {
    var s := "\U{304} a";
    assert Squash(s[2..], IsWhite) == "a";
    assert Collapse(s) == s;
    assert TrimStart(s) == s;
  }

  lemma LeadingMarkLower()
    ensures LowerStr("\U{304} a") == "\U{304} a"
  {
    var s := "\U{304} a";
    assert LowerStr(s)[0] == Lower(s[0]) && LowerStr(s)[1] == Lower(s[1]) && LowerStr(s)[2] == Lower(s[2]);
  }

  lemma LeadingMarkFolded()
    ensures FoldDiacritics("\U{304} a") == " a"
  {
    var s := "\U{304} a";
    assert FoldDiacritics(s[2..]) == "a";
  }

  lemma LeadingMarkCorrected()
    ensures BookKey("\U{304} a") == "a"
  {
    var s := "\U{304} a";
    var t := " a";
    assert KeyChars(s[2..]) == "a";
    assert KeyChars(s[1..]) == t;
    assert KeyChars(s) == t;
    assert Squash(t[1..], IsWhite) == "a";
    assert Collapse(t) == t;
    assert TrimStart(t) == "a";
    assert TrimEnd("a") == "a";
  }

  /** A character that `KeyChars` can produce: no combining mark, already folded. */
  predicate IsKeyChar(c: char) {
    !IsMark(c) && KeyChar(c) == c
  }

  /** Lower-case, drop combining marks and fold every other character to its base letter. */
  function KeyChars(s: string): (r: string)
    ensures |r| <= |s|
    ensures All(r, IsKeyChar)
    decreases |s|
  {
    if s == [] then []
    else
      KeyCharFixed(s[0]);
      KeyHead(s[0]) + KeyChars(s[1..])
  }

  /** A book key: collapsed and trimmed, every character a key character. */
  ghost predicate IsKey(k: string) {
    Spaced(k) && All(k, IsKeyChar)
  }

  /**
   * `bookKey` with its steps in the order its own description intends: fold case
   * and diacritics first, then collapse whitespace and trim, so the result is
   * always a key.
   */
  function BookKey(s: string): (r: string)
    ensures IsKey(r)
  {
    var collapsed := Collapse(KeyChars(s));
    SquashAll(KeyChars(s), IsWhite, IsKeyChar);
    TrimAll(collapsed, IsKeyChar);
    TrimSingleSpaced(collapsed);
    Trim(collapsed)
  }

  lemma {:induction false} KeyCharsFixed(k: string)
    requires All(k, IsKeyChar)
    ensures KeyChars(k) == k
    decreases |k|
  {
    if k != [] {
      KeyCharsFixed(k[1..]);
    }
  }

  /** A key is its own key. */
  lemma KeyIsFixed(k: string)
    requires IsKey(k)
    ensures BookKey(k) == k
  {
    KeyCharsFixed(k);
    CollapseFixed(k);
    TrimFixed(k);
  }

  /** `bookKey` is idempotent (in the corrected order of steps). */
  lemma BookKeyIdempotent(s: string)
    ensures BookKey(BookKey(s)) == BookKey(s)
  {
    KeyIsFixed(BookKey(s));
  }

  lemma {:induction false} KeyCharsAppend(a: string, b: string)
    ensures KeyChars(a + b) == KeyChars(a) + KeyChars(b)
    decreases |a|
  {
    if a != [] {
      var h := if IsMark(a[0]) then [] else [KeyChar(a[0])];
      assert (a + b)[0] == a[0] && (a + b)[1..] == a[1..] + b;
      assert KeyChars(a + b) == h + KeyChars(a[1..] + b);
      assert KeyChars(a) == h + KeyChars(a[1..]);
      KeyCharsAppend(a[1..], b);
    } else {
      assert a + b == b;
    }
  }

  lemma {:induction false} KeyCharsOfMarkFree(s: string)
    requires All(s, IsNotMark)
    ensures KeyChars(s) == MapChars(s, KeyChar)
    ensures FoldDiacritics(LowerStr(s)) == MapChars(s, KeyChar)
    decreases |s|
  {
    if s != [] {
      KeyCharsOfMarkFree(s[1..]);
      assert LowerStr(s)[1..] == LowerStr(s[1..]);
    }
  }

  /**
   * Case and diacritics do not matter, nor which whitespace character is used:
   * two names that agree position by position up to those differences have one key.
   */
  lemma {:induction false} BookKeyIgnoresCaseDiacriticsAndSpaceKind(s: string, t: string)
    requires |s| == |t|
    requires forall i :: 0 <= i < |s| ==>
      (IsWhite(s[i]) && IsWhite(t[i]))
      || (IsMark(s[i]) && IsMark(t[i]))
      || (!IsMark(s[i]) && !IsMark(t[i]) && KeyChar(s[i]) == KeyChar(t[i]))
    ensures BookKey(s) == BookKey(t)
  {
    KeyCharsPointwise(s, t);
    SquashSameClasses(KeyChars(s), KeyChars(t), IsWhite);
  }

  /** The characters one source character contributes to `KeyChars`. */
  function KeyHead(c: char): (r: string)
    ensures |r| <= 1
  {
    if IsMark(c) then [] else [KeyChar(c)]
  }

  /** Two strings of one length that agree wherever they do not both hold a `sep` character. */
  ghost predicate AlikeUpTo(s: string, t: string, sep: char -> bool) {
    |s| == |t| && forall i :: 0 <= i < |s| ==> (sep(s[i]) && sep(t[i])) || s[i] == t[i]
  }

  lemma AlikeAppend(s1: string, s2: string, t1: string, t2: string, sep: char -> bool)
    requires AlikeUpTo(s1, t1, sep) && AlikeUpTo(s2, t2, sep)
    ensures AlikeUpTo(s1 + s2, t1 + t2, sep)
  {
    forall i | 0 <= i < |s1 + s2|
      ensures (sep((s1 + s2)[i]) && sep((t1 + t2)[i])) || (s1 + s2)[i] == (t1 + t2)[i]
    {
      if i >= |s1| {
        assert (s1 + s2)[i] == s2[i - |s1|] && (t1 + t2)[i] == t2[i - |s1|];
      }
    }
  }

  lemma KeyHeadsAlike(c: char, d: char)
    requires (IsWhite(c) && IsWhite(d)) || (IsMark(c) && IsMark(d))
      || (!IsMark(c) && !IsMark(d) && KeyChar(c) == KeyChar(d))
    ensures AlikeUpTo(KeyHead(c), KeyHead(d), IsWhite)
  {
  }

  lemma {:induction false} KeyCharsPointwise(s: string, t: string)
    requires |s| == |t|
    requires forall i :: 0 <= i < |s| ==>
      (IsWhite(s[i]) && IsWhite(t[i]))
      || (IsMark(s[i]) && IsMark(t[i]))
      || (!IsMark(s[i]) && !IsMark(t[i]) && KeyChar(s[i]) == KeyChar(t[i]))
    ensures AlikeUpTo(KeyChars(s), KeyChars(t), IsWhite)
    decreases |s|
  {
    if s != [] {
      assert KeyChars(s) == KeyHead(s[0]) + KeyChars(s[1..]);
      assert KeyChars(t) == KeyHead(t[0]) + KeyChars(t[1..]);
      KeyHeadsAlike(s[0], t[0]);
      forall i | 0 <= i < |s| - 1
        ensures (IsWhite(s[1..][i]) && IsWhite(t[1..][i]))
          || (IsMark(s[1..][i]) && IsMark(t[1..][i]))
          || (!IsMark(s[1..][i]) && !IsMark(t[1..][i]) && KeyChar(s[1..][i]) == KeyChar(t[1..][i]))
      {
        assert s[1..][i] == s[i + 1] && t[1..][i] == t[i + 1];
      }
      KeyCharsPointwise(s[1..], t[1..]);
      AlikeAppend(KeyHead(s[0]), KeyChars(s[1..]), KeyHead(t[0]), KeyChars(t[1..]), IsWhite);
    }
  }

  /** Combining marks do not matter: removing every one of them keeps the key. */
  lemma {:induction false} BookKeyIgnoresMarks(s: string)
    ensures BookKey(s) == BookKey(RemoveMarks(s))
  {
    KeyCharsRemoveMarks(s);
  }

  function RemoveMarks(s: string): (r: string)
    ensures All(r, IsNotMark)
    decreases |s|
  {
    if s == [] then [] else (if IsMark(s[0]) then [] else [s[0]]) + RemoveMarks(s[1..])
  }

  lemma {:induction false} KeyCharsRemoveMarks(s: string)
    ensures KeyChars(RemoveMarks(s)) == KeyChars(s)
    decreases |s|
  {
    if s != [] {
      KeyCharsRemoveMarks(s[1..]);
      KeyCharsAppend(if IsMark(s[0]) then [] else [s[0]], RemoveMarks(s[1..]));
    }
  }

  /** The key characters of three concatenated pieces. */
  lemma KeyChars3(x: string, m: string, y: string)
    ensures KeyChars(x + m + y) == KeyChars(x) + KeyChars(m) + KeyChars(y)
  {
    KeyCharsAppend(x + m, y);
    KeyCharsAppend(x, m);
  }

  /** Whitespace keeps its length and its whiteness under `KeyChars`; a space stays a space. */
  lemma {:induction false} KeyCharsWhite(w: string)
    requires AllWhite(w)
    ensures |KeyChars(w)| == |w| && AllWhite(KeyChars(w))
    decreases |w|
  {
    if w != [] {
      KeyCharsWhite(w[1..]);
    }
  }

  /** A run of whitespace of any length inside a name counts as one space. */
  lemma BookKeyWhitespaceRun(x: string, w: string, y: string)
    requires w != [] && AllWhite(w)
    ensures BookKey(x + w + y) == BookKey(x + " " + y)
  {
    KeyChars3(x, w, y);
    KeyChars3(x, " ", y);
    KeyCharsWhite(w);
    KeyCharsSpace();
    SquashRun(KeyChars(x), KeyChars(w), KeyChars(y), IsWhite);
  }

  /** Leading and trailing whitespace do not matter. */
  lemma BookKeyIgnoresOuterSpace(s: string)
    ensures BookKey(" " + s) == BookKey(s)
    ensures BookKey(s + " ") == BookKey(s)
  {
    BookKeyIgnoresLeadingSpace(s);
    BookKeyIgnoresTrailingSpace(s);
  }

  lemma BookKeyIgnoresLeadingSpace(s: string)
    ensures BookKey(" " + s) == BookKey(s)
  {
    var k := KeyChars(s);
    assert KeyChars(" " + s) == " " + k by {
      KeyCharsAppend(" ", s);
      KeyCharsSpace();
    }
    LeadingSpaceTrimmed(k);
  }

  lemma BookKeyIgnoresTrailingSpace(s: string)
    ensures BookKey(s + " ") == BookKey(s)
  {
    var k := KeyChars(s);
    assert KeyChars(s + " ") == k + " " by {
      KeyCharsAppend(s, " ");
      KeyCharsSpace();
    }
    TrailingSpaceTrimmed(k);
  }

  lemma KeyCharsSpace()
    ensures KeyChars(" ") == " "
  {
    assert KeyChars(" ") == KeyHead(' ') + KeyChars([]);
  }

  /**
   * On names without combining marks (every name written in precomposed form,
   * as the manifest and the file names are) the corrected key and the key as
   * written agree.
   */
  lemma BookKeyAgreesWithSource(s: string)
    requires All(s, IsNotMark)
    ensures BookKeyAsWritten(s) == BookKey(s)
  {
    var t := Collapse(MapChars(s, NbspToSpace));
    CollapseFoldedAgrees(s);
    TrimMap(t, KeyChar);
    MarkFreeCollapsed(s);
    TrimAll(t, IsNotMark);
    KeyCharsOfMarkFree(Trim(t));
  }

  /** Folding before or after collapsing whitespace gives the same string, when there are no marks. */
  lemma CollapseFoldedAgrees(s: string)
    requires All(s, IsNotMark)
    ensures Collapse(KeyChars(s)) == MapChars(Collapse(MapChars(s, NbspToSpace)), KeyChar)
  {
    var spaced := MapChars(s, NbspToSpace);
    KeyCharsOfMarkFree(s);
    SquashSameClasses(MapChars(spaced, KeyChar), MapChars(s, KeyChar), IsWhite);
    SquashMap(spaced, IsWhite, KeyChar);
  }

  lemma MarkFreeCollapsed(s: string)
    requires All(s, IsNotMark)
    ensures All(Collapse(MapChars(s, NbspToSpace)), IsNotMark)
  {
    var spaced := MapChars(s, NbspToSpace);
    assert All(spaced, IsNotMark);
    SquashAll(spaced, IsWhite, IsNotMark);
  }

  /** The New Testament books, as the canonical book list spells them. */
  const NtBooks: seq<string> := [
    "Mateja evaņģēlijs", "Marka Evaņģēlijs", "Lūkas evaņģēlijs", "Jāņa evaņģēlijs",
    "Apustuļu darbi", "Romiešiem", "1. Korintiešiem", "2. Korintiešiem",
    "Galatiešiem", "Efeziešiem", "Filipiešiem", "Kolosiešiem",
    "1. Tesalonikiešiem", "2. Tesalonikiešiem", "1. Timotejam", "2. Timotejam",
    "Titam", "Filemonam", "Ebrejiem", "Jēkaba",
    "1. Pētera", "2. Pētera", "1. Jāņa", "2. Jāņa", "3. Jāņa",
    "Jūdas", "Atklāsmes"
  ]

  /** `NT_KEYS`: the keys of the New Testament books, built once. */
  const NtKeys: set<string> := set b | b in NtBooks :: BookKey(b)

  /** One character may be replaced by another that folds to the same key character. */
  lemma BookKeySubstitute(x: string, c: char, d: char, y: string)
    requires !IsMark(c) && !IsMark(d) && KeyChar(c) == KeyChar(d)
    ensures BookKey(x + [c] + y) == BookKey(x + [d] + y)
  {
    KeyChars3(x, [c], y);
    KeyChars3(x, [d], y);
    assert KeyChars([c]) == [KeyChar(c)];
    assert KeyChars([d]) == [KeyChar(d)];
  }

  /** "1. Tesalonikiešiem" is a New Testament book, so its key is in `NtKeys`. */
  lemma ThessaloniansIsNt()
    ensures "1. Tesalonikiešiem" in NtBooks
    ensures BookKey("1. Tesalonikiešiem") in NtKeys
  {
    assert NtBooks[12] == "1. Tesalonikiešiem";
  }

  /** The display spelling with ķ has the key of the New Testament entry spelled with k. */
  lemma ThessaloniansSpellingsShareKey()
    ensures BookKey("1. Tesaloniķiešiem") == BookKey("1. Tesalonikiešiem")
  {
    assert "1. Tesaloniķiešiem" == "1. Tesaloni" + ['ķ'] + "iešiem";
    assert "1. Tesalonikiešiem" == "1. Tesaloni" + ['k'] + "iešiem";
    assert KeyChar('ķ') == 'k' == KeyChar('k');
    BookKeySubstitute("1. Tesaloni", 'ķ', 'k', "iešiem");
  }

  /** The capital J folds to j. */
  lemma JanaCapital()
    ensures BookKey("Jāņa") == BookKey("jāņa")
  {
    assert KeyChar('J') == 'j' == KeyChar('j');
    assert "Jāņa" == [] + ['J'] + "āņa";
    assert "jāņa" == [] + ['j'] + "āņa";
    BookKeySubstitute([], 'J', 'j', "āņa");
  }

  /** ā folds to a. */
  lemma JanaMacron()
    ensures BookKey("jāņa") == BookKey("jaņa")
  {
    assert KeyChar('ā') == 'a' == KeyChar('a');
    assert "jāņa" == "j" + ['ā'] + "ņa";
    assert "jaņa" == "j" + ['a'] + "ņa";
    BookKeySubstitute("j", 'ā', 'a', "ņa");
  }

  /** ņ folds to n. */
  lemma JanaCedilla()
    ensures BookKey("jaņa") == BookKey("jana")
  {
    assert KeyChar('ņ') == 'n' == KeyChar('n');
    assert "jaņa" == "ja" + ['ņ'] + "a";
    assert "jana" == "ja" + ['n'] + "a";
    BookKeySubstitute("ja", 'ņ', 'n', "a");
  }

  /** A name typed without Latvian diacritics or capitals has the key of the name written with them. */
  lemma JanaSpellingsShareKey()
    ensures BookKey("Jāņa") == BookKey("jana")
  {
    JanaCapital();
    JanaMacron();
    JanaCedilla();
  }
}
