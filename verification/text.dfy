/**
 * The string operations the search engine composes: JavaScript's `toLowerCase`,
 * `replace(/X+/g, " ")`, `trim`, `includes`, `split`, `join` and the tag
 * stripper `replace(/<[^>]*>/g, "")`, each as a function on `seq<char>` with the
 * facts the engine's properties rest on.
 */
module Text {
  import opened Chars

  /** `s` with `f` applied to every character (a character-wise `replace`). */
  function MapChars(s: string, f: char -> char): (r: string)
    ensures |r| == |s|
    ensures forall i :: 0 <= i < |s| ==> r[i] == f(s[i])
  {
    seq(|s|, i requires 0 <= i < |s| => f(s[i]))
  }

  /** `toLowerCase`. */
  function LowerStr(s: string): string {
    MapChars(s, Lower)
  }

  /** `replace(/[\u2019]/g, "'")`. */
  function Apostrophes(s: string): string {
    MapChars(s, Apostrophe)
  }

  /** Every whitespace character is a plain space and no two of them are adjacent. */
  ghost predicate SingleSpaced(s: string) {
    (forall i :: 0 <= i < |s| && IsWhite(s[i]) ==> s[i] == ' ')
    && (forall i, j :: 0 <= i < j < |s| && j == i + 1 && IsWhite(s[i]) ==> !IsWhite(s[j]))
  }

  /** No whitespace at either end. */
  ghost predicate Trimmed(s: string) {
    s != [] ==> !IsWhite(s[0]) && !IsWhite(s[|s| - 1])
  }

  /** What `s.replace(/\s+/g, " ").trim()` always produces. */
  ghost predicate Spaced(s: string) {
    SingleSpaced(s) && Trimmed(s)
  }

  ghost predicate AllWhite(s: string) {
    forall i :: 0 <= i < |s| ==> IsWhite(s[i])
  }

  /**
   * `s.replace(/X+/g, " ")` where `X` is the character class `sep`: every maximal
   * run of `sep` characters becomes one space. The space is emitted at the last
   * character of the run.
   */
  function Squash(s: string, sep: char -> bool): (r: string)
    ensures |r| <= |s|
    ensures |s| > 0 ==> |r| > 0 && r[0] == (if sep(s[0]) then ' ' else s[0])
    ensures forall i :: 0 <= i < |r| ==> r[i] == ' ' || (!sep(r[i]) && r[i] in s)
    ensures sep(' ') ==> forall i, j :: 0 <= i < j < |r| && j == i + 1 && sep(r[i]) ==> !sep(r[j])
    decreases |s|
  {
    if s == [] then []
    else if sep(s[0]) && |s| > 1 && sep(s[1]) then Squash(s[1..], sep)
    else if sep(s[0]) then " " + Squash(s[1..], sep)
    else [s[0]] + Squash(s[1..], sep)
  }

  /** `s.replace(/\s+/g, " ")`. */
  function Collapse(s: string): (r: string)
    ensures SingleSpaced(r)
    ensures forall i :: 0 <= i < |r| ==> r[i] == ' ' || r[i] in s
  {
    Squash(s, IsWhite)
  }

  /** The leading-whitespace half of `trim`. */
  function TrimStart(s: string): (r: string)
    ensures |r| <= |s| && r == s[|s| - |r|..]
    ensures forall i :: 0 <= i < |s| - |r| ==> IsWhite(s[i])
    ensures r != [] ==> !IsWhite(r[0])
    decreases |s|
  {
    if s != [] && IsWhite(s[0]) then TrimStart(s[1..]) else s
  }

  /** The trailing-whitespace half of `trim`. */
  function TrimEnd(s: string): (r: string)
    ensures |r| <= |s| && r == s[..|r|]
    ensures forall i :: |r| <= i < |s| ==> IsWhite(s[i])
    ensures r != [] ==> !IsWhite(r[|r| - 1])
    decreases |s|
  {
    if s != [] && IsWhite(s[|s| - 1]) then TrimEnd(s[..|s| - 1]) else s
  }

  /** `trim`: the string without its leading and trailing whitespace. */
  function Trim(s: string): (r: string)
    ensures Trimmed(r)
  {
    var t := TrimStart(s);
    TrimEndStart(t);
    TrimEnd(t)
  }

  /** `TrimEnd` keeps the first character of its argument whenever it keeps anything. */
  lemma TrimEndStart(t: string)
    ensures TrimEnd(t) != [] ==> TrimEnd(t)[0] == t[0]
  {
    var r := TrimEnd(t);
    if r != [] {
      assert r == t[..|r|];
    }
  }

  /** Where `Trim(s)` starts in `s`. */
  function TrimOffset(s: string): nat {
    |s| - |TrimStart(s)|
  }

  /** `trim` returns a slice of its argument: what follows the leading white space, without the trailing white space. */
  lemma TrimSlice(s: string)
    ensures TrimOffset(s) + |Trim(s)| <= |s|
    ensures Trim(s) == s[TrimOffset(s)..TrimOffset(s) + |Trim(s)|]
  {
    var t := TrimStart(s);
    assert t == s[TrimOffset(s)..];
    assert Trim(s) == t[..|Trim(s)|];
    PrefixOfSuffix(s, TrimOffset(s), |Trim(s)|);
  }

  lemma PrefixOfSuffix(s: string, lo: nat, k: nat)
    requires lo + k <= |s|
    ensures s[lo..][..k] == s[lo..lo + k]
  {
  }

  /** Every character of `s` has the property `p`. */
  ghost predicate All(s: string, p: char -> bool) {
    forall i :: 0 <= i < |s| ==> p(s[i])
  }

  /** Squashing keeps a property of characters that the space has. */
  lemma SquashAll(s: string, sep: char -> bool, p: char -> bool)
    requires p(' ') && All(s, p)
    ensures All(Squash(s, sep), p)
  {
    var t := Squash(s, sep);
    forall i | 0 <= i < |t|
      ensures p(t[i])
    {
      if t[i] != ' ' {
        var j :| 0 <= j < |s| && s[j] == t[i];
      }
    }
  }

  /** `Trim` keeps every property of characters. */
  lemma TrimAll(s: string, p: char -> bool)
    requires All(s, p)
    ensures All(Trim(s), p)
  {
    TrimSlice(s);
    AllSlice(s, TrimOffset(s), TrimOffset(s) + |Trim(s)|, p);
  }

  lemma AllSlice(s: string, lo: nat, hi: nat, p: char -> bool)
    requires All(s, p) && lo <= hi <= |s|
    ensures All(s[lo..hi], p)
  {
    forall i | 0 <= i < hi - lo
      ensures p(s[lo..hi][i])
    {
      assert s[lo..hi][i] == s[lo + i];
    }
  }

  /** `trim` leaves nothing exactly when the string is all whitespace. */
  lemma TrimEmpty(s: string)
    ensures Trim(s) == [] <==> AllWhite(s)
  {
  }

  /** A trimmed string is its own `trim`. */
  lemma TrimFixed(s: string)
    requires Trimmed(s)
    ensures Trim(s) == s
  {
  }

  /** A slice of a collapsed string is collapsed. */
  lemma SingleSpacedSlice(s: string, lo: nat, hi: nat)
    requires SingleSpaced(s) && lo <= hi <= |s|
    ensures SingleSpaced(s[lo..hi])
  {
    var t := s[lo..hi];
    forall i | 0 <= i < |t| && IsWhite(t[i])
      ensures t[i] == ' '
    {
      assert t[i] == s[lo + i];
    }
    forall i, j | 0 <= i < j < |t| && j == i + 1 && IsWhite(t[i])
      ensures !IsWhite(t[j])
    {
      assert t[i] == s[lo + i] && t[j] == s[lo + j];
    }
  }

  /** `trim` keeps a collapsed string collapsed. */
  lemma TrimSingleSpaced(s: string)
    requires SingleSpaced(s)
    ensures SingleSpaced(Trim(s))
  {
    TrimSlice(s);
    SingleSpacedSlice(s, TrimOffset(s), TrimOffset(s) + |Trim(s)|);
  }

  /** A string that is already collapsed comes back from `Collapse` unchanged. */
  lemma {:induction false} CollapseFixed(s: string)
    requires SingleSpaced(s)
    ensures Collapse(s) == s
  {
    if s != [] {
      assert SingleSpaced(s[1..]);
      CollapseFixed(s[1..]);
    }
  }

  /** Every `sep` character is a space and no two of them are adjacent: what squashing by `sep` leaves. */
  ghost predicate SpacedBy(s: string, sep: char -> bool) {
    (forall i :: 0 <= i < |s| && sep(s[i]) ==> s[i] == ' ')
    && (forall i, j :: 0 <= i < j < |s| && j == i + 1 && sep(s[i]) ==> !sep(s[j]))
  }

  /** A string that squashing by `sep` would not change comes back unchanged. */
  lemma {:induction false} SquashFixed(s: string, sep: char -> bool)
    requires SpacedBy(s, sep)
    ensures Squash(s, sep) == s
    decreases |s|
  {
    if s != [] {
      assert SpacedBy(s[1..], sep);
      SquashFixed(s[1..], sep);
    }
  }

  /** A character map that keeps `sep` and the space commutes with squashing. */
  lemma {:induction false} SquashMap(s: string, sep: char -> bool, f: char -> char)
    requires forall c :: sep(f(c)) == sep(c)
    requires f(' ') == ' '
    ensures Squash(MapChars(s, f), sep) == MapChars(Squash(s, sep), f)
    decreases |s|
  {
    if s != [] {
      assert MapChars(s, f)[1..] == MapChars(s[1..], f);
      SquashMap(s[1..], sep, f);
    }
  }

  /** Squashing looks only at which characters are separators, not at which separators they are. */
  lemma {:induction false} SquashSameClasses(s: string, t: string, sep: char -> bool)
    requires |s| == |t|
    requires forall i :: 0 <= i < |s| ==> (sep(s[i]) && sep(t[i])) || s[i] == t[i]
    ensures Squash(s, sep) == Squash(t, sep)
    decreases |s|
  {
    if s != [] {
      SquashSameClasses(s[1..], t[1..], sep);
    }
  }

  /** A run of separators of any length squashes like a single space. */
  lemma {:induction false} SquashRun(x: string, w: string, y: string, sep: char -> bool)
    requires sep(' ')
    requires w != [] && forall i :: 0 <= i < |w| ==> sep(w[i])
    ensures Squash(x + w + y, sep) == Squash(x + " " + y, sep)
    decreases |x| + |w|
  {
    if x == [] {
      if |w| == 1 {
        assert (w + y)[1..] == y && (" " + y)[1..] == y;
      } else {
        assert x + w + y == w + y && x + " " + y == " " + y;
        assert (w + y)[1] == w[1] && sep(w[1]);
        assert (w + y)[1..] == x + w[1..] + y;
        SquashRun(x, w[1..], y, sep);
      }
    } else {
      assert (x + w + y)[1..] == x[1..] + w + y;
      assert (x + " " + y)[1..] == x[1..] + " " + y;
      SquashRun(x[1..], w, y, sep);
    }
  }

  /** A space in front of a squashed string is dropped again by `trim`. */
  lemma LeadingSpaceTrimmed(s: string)
    ensures Trim(Collapse(" " + s)) == Trim(Collapse(s))
  {
    if s != [] && !IsWhite(s[0]) {
      assert Collapse(" " + s) == " " + Collapse(s);
      assert TrimStart(" " + Collapse(s)) == TrimStart(Collapse(s));
    } else if s != [] {
      assert (" " + s)[1..] == s;
    }
  }

  /** Squashing a string with one more separator at its end adds at most one space. */
  lemma {:induction false} SquashAppendSep(s: string, c: char, sep: char -> bool)
    requires sep(c)
    ensures Squash(s + [c], sep) == (if s != [] && sep(s[|s| - 1]) then Squash(s, sep) else Squash(s, sep) + " ")
    decreases |s|
  {
    if s != [] {
      assert (s + [c])[1..] == s[1..] + [c];
      SquashAppendSep(s[1..], c, sep);
    }
  }

  /** `trim` ignores one more whitespace character at the end. */
  lemma {:induction false} TrimStartAppendWhite(s: string, c: char)
    requires IsWhite(c)
    ensures TrimStart(s + [c]) == (if AllWhite(s) then [] else TrimStart(s) + [c])
    decreases |s|
  {
    if s != [] && IsWhite(s[0]) {
      assert (s + [c])[1..] == s[1..] + [c];
      TrimStartAppendWhite(s[1..], c);
    } else if s != [] {
      assert !AllWhite(s);
    }
  }

  /** One more whitespace character at the end does not survive `trim`. */
  lemma TrimAppendWhite(t: string, c: char)
    requires IsWhite(c)
    ensures Trim(t + [c]) == Trim(t)
  {
    TrimStartAppendWhite(t, c);
    if AllWhite(t) {
      TrimEmpty(t);
    } else {
      var a := TrimStart(t);
      assert (a + [c])[..|a|] == a;
      assert TrimEnd(a + [c]) == TrimEnd(a);
    }
  }

  /** A space after a squashed string is dropped again by `trim`. */
  lemma TrailingSpaceTrimmed(s: string)
    ensures Trim(Collapse(s + " ")) == Trim(Collapse(s))
  {
    SquashAppendSep(s, ' ', IsWhite);
    if !(s != [] && IsWhite(s[|s| - 1])) {
      TrimAppendWhite(Collapse(s), ' ');
    }
  }

  /** A character map that keeps whitespace commutes with `trim`. */
  lemma {:induction false} TrimMap(s: string, f: char -> char)
    requires forall c :: IsWhite(f(c)) == IsWhite(c)
    ensures Trim(MapChars(s, f)) == MapChars(Trim(s), f)
  {
    TrimStartMap(s, f);
    TrimEndMap(TrimStart(s), f);
  }

  lemma {:induction false} TrimStartMap(s: string, f: char -> char)
    requires forall c :: IsWhite(f(c)) == IsWhite(c)
    ensures TrimStart(MapChars(s, f)) == MapChars(TrimStart(s), f)
    decreases |s|
  {
    if s != [] {
      assert MapChars(s, f)[1..] == MapChars(s[1..], f);
      TrimStartMap(s[1..], f);
    }
  }

  lemma {:induction false} TrimEndMap(s: string, f: char -> char)
    requires forall c :: IsWhite(f(c)) == IsWhite(c)
    ensures TrimEnd(MapChars(s, f)) == MapChars(TrimEnd(s), f)
    decreases |s|
  {
    if s != [] {
      assert MapChars(s, f)[..|s| - 1] == MapChars(s[..|s| - 1], f);
      TrimEndMap(s[..|s| - 1], f);
    }
  }

  /** `hay.includes(needle)`. */
  function Contains(hay: string, needle: string): bool
    decreases |hay|
  {
    needle <= hay || (hay != [] && Contains(hay[1..], needle))
  }

  /** A needle found in a suffix of the haystack is found in the haystack. */
  lemma {:induction false} ContainsInSuffix(hay: string, k: nat, needle: string)
    requires k <= |hay| && Contains(hay[k..], needle)
    ensures Contains(hay, needle)
  {
    if k > 0 {
      assert hay[1..][k - 1..] == hay[k..];
      ContainsInSuffix(hay[1..], k - 1, needle);
    }
  }

  /** Length of the maximal leading run of non-whitespace characters. */
  function TokenEnd(s: string): (n: nat)
    ensures n <= |s|
    ensures forall i :: 0 <= i < n ==> !IsWhite(s[i])
    ensures n < |s| ==> IsWhite(s[n])
    decreases |s|
  {
    if s == [] || IsWhite(s[0]) then 0 else 1 + TokenEnd(s[1..])
  }

  /** `s.split(/\s+/).filter(Boolean)`: the maximal runs of non-whitespace characters, in order. */
  function Split(s: string): (r: seq<string>)
    ensures forall i :: 0 <= i < |r| ==> r[i] != []
    ensures forall i, j :: 0 <= i < |r| && 0 <= j < |r[i]| ==> !IsWhite(r[i][j])
    ensures r == [] <==> AllWhite(s)
    decreases |s|
  {
    if s == [] then []
    else if IsWhite(s[0]) then Split(s[1..])
    else
      var n := TokenEnd(s);
      [s[..n]] + Split(s[n..])
  }

  /** `parts.join(sep)`. */
  function Join(parts: seq<string>, sep: string): string
    decreases |parts|
  {
    if parts == [] then []
    else if |parts| == 1 then parts[0]
    else parts[0] + sep + Join(parts[1..], sep)
  }

  /** Every token of `Split(s)` occurs in `s`. */
  lemma {:induction false} SplitTokensOccur(s: string)
    ensures forall i :: 0 <= i < |Split(s)| ==> Contains(s, Split(s)[i])
    decreases |s|
  {
    if s == [] {
    } else if IsWhite(s[0]) {
      SplitTokensOccur(s[1..]);
      forall i | 0 <= i < |Split(s)|
        ensures Contains(s, Split(s)[i])
      {
        assert Split(s)[i] == Split(s[1..])[i];
        ContainsInSuffix(s, 1, Split(s)[i]);
      }
    } else {
      var n := TokenEnd(s);
      SplitTokensOccur(s[n..]);
      forall i | 0 <= i < |Split(s)|
        ensures Contains(s, Split(s)[i])
      {
        if i == 0 {
          assert Split(s)[0] <= s;
        } else {
          assert Split(s)[i] == Split(s[n..])[i - 1];
          ContainsInSuffix(s, n, Split(s)[i]);
        }
      }
    }
  }

  /** In a collapsed, trimmed string the first token is followed by one space and the rest is again collapsed and trimmed. */
  lemma SpacedAfterToken(s: string, n: nat)
    requires Spaced(s) && n == TokenEnd(s) && n < |s|
    ensures 0 < n && s[n] == ' ' && s[n + 1..] != [] && Spaced(s[n + 1..])
  {
    assert !IsWhite(s[0]) && !IsWhite(s[|s| - 1]);
    assert IsWhite(s[n]);
    assert s[n] == ' ';
    assert n + 1 < |s|;
    assert !IsWhite(s[n + 1]);
    SingleSpacedSlice(s, n + 1, |s|);
    var rest := s[n + 1..];
    assert rest[0] == s[n + 1] && rest[|rest| - 1] == s[|s| - 1];
  }

  /** The first token of a string that starts with a non-space. */
  lemma SplitHead(s: string)
    requires s != [] && !IsWhite(s[0])
    ensures Split(s) == [s[..TokenEnd(s)]] + Split(s[TokenEnd(s)..])
  {
  }

  /** A whitespace character in front is skipped by `Split`. */
  lemma SplitSkipsWhite(s: string, n: nat)
    requires n < |s| && IsWhite(s[n])
    ensures Split(s[n..]) == Split(s[n + 1..])
  {
    assert s[n..][0] == s[n] && s[n..][1..] == s[n + 1..];
  }

  lemma JoinCons(t: string, rest: seq<string>, sep: string)
    requires rest != []
    ensures Join([t] + rest, sep) == t + sep + Join(rest, sep)
  {
    assert ([t] + rest)[1..] == rest;
  }

  /** A string is what comes before position `n`, the space at `n`, and what follows. */
  lemma SplitAround(s: string, n: nat)
    requires n < |s| && s[n] == ' '
    ensures s == s[..n] + " " + s[n + 1..]
  {
  }

  /** A collapsed, trimmed string is the space-join of its tokens. */
  lemma {:induction false} JoinSplit(s: string)
    requires Spaced(s)
    ensures Join(Split(s), " ") == s
    decreases |s|
  {
    if s != [] {
      var n := TokenEnd(s);
      SplitHead(s);
      if n < |s| {
        var rest := s[n + 1..];
        SpacedAfterToken(s, n);
        SplitSkipsWhite(s, n);
        JoinSplit(rest);
        TrimEmpty(rest);
        JoinCons(s[..n], Split(rest), " ");
        SplitAround(s, n);
      } else {
        assert s[..n] == s;
      }
    }
  }

  /** Index of the first occurrence of `c` in `s`. */
  function IndexOf(s: string, c: char): (i: nat)
    requires c in s
    ensures i < |s| && s[i] == c && c !in s[..i]
    decreases |s|
  {
    if s[0] == c then 0 else 1 + IndexOf(s[1..], c)
  }

  /** `s.split(c)` for a single character `c`: the pieces between occurrences of `c`. */
  function SplitOn(s: string, c: char): (r: seq<string>)
    ensures |r| > 0
    ensures forall i :: 0 <= i < |r| ==> c !in r[i]
    decreases |s|
  {
    if c in s then
      var i := IndexOf(s, c);
      [s[..i]] + SplitOn(s[i + 1..], c)
    else [s]
  }

  /** Splitting on `c` and joining with `c` gives back the string. */
  lemma {:induction false} SplitOnJoin(s: string, c: char)
    ensures Join(SplitOn(s, c), [c]) == s
    decreases |s|
  {
    if c in s {
      var i := IndexOf(s, c);
      SplitOnJoin(s[i + 1..], c);
      assert s == s[..i] + [c] + s[i + 1..];
    }
  }

  /** Joining pieces free of `c` with `c` and splitting on `c` gives back the pieces. */
  lemma {:induction false} JoinSplitOn(parts: seq<string>, c: char)
    requires |parts| > 0
    requires forall i :: 0 <= i < |parts| ==> c !in parts[i]
    ensures SplitOn(Join(parts, [c]), c) == parts
    decreases |parts|
  {
    if |parts| > 1 {
      var s := Join(parts, [c]);
      var p := parts[0];
      assert s == p + [c] + Join(parts[1..], [c]);
      assert c in s by { assert s[|p|] == c; }
      var i := IndexOf(s, c);
      assert i == |p|;
      assert s[..i] == p;
      assert s[i + 1..] == Join(parts[1..], [c]);
      JoinSplitOn(parts[1..], c);
    } else {
      assert Join(parts, [c]) == parts[0];
    }
  }

  /** No `<` is followed, anywhere later, by a `>`: nothing `/<[^>]*>/` could match. */
  ghost predicate TagFree(s: string) {
    forall i, j :: 0 <= i < j < |s| && s[i] == '<' ==> s[j] != '>'
  }

  /**
   * `s.replace(/<[^>]*>/g, "")`: from each `<` that has a `>` after it, delete
   * up to and including the first such `>`; a `<` with no `>` after it stays.
   */
  function StripTags(s: string): (r: string)
    ensures |r| <= |s|
    ensures forall i :: 0 <= i < |r| ==> r[i] in s
    ensures TagFree(r)
    decreases |s|
  {
    if s == [] then []
    else if s[0] == '<' && '>' in s[1..] then
      var t := s[1..];
      StripTags(t[IndexOf(t, '>') + 1..])
    else
      var rest := StripTags(s[1..]);
      assert s[0] == '<' ==> forall j :: 0 <= j < |rest| ==> rest[j] != '>';
      [s[0]] + rest
  }

  /** Text that holds no tag is left alone, so stripping tags twice is stripping them once. */
  lemma {:induction false} StripTagsFixed(s: string)
    requires TagFree(s)
    ensures StripTags(s) == s
    decreases |s|
  {
    if s != [] {
      if s[0] == '<' {
        assert '>' !in s[1..];
      }
      assert TagFree(s[1..]);
      StripTagsFixed(s[1..]);
      assert StripTags(s) == [s[0]] + StripTags(s[1..]);
      assert s == [s[0]] + s[1..];
    }
  }

  /** Text with no `<` holds no tag and is kept whole. */
  lemma StripTagsNoOpen(x: string)
    requires '<' !in x
    ensures StripTags(x) == x
  {
    assert TagFree(x);
    StripTagsFixed(x);
  }

  /** Text with no `>` holds no tag either: every `<` in it is unclosed and is kept. */
  lemma StripTagsNoClose(x: string)
    requires '>' !in x
    ensures StripTags(x) == x
  {
    assert TagFree(x);
    StripTagsFixed(x);
  }

  /** A character other than `<` is kept in front of what the rest becomes. */
  lemma StripTagsCons(c: char, r: string)
    requires c != '<'
    ensures StripTags([c] + r) == [c] + StripTags(r)
  {
    assert ([c] + r)[1..] == r;
  }

  /** The first `c` in `t + [c] + y`, when `t` holds none, is the one after `t`. */
  lemma IndexOfAfter(t: string, c: char, y: string)
    requires c !in t
    ensures c in t + [c] + y && IndexOf(t + [c] + y, c) == |t|
  {
    var u := t + [c] + y;
    assert u[|t|] == c;
    var i := IndexOf(u, c);
    assert u[..|t|] == t;
    assert i <= |t| && c !in u[..i];
  }

  /** A tag at the very start is removed whole. */
  lemma StripTagsLeadingTag(t: string, y: string)
    requires '>' !in t
    ensures StripTags("<" + t + ">" + y) == StripTags(y)
  {
    var s := "<" + t + ">" + y;
    var u := s[1..];
    assert u == t + ">" + y;
    IndexOfAfter(t, '>', y);
    assert u[|t| + 1..] == y;
  }

  /** Text with no `<` in front of `z` is kept, and `z` is stripped on its own. */
  lemma {:induction false} StripTagsPrefix(x: string, z: string)
    requires '<' !in x
    ensures StripTags(x + z) == x + StripTags(z)
    decreases |x|
  {
    if x != [] {
      var c, r := x[0], x[1..];
      assert x == [c] + r;
      assert x + z == [c] + (r + z);
      StripTagsCons(c, r + z);
      StripTagsPrefix(r, z);
      assert StripTags(x + z) == [c] + (r + StripTags(z));
      assert [c] + (r + StripTags(z)) == ([c] + r) + StripTags(z);
    } else {
      assert x + z == z;
    }
  }

  /** The first `<…>` is removed whole, and the text before it is kept. */
  lemma StripTagsDropsTag(x: string, t: string, y: string)
    requires '<' !in x && '>' !in t
    ensures StripTags(x + "<" + t + ">" + y) == x + StripTags(y)
  {
    var z := "<" + t + ">" + y;
    assert x + "<" + t + ">" + y == x + z;
    StripTagsPrefix(x, z);
    StripTagsLeadingTag(t, y);
  }

  lemma ApostrophesCons(c: char, r: string)
    ensures Apostrophes([c] + r) == [Apostrophe(c)] + Apostrophes(r)
  {
  }

  lemma ApostrophesSlice(s: string, i: nat)
    requires i <= |s|
    ensures Apostrophes(s)[i..] == Apostrophes(s[i..])
  {
  }

  /** The apostrophe rewrite moves no `>`, so the first `>` is where it was. */
  lemma {:induction false} IndexOfApostrophes(s: string)
    requires '>' in s
    ensures '>' in Apostrophes(s) && IndexOf(Apostrophes(s), '>') == IndexOf(s, '>')
    decreases |s|
  {
    var a := Apostrophes(s);
    assert a[0] == Apostrophe(s[0]);
    if s[0] != '>' {
      ApostrophesSlice(s, 1);
      IndexOfApostrophes(s[1..]);
      assert a[1..] == Apostrophes(s[1..]);
    }
  }

  /** `StripTags` at a leading tag goes on after the first `>`. */
  lemma StripTagsOpenTag(s: string, u: string, k: nat, rest: string)
    requires s != [] && s[0] == '<' && s[1..] == u
    requires '>' in u && k == IndexOf(u, '>') && rest == u[k + 1..]
    ensures StripTags(s) == StripTags(rest)
  {
  }

  /** Where `s` opens with a tag, so does its rewrite, and both continue with `r`, after the same `>`. */
  lemma ApostrophesTagStep(s: string, r: string)
    requires s != [] && s[0] == '<' && '>' in s[1..]
    requires r == s[1..][IndexOf(s[1..], '>') + 1..]
    ensures StripTags(s) == StripTags(r)
    ensures StripTags(Apostrophes(s)) == StripTags(Apostrophes(r))
  {
    var t := s[1..];
    var k := IndexOf(t, '>');
    StripTagsOpenTag(s, t, k, r);
    var a, b := Apostrophes(s), Apostrophes(t);
    ApostrophesSlice(s, 1);
    IndexOfApostrophes(t);
    ApostrophesSlice(t, k + 1);
    StripTagsOpenTag(a, b, k, Apostrophes(r));
  }

  /** `StripTags` keeps a first character that does not open a tag. */
  lemma StripTagsKeepsHead(s: string, c: char, u: string)
    requires s != [] && s[0] == c && s[1..] == u && !(c == '<' && '>' in u)
    ensures StripTags(s) == [c] + StripTags(u)
  {
  }

  /** The rewrite creates no `>`. */
  lemma ApostrophesNoNewClose(t: string)
    ensures '>' in Apostrophes(t) ==> '>' in t
  {
    if '>' in Apostrophes(t) {
      var i :| 0 <= i < |t| && Apostrophes(t)[i] == '>';
      assert t[i] == '>';
    }
  }

  /** Where `s` does not open with a tag, neither does its rewrite. */
  lemma ApostrophesPlainStep(s: string)
    requires s != [] && !(s[0] == '<' && '>' in s[1..])
    ensures StripTags(s) == [s[0]] + StripTags(s[1..])
    ensures StripTags(Apostrophes(s)) == [Apostrophe(s[0])] + StripTags(Apostrophes(s[1..]))
  {
    var t := s[1..];
    StripTagsKeepsHead(s, s[0], t);
    var a := Apostrophes(s);
    ApostrophesSlice(s, 1);
    ApostrophesNoNewClose(t);
    StripTagsKeepsHead(a, Apostrophe(s[0]), Apostrophes(t));
  }

  /** Stripping tags and rewriting U+2019 to `'` can be done in either order. */
  lemma {:induction false} StripTagsApostrophes(s: string)
    ensures StripTags(Apostrophes(s)) == Apostrophes(StripTags(s))
    decreases |s|
  {
    if s != [] {
      var t := s[1..];
      if s[0] == '<' && '>' in t {
        var r := t[IndexOf(t, '>') + 1..];
        ApostrophesTagStep(s, r);
        StripTagsApostrophes(r);
      } else {
        ApostrophesPlainStep(s);
        StripTagsApostrophes(t);
        ApostrophesCons(s[0], StripTags(t));
      }
    }
  }
}
