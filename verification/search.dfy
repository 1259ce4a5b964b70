/**
 * The `GET` handler of the search route: it reads the request's parameters,
 * walks the ordered book list, keeps the books the scope allows and that
 * have a file, collects a hit for every verse whose text in the requested
 * language matches the query, stops once 500 hits are collected, and sorts
 * the hits by book order, chapter and verse.
 *
 * The books' files are given as `docs`, a map from file name to the parsed
 * file; the directory listing and the manifest text are parameters too.
 */
module Search {
  import opened Wrappers
  import opened Text
  import opened BookKeys
  import opened Query
  import opened Catalog
  import opened Scope
  import opened Sorting

  /** The number of hits after which `GET` stops collecting and reports truncation. */
  const MaxResults: nat := 500

  /** The rank `cmpResults` gives a book missing from the order index (`1e9`). */
  const NoRank: int := 1_000_000_000

  /** One verse of a book file: its number and its English and Latvian text. */
  datatype VerseRow = VerseRow(verse: int, en: string, lv: string)

  /** A parsed book file; chapter keys are the chapter numbers. */
  datatype BookJson = BookJson(book: string, chapters: map<nat, seq<VerseRow>>)

  /** The language a hit was found in. */
  datatype Where = En | Lv

  datatype Hit = Hit(book: string, chapter: nat, verse: int, snippet: string, where: Where)

  /** The query-string parameters; `None` is a parameter that is absent. */
  datatype Params = Params(q: Option<string>, scope: Option<string>, mode: Option<string>, lang: Option<string>,
                           book: Option<string>, from: Option<string>, to: Option<string>)

  /** The JSON body: `truncated` is absent from the answer to a blank query. */
  datatype Response = Response(results: seq<Hit>, truncated: Option<bool>)

  /** The parameters after defaults and trimming, with the book parameters turned into keys. */
  datatype Settings = Settings(q: string, scope: string, mode: string, lang: string,
                               wantedKey: string, fromKey: string, toKey: string)

  /**
   * What `GET` searches: the order index, the file map, the parsed files by
   * name and the keys of the New Testament books.
   */
  datatype Library = Library(order: map<string, nat>, fileMap: map<string, string>, docs: map<string, BookJson>,
                             ntKeys: set<string>)

  function SettingsOf(p: Params): Settings {
    Settings(Trim(p.q.GetOr("")), p.scope.GetOr("all"), p.mode.GetOr("all"), p.lang.GetOr("en"),
             BookKey(Trim(p.book.GetOr(""))), BookKey(Trim(p.from.GetOr(""))), BookKey(Trim(p.to.GetOr(""))))
  }

  function LibraryOf(manifest: Option<string>, listing: seq<string>, docs: map<string, BookJson>): Library {
    Library(OrderIndex(ReadBookOrder(manifest, listing)), FileMap(listing), docs, NtKeys)
  }

  /** The smallest chapter number of a non-empty set. */
  function MinKey(s: set<nat>): (m: nat)
    requires s != {}
    ensures m in s && forall x :: x in s ==> m <= x
  {
    MinKeyExists(s);
    var m :| m in s && forall x :: x in s ==> m <= x;
    m
  }

  lemma MinKeyExists(s: set<nat>)
    requires s != {}
    ensures exists m :: m in s && forall x :: x in s ==> m <= x
  {
    var y :| y in s;
    MinBelow(s, y);
  }

  /** Below any member of a set of naturals there is a least member. */
  lemma {:induction false} MinBelow(s: set<nat>, y: nat)
    requires y in s
    ensures exists m :: m in s && forall x :: x in s ==> m <= x
    decreases y
  {
    if z :| z in s && z < y {
      MinBelow(s, z);
    } else {
      assert forall x :: x in s ==> y <= x;
    }
  }

  /** The chapter numbers in ascending order: the order of `chapterEntries` after its numeric sort. */
  function AscendingKeys(s: set<nat>): seq<nat>
    decreases |s|
  {
    if s == {} then []
    else
      var m := MinKey(s);
      [m] + AscendingKeys(s - {m})
  }

  /** `AscendingKeys` lists every chapter number of the set, each once, in strictly increasing order. */
  lemma {:induction false} AscendingKeysShape(s: set<nat>)
    ensures forall i, j :: 0 <= i < j < |AscendingKeys(s)| ==> AscendingKeys(s)[i] < AscendingKeys(s)[j]
    ensures forall c :: c in AscendingKeys(s) <==> c in s
    decreases |s|
  {
    if s != {} {
      var m := MinKey(s);
      AscendingKeysShape(s - {m});
      var rest := AscendingKeys(s - {m});
      assert AscendingKeys(s) == [m] + rest;
      forall j | 0 <= j < |rest|
        ensures m < rest[j]
      {
        assert rest[j] in s - {m};
      }
    }
  }

  /** The hits of one verse: the two `if`s of the inner loop, of which at most one fires. */
  function VerseHits(name: string, chapter: nat, v: VerseRow, st: Settings): seq<Hit> {
    (if st.lang == "en" && MatchText(v.en, st.q, st.mode) then [Hit(name, chapter, v.verse, StripTags(v.en), En)] else [])
    + (if st.lang == "lv" && MatchText(v.lv, st.q, st.mode) then [Hit(name, chapter, v.verse, StripTags(v.lv), Lv)] else [])
  }

  /** The hits of a run of verses, in verse order. */
  function VersesHits(name: string, chapter: nat, verses: seq<VerseRow>, st: Settings): seq<Hit> {
    Concat(VerseBlocks(name, chapter, verses, st))
  }

  /** The hits of each verse of a chapter, one block per verse. */
  function VerseBlocks(name: string, chapter: nat, verses: seq<VerseRow>, st: Settings): seq<seq<Hit>> {
    seq(|verses|, j requires 0 <= j < |verses| => VerseHits(name, chapter, verses[j], st))
  }

  /** The hits of one book of the ordered list: none when the scope drops it or it has no file. */
  function BookHits(name: string, st: Settings, lib: Library): seq<Hit> {
    var bk := BookKey(name);
    if !InScope(bk, st.scope, st.wantedKey, st.fromKey, st.toKey, lib.order, lib.ntKeys) then []
    else if bk !in lib.fileMap || lib.fileMap[bk] !in lib.docs then []
    else
      FileHits(name, lib.docs[lib.fileMap[bk]].chapters, st)
  }

  /** The hits of one book file, chapter by chapter in ascending chapter order. */
  function FileHits(name: string, chapters: map<nat, seq<VerseRow>>, st: Settings): seq<Hit> {
    Concat(ChapterBlocks(name, chapters, st))
  }

  /** The hits of each chapter of a book file, one block per chapter, in ascending chapter order. */
  function ChapterBlocks(name: string, chapters: map<nat, seq<VerseRow>>, st: Settings): seq<seq<Hit>> {
    var keys := AscendingKeys(chapters.Keys);
    AscendingKeysShape(chapters.Keys);
    seq(|keys|, k requires 0 <= k < |keys| => VersesHits(name, keys[k], chapters[keys[k]], st))
  }

  /** Every hit of the ordered book list, in the order `GET` finds them. */
  function BooksHits(books: seq<string>, st: Settings, lib: Library): seq<Hit> {
    Concat(BookBlocks(books, st, lib))
  }

  /** The hits of each book of the list, one block per book. */
  function BookBlocks(books: seq<string>, st: Settings, lib: Library): seq<seq<Hit>> {
    seq(|books|, i requires 0 <= i < |books| => BookHits(books[i], st, lib))
  }

  /** The blocks one after the other. */
  function Concat(blocks: seq<seq<Hit>>): seq<Hit>
    decreases |blocks|
  {
    if blocks == [] then [] else blocks[0] + Concat(blocks[1..])
  }

  /** The first `MaxResults` hits, or all of them when there are fewer. */
  function Take(hits: seq<Hit>): (r: seq<Hit>)
    ensures |r| == (if |hits| <= MaxResults then |hits| else MaxResults)
    ensures r == hits[..|r|]
  {
    if |hits| <= MaxResults then hits else hits[..MaxResults]
  }

  /** `order.get(bookKey(book)) ?? 1e9`. */
  function Rank(order: map<string, nat>, book: string): int {
    var k := BookKey(book);
    if k in order then order[k] else NoRank
  }

  /** `cmpResults`: negative when `a` sorts first, by book rank, then chapter, then verse. */
  function CmpResults(a: Hit, b: Hit, order: map<string, nat>): int {
    Lex(Rank(order, a.book), a.chapter, a.verse, Rank(order, b.book), b.chapter, b.verse)
  }

  /** The comparison `cmpResults` performs on (rank, chapter, verse): the first difference decides. */
  function Lex(r1: int, c1: int, v1: int, r2: int, c2: int, v2: int): int {
    if r1 != r2 then r1 - r2 else if c1 != c2 then c1 - c2 else v1 - v2
  }

  /** "`a` may come before `b`" under `cmpResults`. */
  function HitLe(order: map<string, nat>): (Hit, Hit) -> bool {
    (a: Hit, b: Hit) => CmpResults(a, b, order) <= 0
  }

  /** `cmpResults(a, b)` is the negation of `cmpResults(b, a)`. */
  lemma CmpAntisymmetric(a: Hit, b: Hit, order: map<string, nat>)
    ensures CmpResults(a, b, order) == -CmpResults(b, a, order)
  {
  }

  /** `cmpResults` is zero exactly for hits with the same book rank, chapter and verse. */
  lemma CmpZero(a: Hit, b: Hit, order: map<string, nat>)
    ensures CmpResults(a, b, order) == 0 <==>
      Rank(order, a.book) == Rank(order, b.book) && a.chapter == b.chapter && a.verse == b.verse
  {
    LexZero(Rank(order, a.book), a.chapter, a.verse, Rank(order, b.book), b.chapter, b.verse);
  }

  lemma LexZero(r1: int, c1: int, v1: int, r2: int, c2: int, v2: int)
    ensures Lex(r1, c1, v1, r2, c2, v2) == 0 <==> r1 == r2 && c1 == c2 && v1 == v2
  {
  }

  /** "May come before" under `cmpResults` is transitive. */
  lemma CmpTransitive(a: Hit, b: Hit, c: Hit, order: map<string, nat>)
    requires CmpResults(a, b, order) <= 0 && CmpResults(b, c, order) <= 0
    ensures CmpResults(a, c, order) <= 0
  {
    LexTransitive(Rank(order, a.book), a.chapter, a.verse, Rank(order, b.book), b.chapter, b.verse,
                  Rank(order, c.book), c.chapter, c.verse);
  }

  lemma LexTransitive(r1: int, c1: int, v1: int, r2: int, c2: int, v2: int, r3: int, c3: int, v3: int)
    requires Lex(r1, c1, v1, r2, c2, v2) <= 0 && Lex(r2, c2, v2, r3, c3, v3) <= 0
    ensures Lex(r1, c1, v1, r3, c3, v3) <= 0
  {
  }

  /** `cmpResults` is a consistent comparator: the relation it induces is a total preorder. */
  lemma HitLeIsPreorder(order: map<string, nat>)
    ensures Total(HitLe(order)) && Transitive(HitLe(order))
  {
    var le := HitLe(order);
    forall x: Hit, y: Hit
      ensures le(x, y) || le(y, x)
    {
      CmpAntisymmetric(x, y, order);
    }
    forall x: Hit, y: Hit, z: Hit | le(x, y) && le(y, z)
      ensures le(x, z)
    {
      CmpTransitive(x, y, z, order);
    }
  }

  /**
   * A hit whose book is missing from the order index sorts after every hit whose
   * book is in it, when every position is below `1e9` (as the positions of a
   * book list shorter than that are, by `OrderIndexBelow`).
   */
  lemma UnknownBooksLast(order: map<string, nat>, n: nat, a: Hit, b: Hit)
    requires n <= NoRank && forall k :: k in order ==> order[k] < n
    requires BookKey(a.book) in order && BookKey(b.book) !in order
    ensures CmpResults(a, b, order) < 0
  {
    var ra, rb := Rank(order, a.book), Rank(order, b.book);
    assert ra < rb by {
      RankOf(order, a.book);
      RankOf(order, b.book);
    }
    LexFirst(ra, a.chapter, a.verse, rb, b.chapter, b.verse);
  }

  lemma RankOf(order: map<string, nat>, book: string)
    ensures var k := BookKey(book); Rank(order, book) == if k in order then order[k] else NoRank
  {
  }

  lemma LexFirst(r1: int, c1: int, v1: int, r2: int, c2: int, v2: int)
    requires r1 < r2
    ensures Lex(r1, c1, v1, r2, c2, v2) < 0
  {
  }

  /** At most one hit per verse, since `lang` cannot be both `en` and `lv`. */
  lemma VerseHitsAtMostOne(name: string, chapter: nat, v: VerseRow, st: Settings)
    ensures |VerseHits(name, chapter, v, st)| <= 1
  {
  }

  lemma ConcatStep(blocks: seq<seq<Hit>>, i: nat)
    requires i < |blocks|
    ensures Concat(blocks[i..]) == blocks[i] + Concat(blocks[i + 1..])
  {
    assert blocks[i..][1..] == blocks[i + 1..];
  }

  lemma ConcatFrom(prefix: seq<Hit>, blocks: seq<seq<Hit>>)
    ensures prefix + Concat(blocks[0..]) == prefix + Concat(blocks)
    ensures [] + Concat(blocks) == Concat(blocks)
  {
    assert blocks[0..] == blocks;
  }

  lemma ConcatDone(results: seq<Hit>, blocks: seq<seq<Hit>>, total: seq<Hit>)
    requires results + Concat(blocks[|blocks|..]) == total
    ensures results == total
  {
    assert blocks[|blocks|..] == [];
  }

  /**
   * One block collected after `before`, `rest` still pending: under the limit
   * the collection continues with `rest`; at the limit it holds the first
   * `MaxResults` hits of the whole.
   */
  lemma NextBlock(before: seq<Hit>, block: seq<Hit>, rest: seq<Hit>, total: seq<Hit>, results: seq<Hit>)
    requires before + (block + rest) == total
    requires results == Take(before + block)
    ensures |results| < MaxResults ==> results + rest == total
    ensures |results| >= MaxResults ==> results == Take(total)
  {
    Advance(before, block, rest, total);
    if |results| >= MaxResults {
      TakeAppend(before + block, rest);
    }
  }

  /** Collection that stopped at `MaxResults` hits holds the first `MaxResults` hits. */
  lemma StoppedAtLimit(results: seq<Hit>, rest: seq<Hit>, total: seq<Hit>)
    requires results + rest == total && |results| == MaxResults
    ensures Take(total) == results
  {
    assert total[..MaxResults] == results;
  }

  /** Moving the next block of hits from the pending ones to the collected ones. */
  lemma Advance(results: seq<Hit>, block: seq<Hit>, rest: seq<Hit>, total: seq<Hit>)
    requires results + (block + rest) == total
    ensures (results + block) + rest == total
  {
    assert results + (block + rest) == (results + block) + rest;
  }

  /** Appending no hits to fewer than `MaxResults` keeps them all. */
  lemma TakeNothing(results: seq<Hit>, none: seq<Hit>)
    requires |results| < MaxResults && none == []
    ensures Take(results + none) == results
  {
    assert results + none == results;
  }

  /** Once `MaxResults` hits are at hand, later hits change nothing. */
  lemma TakeAppend(x: seq<Hit>, y: seq<Hit>)
    requires |x| >= MaxResults
    ensures Take(x + y) == Take(x)
  {
    assert (x + y)[..MaxResults] == x[..MaxResults];
  }

  /** The body of the verse loop: the hit for the verse in the requested language, if its text matches. */
  method MatchVerse(name: string, chapter: nat, v: VerseRow, st: Settings) returns (hits: seq<Hit>)
    ensures hits == VerseHits(name, chapter, v, st)
  {
    hits := [];
    if st.lang == "en" && MatchText(v.en, st.q, st.mode) {
      hits := hits + [Hit(name, chapter, v.verse, StripTags(v.en), En)];
    }
    if st.lang == "lv" && MatchText(v.lv, st.q, st.mode) {
      hits := hits + [Hit(name, chapter, v.verse, StripTags(v.lv), Lv)];
    }
  }

  /** The verse loop of `GET` over one chapter, appending to `results0`. */
  method CollectVerses(name: string, chapter: nat, verses: seq<VerseRow>, st: Settings, results0: seq<Hit>)
    returns (results: seq<Hit>)
    requires |results0| < MaxResults
    ensures results == Take(results0 + VersesHits(name, chapter, verses, st))
  {
    ghost var blocks := VerseBlocks(name, chapter, verses, st);
    ghost var total := results0 + Concat(blocks);
    results := results0;
    ConcatFrom(results0, blocks);
    var vi := 0;
    while vi < |verses|
      invariant 0 <= vi <= |verses|
      invariant results + Concat(blocks[vi..]) == total
      invariant |results| < MaxResults
    {
      var v := verses[vi];
      ConcatStep(blocks, vi);
      VerseHitsAtMostOne(name, chapter, v, st);
      var hits := MatchVerse(name, chapter, v, st);
      assert hits == blocks[vi];
      Advance(results, hits, Concat(blocks[vi + 1..]), total);
      results := results + hits;
      vi := vi + 1;
      if |results| >= MaxResults {
        StoppedAtLimit(results, Concat(blocks[vi..]), total);
        return;
      }
    }
    ConcatDone(results, blocks, total);
  }

  /** The chapter loop of `GET` over one book file, in ascending chapter order, appending to `results0`. */
  method CollectChapters(name: string, chapters: map<nat, seq<VerseRow>>, st: Settings, results0: seq<Hit>)
    returns (results: seq<Hit>)
    requires |results0| < MaxResults
    ensures results == Take(results0 + FileHits(name, chapters, st))
  {
    var chapterEntries := AscendingKeys(chapters.Keys);
    AscendingKeysShape(chapters.Keys);
    ghost var blocks := ChapterBlocks(name, chapters, st);
    ghost var total := results0 + Concat(blocks);
    results := results0;
    ConcatFrom(results0, blocks);
    var ci := 0;
    while ci < |chapterEntries|
      invariant 0 <= ci <= |chapterEntries|
      invariant |blocks| == |chapterEntries|
      invariant results + Concat(blocks[ci..]) == total
      invariant |results| < MaxResults
    {
      var chapter := chapterEntries[ci];
      ConcatStep(blocks, ci);
      ghost var before := results;
      results := CollectVerses(name, chapter, chapters[chapter], st, results);
      assert blocks[ci] == VersesHits(name, chapter, chapters[chapter], st);
      NextBlock(before, blocks[ci], Concat(blocks[ci + 1..]), total, results);
      ci := ci + 1;
      if |results| >= MaxResults {
        return;
      }
    }
    ConcatDone(results, blocks, total);
  }

  /**
   * The head of the book loop: the scope filters, then the file lookup by
   * key. `None` is a `continue`; otherwise the chapters of the book's file.
   */
  method OpenBook(name: string, st: Settings, lib: Library)
    returns (chapters: Option<map<nat, seq<VerseRow>>>)
    requires forall k :: k in lib.fileMap ==> lib.fileMap[k] in lib.docs
    ensures chapters.None? ==> BookHits(name, st, lib) == []
    ensures chapters.Some? ==>
      BookHits(name, st, lib) == FileHits(name, chapters.value, st)
  {
    var bk := BookKey(name);
    if !InScope(bk, st.scope, st.wantedKey, st.fromKey, st.toKey, lib.order, lib.ntKeys) {
      return None;
    }
    if bk !in lib.fileMap {
      return None;
    }
    var file := lib.fileMap[bk];
    var data := lib.docs[file];
    return Some(data.chapters);
  }

  /** One round of the book loop of `GET`, appending the book's hits to `results0`. */
  method CollectBook(name: string, st: Settings, lib: Library, results0: seq<Hit>)
    returns (results: seq<Hit>)
    requires forall k :: k in lib.fileMap ==> lib.fileMap[k] in lib.docs
    requires |results0| < MaxResults
    ensures results == Take(results0 + BookHits(name, st, lib))
  {
    var chapters := OpenBook(name, st, lib);
    if chapters.None? {
      TakeNothing(results0, BookHits(name, st, lib));
      return results0;
    }
    results := CollectChapters(name, chapters.value, st, results0);
  }

  /**
   * The book loop of `GET`: books in list order, skipping those the scope
   * drops and those without a file, stopping once `MaxResults` hits are
   * collected. Every file the file map names has its parsed file in
   * `lib.docs`.
   */
  method Collect(books: seq<string>, st: Settings, lib: Library) returns (results: seq<Hit>)
    requires forall k :: k in lib.fileMap ==> lib.fileMap[k] in lib.docs
    ensures results == Take(BooksHits(books, st, lib))
  {
    ghost var blocks := BookBlocks(books, st, lib);
    ghost var total := Concat(blocks);
    results := [];
    ConcatFrom([], blocks);
    var bi := 0;
    while bi < |books|
      invariant 0 <= bi <= |books|
      invariant results + Concat(blocks[bi..]) == total
      invariant |results| < MaxResults
    {
      var bookName := books[bi];
      ConcatStep(blocks, bi);
      ghost var before := results;
      results := CollectBook(bookName, st, lib, results);
      assert blocks[bi] == BookHits(bookName, st, lib);
      NextBlock(before, blocks[bi], Concat(blocks[bi + 1..]), total, results);
      bi := bi + 1;
      if |results| >= MaxResults {
        return;
      }
    }
    ConcatDone(results, blocks, total);
  }

  /** Every file the file map names is one of the listing's `.json` files, so it is in `docs`. */
  lemma FileMapReadable(listing: seq<string>, docs: map<string, BookJson>)
    requires forall f :: f in listing && IsJsonFile(f) ==> f in docs
    ensures forall k :: k in FileMap(listing) ==> FileMap(listing)[k] in docs
  {
    forall k | k in FileMap(listing)
      ensures FileMap(listing)[k] in docs
    {
      FileMapValues(listing, k);
    }
  }

  /** What `GET` answers is the sorted first `MaxResults` hits, with the flag telling whether there were more. */
  lemma Answered(results: seq<Hit>, hits: seq<Hit>, sorted: seq<Hit>)
    requires results == Take(hits) && multiset(sorted) == multiset(results)
    ensures (|results| >= MaxResults) == (|hits| >= MaxResults)
    ensures multiset(sorted) == multiset(Take(hits))
  {
  }

  /** `results.sort(cmpResults)`, on a fresh array holding the hits. */
  method SortHits(results: seq<Hit>, order: map<string, nat>) returns (sorted: seq<Hit>)
    ensures multiset(sorted) == multiset(results)
    ensures SortedBy(sorted, HitLe(order))
  {
    var a := new Hit[|results|](i requires 0 <= i < |results| => results[i]);
    assert a[..] == results;
    HitLeIsPreorder(order);
    SortBy(a, HitLe(order));
    sorted := a[..];
  }

  /**
   * `GET`: a blank query answers with no hits and no `truncated` flag;
   * otherwise the first `MaxResults` hits in collection order, sorted by
   * `cmpResults`, and whether the limit was reached. Every `.json` file of
   * the listing is readable and parsed in `docs`.
   */
  method Get(p: Params, manifest: Option<string>, listing: seq<string>, docs: map<string, BookJson>)
    returns (r: Response)
    requires forall f :: f in listing && IsJsonFile(f) ==> f in docs
    ensures SettingsOf(p).q == [] ==> r == Response([], None)
    ensures SettingsOf(p).q != [] ==>
      var hits := BooksHits(ReadBookOrder(manifest, listing), SettingsOf(p), LibraryOf(manifest, listing, docs));
      && r.truncated == Some(|hits| >= MaxResults)
      && multiset(r.results) == multiset(Take(hits))
      && SortedBy(r.results, HitLe(OrderIndex(ReadBookOrder(manifest, listing))))
  {
    var st := SettingsOf(p);
    if st.q == [] {
      return Response([], None);
    }
    var orderedBooks := ReadBookOrder(manifest, listing);
    var fileMap := BuildFileMap(listing);
    var orderIndex := BuildOrderIndex(orderedBooks);
    var lib := Library(orderIndex, fileMap, docs, NtKeys);
    FileMapReadable(listing, docs);
    var results := Collect(orderedBooks, st, lib);
    var truncated := |results| >= MaxResults;
    var sorted := SortHits(results, orderIndex);
    assert lib == LibraryOf(manifest, listing, docs);
    Answered(results, BooksHits(orderedBooks, st, lib), sorted);
    r := Response(sorted, Some(truncated));
  }
}
