/**
 * What the hits of `GET` are: exactly the matching verses of the books the
 * scope keeps and that have a file, one hit per verse in the requested
 * language, and, inside one book file, in ascending chapter order.
 */
module Results {
  import opened Text
  import opened BookKeys
  import opened Query
  import opened Scope
  import opened Search

  /** `h` is the hit `GET` pushes for verse `v`: same verse number, text in the requested language matches, tags stripped from the snippet. */
  predicate FromVerse(h: Hit, v: VerseRow, st: Settings) {
    h.verse == v.verse &&
    match h.where
    case En => st.lang == "en" && MatchText(v.en, st.q, st.mode) && h.snippet == StripTags(v.en)
    case Lv => st.lang == "lv" && MatchText(v.lv, st.q, st.mode) && h.snippet == StripTags(v.lv)
  }

  /** The book survives the scope filters and its key names a parsed file. */
  predicate Kept(name: string, st: Settings, lib: Library) {
    var bk := BookKey(name);
    InScope(bk, st.scope, st.wantedKey, st.fromKey, st.toKey, lib.order, lib.ntKeys)
    && bk in lib.fileMap && lib.fileMap[bk] in lib.docs
  }

  /** The chapters of the file of a kept book. */
  function ChaptersOf(name: string, lib: Library): map<nat, seq<VerseRow>>
    requires BookKey(name) in lib.fileMap && lib.fileMap[BookKey(name)] in lib.docs
  {
    lib.docs[lib.fileMap[BookKey(name)]].chapters
  }

  /** A hit is in the concatenation exactly when it is in one of the blocks. */
  lemma {:induction false} ConcatMember(blocks: seq<seq<Hit>>, h: Hit)
    ensures h in Concat(blocks) <==> exists i :: 0 <= i < |blocks| && h in blocks[i]
    decreases |blocks|
  {
    if blocks != [] {
      ConcatMember(blocks[1..], h);
      if h in Concat(blocks[1..]) {
        var i :| 0 <= i < |blocks[1..]| && h in blocks[1..][i];
        assert h in blocks[i + 1];
      }
      if exists i :: 0 <= i < |blocks| && h in blocks[i] {
        var i :| 0 <= i < |blocks| && h in blocks[i];
        if i > 0 {
          assert h in blocks[1..][i - 1];
        }
      }
    }
  }

  /** The hits of one verse are exactly the hits `FromVerse` describes for its book and chapter. */
  lemma VerseHitsExact(name: string, chapter: nat, v: VerseRow, st: Settings, h: Hit)
    ensures h in VerseHits(name, chapter, v, st) <==> h.book == name && h.chapter == chapter && FromVerse(h, v, st)
  {
    var en := st.lang == "en" && MatchText(v.en, st.q, st.mode);
    var lv := st.lang == "lv" && MatchText(v.lv, st.q, st.mode);
    PairMember(en, lv, Hit(name, chapter, v.verse, StripTags(v.en), En), Hit(name, chapter, v.verse, StripTags(v.lv), Lv), h);
    HitChoice(h, name, chapter, v.verse, st.lang, MatchText(v.en, st.q, st.mode), MatchText(v.lv, st.q, st.mode),
              StripTags(v.en), StripTags(v.lv));
  }

  lemma HitChoice(h: Hit, name: string, chapter: nat, verse: int, lang: string, me: bool, ml: bool, se: string, sl: string)
    ensures ((lang == "en" && me && h == Hit(name, chapter, verse, se, En)) || (lang == "lv" && ml && h == Hit(name, chapter, verse, sl, Lv)))
      <==> h.book == name && h.chapter == chapter && h.verse == verse &&
           match h.where
           case En => lang == "en" && me && h.snippet == se
           case Lv => lang == "lv" && ml && h.snippet == sl
  {
  }

  lemma PairMember(e: bool, l: bool, a: Hit, b: Hit, h: Hit)
    ensures h in (if e then [a] else []) + (if l then [b] else []) <==> (e && h == a) || (l && h == b)
  {
  }

  /** The hits of a chapter are exactly the hits of its matching verses. */
  lemma VersesHitsExact(name: string, chapter: nat, verses: seq<VerseRow>, st: Settings, h: Hit)
    ensures h in VersesHits(name, chapter, verses, st) <==>
      h.book == name && h.chapter == chapter && exists v :: v in verses && FromVerse(h, v, st)
  {
    var blocks := VerseBlocks(name, chapter, verses, st);
    ConcatMember(blocks, h);
    if h in VersesHits(name, chapter, verses, st) {
      var j :| 0 <= j < |blocks| && h in blocks[j];
      VerseHitsExact(name, chapter, verses[j], st, h);
    }
    if h.book == name && h.chapter == chapter && exists v :: v in verses && FromVerse(h, v, st) {
      var v :| v in verses && FromVerse(h, v, st);
      var j :| 0 <= j < |verses| && verses[j] == v;
      VerseHitsExact(name, chapter, v, st, h);
      assert h in blocks[j];
    }
  }

  /** The hits of a book file are exactly the hits of the matching verses of its chapters. */
  lemma FileHitsExact(name: string, chapters: map<nat, seq<VerseRow>>, st: Settings, h: Hit)
    ensures h in FileHits(name, chapters, st) <==>
      h.book == name && h.chapter in chapters && exists v :: v in chapters[h.chapter] && FromVerse(h, v, st)
  {
    var keys := AscendingKeys(chapters.Keys);
    AscendingKeysShape(chapters.Keys);
    var blocks := ChapterBlocks(name, chapters, st);
    ConcatMember(blocks, h);
    if h in FileHits(name, chapters, st) {
      var k :| 0 <= k < |blocks| && h in blocks[k];
      VersesHitsExact(name, keys[k], chapters[keys[k]], st, h);
    }
    if h.book == name && h.chapter in chapters && exists v :: v in chapters[h.chapter] && FromVerse(h, v, st) {
      var k :| 0 <= k < |keys| && keys[k] == h.chapter;
      VersesHitsExact(name, h.chapter, chapters[h.chapter], st, h);
      assert h in blocks[k];
    }
  }

  /** The hits of one book of the list: none unless it is kept, and then the hits of its file. */
  lemma BookHitsExact(name: string, st: Settings, lib: Library, h: Hit)
    ensures h in BookHits(name, st, lib) <==> Kept(name, st, lib) && h in FileHits(name, ChaptersOf(name, lib), st)
  {
  }

  /**
   * Soundness and completeness of the collection: a hit is collected exactly
   * when its book is in the ordered list, survives the scope filters and has a
   * file, and one of the verses of its chapter in that file matches in the
   * requested language.
   */
  lemma BooksHitsExact(books: seq<string>, st: Settings, lib: Library, h: Hit)
    ensures h in BooksHits(books, st, lib) <==>
      h.book in books && Kept(h.book, st, lib) &&
      var chapters := ChaptersOf(h.book, lib);
      h.chapter in chapters && exists v :: v in chapters[h.chapter] && FromVerse(h, v, st)
  {
    var blocks := BookBlocks(books, st, lib);
    ConcatMember(blocks, h);
    if h in BooksHits(books, st, lib) {
      var i :| 0 <= i < |blocks| && h in blocks[i];
      BookHitsExact(books[i], st, lib, h);
      FileHitsExact(books[i], ChaptersOf(books[i], lib), st, h);
    }
    if h.book in books && Kept(h.book, st, lib) {
      var i :| 0 <= i < |books| && books[i] == h.book;
      BookHitsExact(h.book, st, lib, h);
      FileHitsExact(h.book, ChaptersOf(h.book, lib), st, h);
      assert blocks[i] == BookHits(h.book, st, lib);
    }
  }

  /** A language other than `en` and `lv` finds nothing: both `if`s of the verse loop test the language. */
  lemma UnknownLangFindsNothing(books: seq<string>, st: Settings, lib: Library)
    requires st.lang != "en" && st.lang != "lv"
    ensures BooksHits(books, st, lib) == []
  {
    if BooksHits(books, st, lib) != [] {
      var h := BooksHits(books, st, lib)[0];
      BooksHitsExact(books, st, lib, h);
    }
  }

  /** A query of white space only finds nothing, in every mode. */
  lemma BlankQueryFindsNothing(books: seq<string>, st: Settings, lib: Library)
    requires AllWhite(st.q)
    ensures BooksHits(books, st, lib) == []
  {
    if BooksHits(books, st, lib) != [] {
      var h := BooksHits(books, st, lib)[0];
      BooksHitsExact(books, st, lib, h);
      var v :| v in ChaptersOf(h.book, lib)[h.chapter] && FromVerse(h, v, st);
      BlankQueryMatchesNothing(v.en, st.q, st.mode);
      BlankQueryMatchesNothing(v.lv, st.q, st.mode);
    }
  }

  /** Under the `book` scope every hit is in a book whose key is the wanted key. */
  lemma BookScopeHits(books: seq<string>, st: Settings, lib: Library, h: Hit)
    requires st.scope == "book" && h in BooksHits(books, st, lib)
    ensures BookKey(h.book) == st.wantedKey
  {
    BooksHitsExact(books, st, lib, h);
  }

  /** Under the `nt` scope every hit is in a New Testament book, under `ot` in any other. */
  lemma TestamentScopeHits(books: seq<string>, st: Settings, lib: Library, h: Hit)
    requires h in BooksHits(books, st, lib)
    ensures st.scope == "nt" ==> BookKey(h.book) in lib.ntKeys
    ensures st.scope == "ot" ==> BookKey(h.book) !in lib.ntKeys
  {
    BooksHitsExact(books, st, lib, h);
    TestamentsPartition(BookKey(h.book), st.wantedKey, st.fromKey, st.toKey, lib.order, lib.ntKeys);
  }

  /** The hits of a book file come in ascending chapter order: `chapterEntries` is sorted by chapter number. */
  lemma FileHitsChapterOrder(name: string, chapters: map<nat, seq<VerseRow>>, st: Settings)
    ensures forall p, q :: 0 <= p < q < |FileHits(name, chapters, st)| ==>
      FileHits(name, chapters, st)[p].chapter <= FileHits(name, chapters, st)[q].chapter
  {
    var keys := AscendingKeys(chapters.Keys);
    AscendingKeysShape(chapters.Keys);
    var blocks := ChapterBlocks(name, chapters, st);
    forall i: nat, h: Hit | i < |blocks| && h in blocks[i]
      ensures h.chapter == keys[i]
    {
      VersesHitsExact(name, keys[i], chapters[keys[i]], st, h);
    }
    ConcatChapterOrder(blocks, keys);
  }

  /** Blocks whose hits all carry the chapter of their block, for strictly increasing chapters, concatenate in chapter order. */
  lemma {:induction false} ConcatChapterOrder(blocks: seq<seq<Hit>>, keys: seq<nat>)
    requires |blocks| == |keys|
    requires forall i, j :: 0 <= i < j < |keys| ==> keys[i] < keys[j]
    requires forall i: nat, h: Hit :: i < |blocks| && h in blocks[i] ==> h.chapter == keys[i]
    ensures forall h :: h in Concat(blocks) ==> exists i :: 0 <= i < |keys| && h.chapter == keys[i]
    ensures forall p, q :: 0 <= p < q < |Concat(blocks)| ==> Concat(blocks)[p].chapter <= Concat(blocks)[q].chapter
    decreases |blocks|
  {
    if blocks != [] {
      var rest := Concat(blocks[1..]);
      ConcatChapterOrder(blocks[1..], keys[1..]);
      var all := Concat(blocks);
      assert all == blocks[0] + rest;
      forall h: Hit | h in all
        ensures exists i :: 0 <= i < |keys| && h.chapter == keys[i]
      {
        if h in blocks[0] {
          assert h.chapter == keys[0];
        } else {
          assert h in rest;
          var i :| 0 <= i < |keys[1..]| && h.chapter == keys[1..][i];
          assert h.chapter == keys[i + 1];
        }
      }
      forall p, q | 0 <= p < q < |all|
        ensures all[p].chapter <= all[q].chapter
      {
        if q < |blocks[0]| {
          assert all[p] in blocks[0] && all[q] in blocks[0];
        } else if p >= |blocks[0]| {
          assert all[p] == rest[p - |blocks[0]|] && all[q] == rest[q - |blocks[0]|];
        } else {
          assert all[p] in blocks[0];
          assert all[q] == rest[q - |blocks[0]|];
          assert all[q] in rest;
          var i :| 0 <= i < |keys[1..]| && all[q].chapter == keys[1..][i];
          assert keys[0] < keys[i + 1];
        }
      }
    }
  }
}
