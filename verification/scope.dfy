/**
 * The scope filter `GET` applies to each book of the ordered list before it
 * opens the book's file. Every comparison is between book keys, so the
 * filter is insensitive to case, diacritics and spacing of the names.
 */
module Scope {
  import opened BookKeys
  import opened Catalog

  function Min(a: int, b: int): int {
    if a <= b then a else b
  }

  function Max(a: int, b: int): int {
    if a <= b then b else a
  }

  /**
   * Whether `GET` keeps the book with key `bk` under `scope`. `wantedKey`,
   * `fromKey` and `toKey` are the keys of the `book`, `from` and `to`
   * parameters and `order` is the order index; `ntKeys` is the set of New Testament keys, which
   * `GET` takes from `NtKeys`. A scope other than the four
   * named ones keeps every book.
   */
  predicate InScope(bk: string, scope: string, wantedKey: string, fromKey: string, toKey: string,
                    order: map<string, nat>, ntKeys: set<string>)
  {
    if scope == "book" then bk == wantedKey
    else if scope == "nt" then bk in ntKeys
    else if scope == "ot" then bk !in ntKeys
    else if scope == "range" then
      fromKey in order && toKey in order &&
      var lo := Min(order[fromKey], order[toKey]);
      var hi := Max(order[fromKey], order[toKey]);
      var i := if bk in order then order[bk] as int else -1;
      lo <= i <= hi
    else true
  }

  /** The `book` scope keeps exactly the books whose key is the wanted key. */
  lemma BookScopeExact(bk: string, wantedKey: string, fromKey: string, toKey: string, order: map<string, nat>,
                      ntKeys: set<string>)
    ensures InScope(bk, "book", wantedKey, fromKey, toKey, order, ntKeys) <==> bk == wantedKey
  {
  }

  /** Every book is in exactly one of the `nt` and `ot` scopes. */
  lemma TestamentsPartition(bk: string, wantedKey: string, fromKey: string, toKey: string, order: map<string, nat>,
                      ntKeys: set<string>)
    ensures InScope(bk, "nt", wantedKey, fromKey, toKey, order, ntKeys) != InScope(bk, "ot", wantedKey, fromKey, toKey, order, ntKeys)
    ensures InScope(bk, "nt", wantedKey, fromKey, toKey, order, ntKeys) <==> bk in ntKeys
  {
  }

  /** A scope other than `book`, `nt`, `ot` and `range` filters nothing. */
  lemma OtherScopesKeepAll(bk: string, scope: string, wantedKey: string, fromKey: string, toKey: string,
                           order: map<string, nat>,
                      ntKeys: set<string>)
    requires scope != "book" && scope != "nt" && scope != "ot" && scope != "range"
    ensures InScope(bk, scope, wantedKey, fromKey, toKey, order, ntKeys)
  {
  }

  /**
   * The `range` scope keeps a book exactly when both endpoints and the book
   * itself are in the order index and the book's position lies between the
   * endpoints' positions; a book missing from the index is never in a range.
   */
  lemma RangeScope(bk: string, wantedKey: string, fromKey: string, toKey: string, order: map<string, nat>,
                      ntKeys: set<string>)
    ensures InScope(bk, "range", wantedKey, fromKey, toKey, order, ntKeys) <==>
      fromKey in order && toKey in order && bk in order &&
      ((order[fromKey] <= order[bk] <= order[toKey]) || (order[toKey] <= order[bk] <= order[fromKey]))
  {
  }

  /** Swapping `from` and `to` selects the same books. */
  lemma RangeSymmetric(bk: string, wantedKey: string, fromKey: string, toKey: string, order: map<string, nat>,
                      ntKeys: set<string>)
    ensures InScope(bk, "range", wantedKey, fromKey, toKey, order, ntKeys) == InScope(bk, "range", wantedKey, toKey, fromKey, order, ntKeys)
  {
  }

  /** A range includes both of its endpoints. */
  lemma RangeHoldsEnds(wantedKey: string, fromKey: string, toKey: string, order: map<string, nat>,
                      ntKeys: set<string>)
    requires fromKey in order && toKey in order
    ensures InScope(fromKey, "range", wantedKey, fromKey, toKey, order, ntKeys)
    ensures InScope(toKey, "range", wantedKey, fromKey, toKey, order, ntKeys)
  {
  }

  /** The order index sends different keys to different positions. */
  lemma OrderIndexInjective(books: seq<string>, k1: string, k2: string)
    requires k1 in OrderIndex(books) && k2 in OrderIndex(books)
    requires OrderIndex(books)[k1] == OrderIndex(books)[k2]
    ensures k1 == k2
  {
    OrderIndexLast(books, k1);
    OrderIndexLast(books, k2);
  }

  /** A range whose two ends are the same key keeps the books at that key's position. */
  lemma RangeOfOne(bk: string, wantedKey: string, endKey: string, order: map<string, nat>,
                      ntKeys: set<string>)
    requires endKey in order
    ensures InScope(bk, "range", wantedKey, endKey, endKey, order, ntKeys) <==> bk in order && order[bk] == order[endKey]
  {
  }

  /** With the order index of a book list, a range whose two ends name the same book keeps that book and no other. */
  lemma SingleBookRange(books: seq<string>, bk: string, wantedKey: string, endKey: string, ntKeys: set<string>)
    requires endKey in OrderIndex(books)
    ensures InScope(bk, "range", wantedKey, endKey, endKey, OrderIndex(books), ntKeys) <==> bk == endKey
  {
    var order := OrderIndex(books);
    RangeOfOne(bk, wantedKey, endKey, order, ntKeys);
    if bk in order && order[bk] == order[endKey] {
      OrderIndexInjective(books, bk, endKey);
    }
  }
}
