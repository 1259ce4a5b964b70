# Search route of the Latvian–English Bible reader, in Dafny

This project models the search engine behind `GET /api/search`
(`app/api/search/route.ts`) and proves properties of it. The route's pieces map to modules as follows:

- **Wrappers**: `Option`.
- **Chars**: the character classes the route relies on:
  - `\s`;
  - `\p{L}` and `\p{N}`;
  - `toLowerCase` on one character;
  - the diacritic fold that NFD decomposition followed by removal of U+0300..U+036F performs.
- **Text**: the string operations:
  - `trim`;
  - `replace(/\s+/g, " ")`;
  - `split(/\s+/)` with its empty pieces dropped;
  - `split("\n")` and `join`;
  - `includes`;
  - `stripTags`.
- **BookKeys**: `bookKey`, the internal comparison form of a book name, and the New Testament key set `NT_KEYS`.
- **Query**: `norm`, `words`, the four matching modes and the dispatcher `matchText`.
- **Catalog**: the manifest parser of `readBookOrder`, the `.json` filter, `buildExistingFilesMap` and the order index that `GET` fills.
- **Scope**: the `book`, `nt`, `ot` and `range` scope filter.
- **Sorting**: the in-place sort `results.sort(...)`.
- **Search**: `cmpResults` and the `GET` handler itself:
  - defaults and trimming of the parameters;
  - the blank-query answer;
  - the book, chapter and verse loops that push hits and stop at 500;
  - the `truncated` flag and the final sort.
- **Results**: what the hits of a search are, stated independently of the loops. A hit is among the hits the route would collect without its 500-hit cap exactly when its book is listed and kept by the scope, its chapter is in the book's file, and some verse of that chapter matches in the requested language. The answer holds the first 500 of them in collection order, sorted. The book, chapter, verse, snippet and language are taken from that verse.

The pure helpers (`bookKey`, `norm`, `words`, the matchers, `cmpResults`) are functions. The parts of the route that work step by step are methods with loops proved against those functions:

- `buildExistingFilesMap` and the `forEach` that fills the order index;
- the nested loops of `GET`, which end when 500 hits are reached;
- the in-place sort on an array.

Every method's contract ties its result to the specification function. `Search.Get` states outright:

- an empty answer without `truncated` for a blank query;
- `truncated` exactly when the hits reach 500;
- the results as a permutation of the first 500 hits in book, chapter and verse order;
- the results sorted by `cmpResults`.

File I/O becomes parameters:

- the manifest text, `None` when it cannot be read;
- the directory listing of the book folder;
- the parsed book files as a map from file name to parsed book.

## Model

| member | source | states |
|---|---|---|
| Chars.Lower | app/api/search/route.ts:69 | lower-casing keeps a character's whitespace, mark and word-character class |
| Chars.BaseLetter | app/api/search/route.ts:70-71 | folding a precomposed letter gives an ASCII letter or the character itself, and keeps whitespace and marks apart |
| Chars.LatvianLower | app/api/search/route.ts:69 | the Latvian capitals Ā Č Ē Ģ Ī Ķ Ļ Ņ Š Ū Ž lower-case to ā č ē ģ ī ķ ļ ņ š ū ž |
| Chars.LatvianSmallFixed | app/api/search/route.ts:69 | the Latvian small letters with diacritics are left alone by lower-casing |
| Chars.LatvianBases | app/api/search/route.ts:70-71 | the NFD fold without marks takes ā č ē ģ ī ķ ļ ņ š ū ž to a c e g i k l n s u z |
| Chars.LatvianFolds | app/api/search/route.ts:69-71 | all 22 Latvian letters with diacritics, small and capital, fold to a c e g i k l n s u z |
| Chars.IrregularCapitals | app/api/search/route.ts:69-71 | Ÿ (U+0178) lower-cases to ÿ and folds to y; İ (U+0130) lower-cases and folds to i |
| Chars.KeyCharFixed | app/api/search/route.ts:69-71 | folding case and diacritics a second time changes nothing |
| Chars.WhiteIsNonWord | app/api/search/route.ts:81 | no `\s` character is a letter, number or apostrophe, so `norm` turns whitespace into spaces |
| Chars.Apostrophe | app/api/search/route.ts:80 | U+2019 never survives the apostrophe step, and whitespace stays whitespace |
| Text.Squash | app/api/search/route.ts:67 | after replacing each separator run by a space, every character is a space or a non-separator of the input, no two separators are adjacent, and the first character is kept or becomes the space |
| Text.Collapse | app/api/search/route.ts:67 | `replace(/\s+/g, " ")` leaves only single plain spaces as whitespace and introduces no other character |
| Text.TrimStart | app/api/search/route.ts:68 | the result is a suffix of the input; everything dropped is whitespace, and it does not start with whitespace |
| Text.TrimEnd | app/api/search/route.ts:68 | the result is a prefix of the input; everything dropped is whitespace, and it does not end with whitespace |
| Text.Trim | app/api/search/route.ts:68 | `trim` leaves no whitespace at either end |
| Text.TrimSlice | app/api/search/route.ts:68 | `trim` returns a contiguous slice of its input |
| Text.TrimEmpty | app/api/search/route.ts:188 | a string trims to empty exactly when it is all whitespace |
| Text.TrimFixed | app/api/search/route.ts:68 | trimming a trimmed string changes nothing |
| Text.CollapseFixed | app/api/search/route.ts:67 | collapsing a string that already has only single spaces changes nothing |
| Text.SquashMap | app/api/search/route.ts:67-69 | collapsing whitespace commutes with a character map that keeps whitespace classes |
| Text.SquashSameClasses | app/api/search/route.ts:67 | strings that differ only in which whitespace character they use collapse alike |
| Text.SquashRun | app/api/search/route.ts:67 | a run of whitespace of any length collapses like a single space |
| Text.LeadingSpaceTrimmed | app/api/search/route.ts:67-68 | collapse-then-trim ignores a leading space |
| Text.TrailingSpaceTrimmed | app/api/search/route.ts:67-68 | collapse-then-trim ignores a trailing space |
| Text.TrimMap | app/api/search/route.ts:68-69 | trimming commutes with a character map that keeps whitespace classes (lower-casing after trimming is trimming after lower-casing) |
| Text.Split | app/api/search/route.ts:86 | `split(/\s+/).filter(Boolean)` gives non-empty pieces without whitespace, and none at all exactly for an all-whitespace string |
| Text.SplitTokensOccur | app/api/search/route.ts:86 | every piece of the split occurs in the string |
| Text.JoinSplit | app/api/search/route.ts:86 | joining the pieces of a single-spaced trimmed string with spaces gives the string back |
| Text.SplitOnJoin | app/api/search/route.ts:132 | joining the pieces of `split` with the separator gives the input back |
| Text.JoinSplitOn | app/api/search/route.ts:132 | splitting a join of separator-free pieces gives the pieces back |
| Text.StripTags | app/api/search/route.ts:44-46 | `stripTags` is no longer than its input, keeps only the input's characters and leaves no tag |
| Text.StripTagsFixed | app/api/search/route.ts:44-46 | stripping tags from tag-free text changes nothing |
| Text.StripTagsNoOpen | app/api/search/route.ts:44-46 | text with no `<` is left unchanged |
| Text.StripTagsNoClose | app/api/search/route.ts:44-46 | text with no `>` is left unchanged, so an unclosed `<` stays |
| Text.StripTagsLeadingTag | app/api/search/route.ts:44-46 | a tag at the start is removed up to and including its first `>` |
| Text.StripTagsPrefix | app/api/search/route.ts:44-46 | text without `<` in front of the rest is kept, and the rest is stripped on its own |
| Text.StripTagsDropsTag | app/api/search/route.ts:44-46 | in `x<t>y` with no `<` in `x` and no `>` in `t`, the tag is removed whole and `x` kept: the result is `x` followed by `y` stripped |
| Text.StripTagsApostrophes | app/api/search/route.ts:78-80 | stripping tags and rewriting U+2019 to `'` give the same result in either order |
| BookKeys.BookKeyAsWrittenNotIdempotent | app/api/search/route.ts:63-73 | the key as the source computes it can end in a space and is then not its own key (see Findings) |
| BookKeys.BookKeyAsWrittenLeadingMark | app/api/search/route.ts:63-73 | a mark that opens the name, before a space, leaves that space at the start of the key as the source computes it: `"\u0304 a"` gives `" a"`, while the corrected key is `"a"` |
| BookKeys.BookKey | app/api/search/route.ts:48-73 | a book key is single-spaced, trimmed and made of case- and diacritic-folded characters only |
| BookKeys.BookKeyIdempotent | app/api/search/route.ts:48-73 | the key of a key is the key |
| BookKeys.BookKeyIgnoresCaseDiacriticsAndSpaceKind | app/api/search/route.ts:48-73 | names that agree position by position up to case, diacritics, combining marks and the kind of whitespace have one key |
| BookKeys.BookKeyIgnoresMarks | app/api/search/route.ts:70-71 | removing every combining mark from a name keeps its key |
| BookKeys.BookKeyWhitespaceRun | app/api/search/route.ts:66-67 | a run of whitespace, including no-break spaces, counts as one space |
| BookKeys.BookKeyIgnoresOuterSpace | app/api/search/route.ts:68 | leading and trailing whitespace do not change the key |
| BookKeys.BookKeySubstitute | app/api/search/route.ts:69-71 | replacing a letter by one with the same folded form keeps the key |
| BookKeys.BookKeyAgreesWithSource | app/api/search/route.ts:63-73 | on names without combining marks the corrected key equals the key as written |
| BookKeys.ThessaloniansSpellingsShareKey | app/api/search/route.ts:27 | "1. Tesaloniķiešiem" and "1. Tesalonikiešiem" have one key |
| BookKeys.JanaSpellingsShareKey | app/api/search/route.ts:63-73 | "Jāņa" and "jana" have one key: capitals and Latvian diacritics are folded away |
| BookKeys.ThessaloniansIsNt | app/api/search/route.ts:27-75 | "1. Tesalonikiešiem" is a New Testament book and its key is in `NT_KEYS` |
| Query.NormShape | app/api/search/route.ts:77-83 | `norm` leaves only letters, numbers, apostrophes and single spaces, with no space at either end |
| Query.WordsShape | app/api/search/route.ts:85-87 | every word is non-empty and made of letters, numbers and apostrophes (so holds no space) |
| Query.NormIsJoinOfWords | app/api/search/route.ts:77-87 | `norm(text)` is the space-join of `words(text)` |
| Query.NormIdempotent | app/api/search/route.ts:77-83 | normalising twice is normalising once |
| Query.WholeImpliesPartial | app/api/search/route.ts:89-103 | a whole-word match is an all-partial match for the same verse and query |
| Query.PartialImpliesAny | app/api/search/route.ts:98-110 | an all-partial match is an any-word match for the same verse and query |
| Query.NoWordsNoWordMatch | app/api/search/route.ts:89-110 | a query without words matches nothing in any word mode |
| Query.PunctuationQueryHasNoWords | app/api/search/route.ts:81-86 | a query of punctuation and whitespace only has no words |
| Query.BlankQueryHasNoPhrase | app/api/search/route.ts:114-115 | an all-whitespace query gives an empty needle |
| Query.BlankQueryMatchesNothing | app/api/search/route.ts:89-124 | an all-whitespace query matches no verse in any mode, including unknown modes |
| Query.ExactPhraseIgnoresQueryCase | app/api/search/route.ts:112-117 | exact-phrase matching does not see the query's case |
| Query.ExactPhraseFindsItself | app/api/search/route.ts:112-117 | a tag-free, non-blank verse matches itself as an exact phrase |
| Query.WordModesFindVerseItself | app/api/search/route.ts:89-110 | a verse with words matches itself in all three word modes |
| Query.OtherModesAreExactPhrase | app/api/search/route.ts:119-124 | every mode other than `allw`, `all` and `any` is exact-phrase matching |
| Query.NormIgnoresRightQuote | app/api/search/route.ts:77-83 | rewriting every U+2019 to `'` before `norm` changes nothing |
| Query.NormSameRewrite | app/api/search/route.ts:77-83 | strings that agree once U+2019 is rewritten have the same `norm` |
| Query.NormRightQuote | app/api/search/route.ts:80 | `norm` gives the same text for U+2019 and `'` at any position |
| Query.WordModesSameVerseNorm | app/api/search/route.ts:89-110 | the word modes see a verse only through `norm`: verses with one `norm` match alike |
| Query.WordModesSameQueryNorm | app/api/search/route.ts:89-110 | the word modes see a query only through `norm`: queries with one `norm` match alike |
| Query.WordModesIgnoreRightQuote | app/api/search/route.ts:89-110 | the three word modes treat U+2019 and `'` alike, in the verse and in the query |
| Query.PartialWordsFindSameNorm | app/api/search/route.ts:98-103 | a verse whose `norm` is the query's own is found by `all` mode unless the query has no words |
| Query.ExactPhraseKeepsRightQuote | app/api/search/route.ts:112-124 | exact phrase tells U+2019 from `'` (the query `'` is found in `'` and not in U+2019), while `all` mode finds it in both |
| Catalog.StripJsonOfJsonName | app/api/search/route.ts:135 | appending `.json` in any ASCII case and removing `/\.json$/i` gives the name back, and a name changes exactly when it ends in such an extension |
| Catalog.JsonFilterMatchesStrip | app/api/search/route.ts:141-155 | the lower-case `.json` filter keeps exactly the names the case-insensitive strip applies to |
| Catalog.DropCr | app/api/search/route.ts:132 | a line loses at most one trailing carriage return |
| Catalog.Lines | app/api/search/route.ts:132 | `split(/\r?\n/)` gives at least one piece, as many as splitting at line feeds does, and no piece holds a line feed |
| Catalog.ManifestEntryOrigin | app/api/search/route.ts:131-135 | the entries are exactly the non-blank lines, trimmed, with the extension removed |
| Catalog.ManifestRoundTrip | app/api/search/route.ts:129-136 | a manifest written one clean name per line parses back to those names |
| Catalog.ManifestKeepsBareExtension | app/api/search/route.ts:133-135 | a line `.json` becomes an empty entry, because the extension is removed after trimming and filtering |
| Catalog.EmptyManifest | app/api/search/route.ts:136 | an empty manifest gives no entries |
| Catalog.ReadBookOrderFallsBack | app/api/search/route.ts:129-145 | an unreadable or entry-less manifest gives the listing's `.json` names |
| Catalog.JsonFilesShape | app/api/search/route.ts:149-151 | the filter keeps exactly the listing's `.json` files |
| Catalog.BuildFileMap | app/api/search/route.ts:148-159 | the loop builds the file map |
| Catalog.FileMapLast | app/api/search/route.ts:153-157 | a key is in the file map exactly when some `.json` file has it, and the last such file wins |
| Catalog.FileMapValues | app/api/search/route.ts:153-157 | every file the map names is a `.json` file of the listing, filed under its own key |
| Catalog.FileMapHasEveryFile | app/api/search/route.ts:154-157 | every `.json` file's key is in the map |
| Catalog.BuildOrderIndex | app/api/search/route.ts:196-197 | the `forEach` builds the order index |
| Catalog.OrderIndexLast | app/api/search/route.ts:196-197 | a key is in the order index exactly when some book has it, and it maps to the last position of such a book |
| Catalog.OrderIndexBelow | app/api/search/route.ts:197 | every position in the order index is a position of the book list |
| Catalog.AssignLastWins | app/api/search/route.ts:153-157 | after `set` for every key in turn, each key holds the value of its last occurrence |
| Scope.BookScopeExact | app/api/search/route.ts:217 | the `book` scope keeps exactly the books whose key is the wanted key |
| Scope.TestamentsPartition | app/api/search/route.ts:218-219 | every book is in exactly one of `nt` and `ot`, and `nt` means its key is in `NT_KEYS` |
| Scope.OtherScopesKeepAll | app/api/search/route.ts:216-231 | any scope other than the four named ones keeps every book |
| Scope.RangeScope | app/api/search/route.ts:221-231 | `range` keeps a book exactly when both ends and the book are in the order index and the book lies between the ends' positions; otherwise nothing is kept |
| Scope.RangeSymmetric | app/api/search/route.ts:221-231 | swapping `from` and `to` keeps the same books |
| Scope.RangeHoldsEnds | app/api/search/route.ts:221-231 | a range keeps both of its endpoints |
| Scope.RangeOfOne | app/api/search/route.ts:221-231 | a range from a key to itself keeps the books at that key's position |
| Scope.SingleBookRange | app/api/search/route.ts:196-231 | with the order index of a book list, a range from a book to itself keeps that book and no other |
| Scope.OrderIndexInjective | app/api/search/route.ts:196-197 | different keys have different positions in the order index |
| Sorting.SortBy | app/api/search/route.ts:274 | sorting leaves the array ordered by the comparator and holding the same elements |
| Sorting.Insert | app/api/search/route.ts:274 | one insertion step extends the sorted prefix by one, keeps the elements, and leaves everything after position `i` as it was |
| Sorting.Swap | app/api/search/route.ts:274 | an exchange of two elements keeps the elements |
| Search.TakeAppend | app/api/search/route.ts:266-270 | once 500 hits are collected, further hits do not change the capped list |
| Search.CmpAntisymmetric | app/api/search/route.ts:161-175 | comparing the other way round negates the result |
| Search.CmpZero | app/api/search/route.ts:161-175 | two hits compare equal exactly when rank, chapter and verse agree |
| Search.CmpTransitive | app/api/search/route.ts:161-175 | "sorts no later than" under `cmpResults` is transitive |
| Search.HitLeIsPreorder | app/api/search/route.ts:161-175 | the comparator is a total preorder, which the sort needs |
| Search.UnknownBooksLast | app/api/search/route.ts:166-168 | a hit whose book has no position (rank `1e9`) sorts after every hit whose book has one |
| Search.VerseHitsAtMostOne | app/api/search/route.ts:246-264 | a verse gives at most one hit, since the language is one of `en` and `lv` |
| Search.CollectVerses | app/api/search/route.ts:245-267 | the verse loop appends a chapter's hits and stops at 500 |
| Search.CollectChapters | app/api/search/route.ts:240-269 | the chapter loop appends a file's hits, chapters in ascending numeric order, and stops at 500 |
| Search.OpenBook | app/api/search/route.ts:214-238 | a book the scope drops or that has no file contributes nothing; otherwise the book's hits are its file's hits |
| Search.CollectBook | app/api/search/route.ts:214-270 | one turn of the book loop appends the book's hits and stops at 500 |
| Search.Collect | app/api/search/route.ts:213-271 | the book loop yields the first 500 hits of the ordered books |
| Search.SortHits | app/api/search/route.ts:274 | the final sort gives a permutation of the results ordered by `cmpResults` |
| Search.Get | app/api/search/route.ts:177-277 | a blank query answers `{results: []}` without `truncated`; otherwise `truncated` holds exactly when the hits reach 500, and the results are the first 500 hits, sorted by `cmpResults` |
| Results.VerseHitsExact | app/api/search/route.ts:246-264 | a verse's hits are exactly the hits for this book, chapter and verse in the requested language, with the tag-stripped text as snippet, when that text matches |
| Results.VersesHitsExact | app/api/search/route.ts:245-267 | a chapter's hits are exactly the hits that come from one of its verses |
| Results.FileHitsExact | app/api/search/route.ts:240-269 | a file's hits are exactly the hits from a verse of one of its chapters |
| Results.BookHitsExact | app/api/search/route.ts:214-238 | a book's hits are its file's hits when the scope keeps it and it has a file, and none otherwise |
| Results.BooksHitsExact | app/api/search/route.ts:213-271 | a hit is found exactly when its book (display name) is listed and kept, its chapter is in the book's file, and a verse of that chapter matches in the requested language |
| Results.UnknownLangFindsNothing | app/api/search/route.ts:246-264 | a language other than `en` and `lv` finds nothing |
| Results.BlankQueryFindsNothing | app/api/search/route.ts:188-264 | an all-whitespace query finds nothing |
| Results.BookScopeHits | app/api/search/route.ts:217 | under the `book` scope every hit's book has the wanted key |
| Results.TestamentScopeHits | app/api/search/route.ts:218-219 | under `nt` every hit's book key is a New Testament key, under `ot` none is |
| Results.FileHitsChapterOrder | app/api/search/route.ts:240-244 | a file's hits come in ascending chapter order |

## Left out

- File-system access, `path`, `JSON.parse`, URL parsing and `NextResponse` are not modelled. The manifest text, the directory listing and the parsed book files are parameters.
- Search.Get: requires every `.json` file of the listing to be in the parsed-file map, although the route reads, and can throw on, only the file its key resolves to for a book the scope keeps, and only until the 500-hit cap. A malformed file of an out-of-scope book, a file shadowed by a later one with the same key, or a file reached only after the cap never makes the route throw, but the model does not cover those inputs. A read or parse failure is not modelled.
- The fallback order of `readBookOrder`, `localeCompare(…, "lv")`, is not modelled: `Catalog.ListingNames` keeps the listing's order. Collation is a foreign library.
- Unicode is covered only in part:
  - `\p{L}`, `\p{N}`, `toLowerCase` and the NFD fold are tables over ASCII, Latin-1 and Latin Extended-A.
  - `\s` is complete.
  - `normalize("NFC")` is not modelled separately. The corrected key removes the marks and folds the precomposed letters of Latin-1 and Latin Extended-A, which gives the same key for decomposed and precomposed spellings of those letters. Precomposed letters outside these tables keep their marks: `ạ` (U+1EA1) and `ǎ` (U+01CE) key to themselves, whereas the route's NFD-then-strip gives `a`.
- Chapter keys are modelled as numbers (`nat`). The source's keys are strings, sorted and compared with `Number(...)`. Not modelled:
  - a non-numeric key, whose number is `NaN`;
  - distinct keys with the same number, such as "1" and "01", which the source keeps apart but a `map<nat, …>` merges into one entry;
  - negative or fractional keys, which have no `nat`;
  - the response's `chapter` field: it is the key string itself (`route.ts` lines 203 and 249), while `Hit.chapter` is its number.
- Search.Get, Search.SortHits: state the results as a permutation of the capped hits sorted by `cmpResults`. They do not state the order of hits that compare equal (duplicate manifest entries of one key, or duplicate verse numbers, give such hits), because the sort is modelled by an insertion sort and the stability of `Array.prototype.sort` is not claimed.
- Sorting.SortBy: does not claim stability, for the same reason.
- The New Testament key set reaches the scope filter through `Library.ntKeys`. `Search.LibraryOf` sets it to `BookKeys.NtKeys`.
- Search.OpenBook: requires every file the file map names to be present in the parsed-file map, since `GET` reads it unconditionally.
- Search.Get, Scope.InScope, Catalog.FileMap, Catalog.OrderIndex: use the corrected key `BookKeys.BookKey` (see Findings), not `bookKey` as written (`BookKeys.BookKeyAsWritten`). The two differ only when removing the combining marks U+0300..U+036F leaves whitespace at either end of the collapsed, trimmed name, or next to other whitespace. That happens when a mark follows whitespace, or when marks open the name and whitespace follows them (`"\u0304 a"` has the written key `" a"`, `BookKeys.BookKeyAsWrittenLeadingMark`). This can happen in a listed book name, in the `book`, `from` or `to` parameter, or in a file name. Example: the parameter `book=a%20%CC%84` ("a", space, combining macron) has the written key `"a "` and does not select the listed book "A", whose key is `"a"`; the corrected key `"a"` selects it. Likewise a file "a ̄.json" is filed under `"a "` as written and under `"a"` here. On names without combining marks the two keys agree (`BookKeys.BookKeyAgreesWithSource`).
- Chars.Lower: maps İ (U+0130) to the single character `i`, whereas `toLowerCase` gives `i` followed by the combining dot U+0307. `bookKey` strips that mark, so keys agree. But `norm` and exact phrase see the extra mark: `norm` turns it into a space, so "İS" becomes the two words "i s" rather than "is", and the exact-phrase text holds the mark. Other characters outside ASCII, Latin-1 and Latin Extended-A are not lower-cased.

Where the route's documented intent and its code differ, the model follows the code:

- An unrecognised `mode` is matched as an exact phrase (`Query.OtherModesAreExactPhrase`).
- `truncated` is true as soon as 500 hits are collected, even when no further hit exists (`Search.Get`).
- An unrecognised `lang` finds nothing (`Results.UnknownLangFindsNothing`).
- A manifest line `.json` gives an empty entry, and `a .json` gives `a ` with a trailing space, because the extension is removed after trimming (`Catalog.ManifestKeepsBareExtension`, `Catalog.ManifestEntryOrigin`).

## Findings

| source | as written | input that shows it | evidently intended | confidence | as-written member | corrected member |
|---|---|---|---|---|---|---|
| app/api/search/route.ts:63-73 | `bookKey` collapses whitespace and trims before it lower-cases and strips the combining marks U+0300..U+036F. Removing the marks can therefore leave whitespace at either end of the key or beside other whitespace: after a mark that follows a space, or when marks open the name before a space (`"\u0304 a"` gives `" a"`). | `"a ̄"` (a, space, combining macron) gives the key `"a "`, whose own key is `"a"`, so `bookKey(bookKey(s)) != bookKey(s)` | a key that is trimmed and single-spaced, so that `bookKey` is idempotent, as its own description of folding whitespace promises | not executed | BookKeys.BookKeyAsWrittenNotIdempotent | BookKeys.BookKeyIdempotent |
