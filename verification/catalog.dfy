/**
 * The book catalogue of the search route: the manifest parser and the
 * directory-listing fallback of `readBookOrder`, the `.json` file filter,
 * `buildExistingFilesMap` (book key to file name) and the order index that
 * `GET` builds from the ordered book list (book key to position).
 */
module Catalog {
  import opened Wrappers
  import opened Chars
  import opened Text
  import opened BookKeys

  /** `s.endsWith(suffix)`. */
  predicate EndsWith(s: string, suffix: string) {
    |suffix| <= |s| && s[|s| - |suffix|..] == suffix
  }

  /** `c` and `lower` are the same ASCII letter up to case (`lower` is a lower-case ASCII letter). */
  predicate AsciiCaseEq(c: char, lower: char)
    requires 'a' <= lower <= 'z'
  {
    c == lower || c as int == lower as int - 32
  }

  /** `/\.json$/i` matches `f`: it ends in a dot and the letters j, s, o, n in any ASCII case. */
  predicate HasJsonSuffix(f: string) {
    var n := |f|;
    n >= 5 && f[n - 5] == '.' && AsciiCaseEq(f[n - 4], 'j') && AsciiCaseEq(f[n - 3], 's')
    && AsciiCaseEq(f[n - 2], 'o') && AsciiCaseEq(f[n - 1], 'n')
  }

  /** `f.toLowerCase().endsWith(".json")`: the filter both catalogue builders apply to the listing. */
  predicate IsJsonFile(f: string) {
    EndsWith(LowerStr(f), ".json")
  }

  /** `f.replace(/\.json$/i, "")`. */
  function StripJson(f: string): (r: string)
    ensures HasJsonSuffix(f) ==> r + f[|f| - 5..] == f
    ensures !HasJsonSuffix(f) ==> r == f
  {
    if HasJsonSuffix(f) then f[..|f| - 5] else f
  }

  /**
   * Stripping undoes appending a `.json` extension written in any ASCII case,
   * and changes a name exactly when it carries one.
   */
  lemma StripJsonOfJsonName(name: string, ext: string)
    requires |ext| == 5 && HasJsonSuffix(ext)
    ensures HasJsonSuffix(name + ext) && StripJson(name + ext) == name
    ensures StripJson(name) == name <==> !HasJsonSuffix(name)
  {
    var f := name + ext;
    assert f[|f| - 5..] == ext;
    assert f[..|f| - 5] == name;
  }

  /**
   * Lower-casing gives the lower-case ASCII letter `x` exactly for `x` and its
   * upper-case form; `i` is the exception, since U+0130 also lower-cases to it.
   */
  lemma LowerIsAsciiLetter(c: char, x: char)
    requires 'a' <= x <= 'z' && x != 'i'
    ensures Lower(c) == x <==> AsciiCaseEq(c, x)
  {
  }

  /** The lower-case filter and the case-insensitive strip agree: every file kept has its extension removed. */
  lemma JsonFilterMatchesStrip(f: string)
    ensures IsJsonFile(f) <==> HasJsonSuffix(f)
  {
    var l := LowerStr(f);
    var n := |f|;
    if n >= 5 {
      assert l[n - 5..] == [l[n - 5], l[n - 4], l[n - 3], l[n - 2], l[n - 1]];
      LowerIsAsciiLetter(f[n - 4], 'j');
      LowerIsAsciiLetter(f[n - 3], 's');
      LowerIsAsciiLetter(f[n - 2], 'o');
      LowerIsAsciiLetter(f[n - 1], 'n');
      assert Lower(f[n - 5]) == '.' <==> f[n - 5] == '.';
    }
  }

  /** A piece of `split(/\r?\n/)` that ended at a line feed loses the carriage return right before it. */
  function DropCr(s: string): (r: string)
    ensures r == s || (s == r + "\r")
  {
    if s != [] && s[|s| - 1] == '\r' then s[..|s| - 1] else s
  }

  /** `raw.split(/\r?\n/)`: every piece but the last ended at a line feed. */
  function Lines(raw: string): (r: seq<string>)
    ensures |r| == |SplitOn(raw, '\n')| > 0
    ensures forall i :: 0 <= i < |r| ==> '\n' !in r[i]
  {
    var pieces := SplitOn(raw, '\n');
    seq(|pieces|, i requires 0 <= i < |pieces| => if i < |pieces| - 1 then DropCr(pieces[i]) else pieces[i])
  }

  /** `.map(trim).filter(Boolean).map(strip .json)` over the manifest's lines. */
  function ManifestEntries(lines: seq<string>): (r: seq<string>)
    ensures |r| <= |lines|
    decreases |lines|
  {
    if lines == [] then []
    else
      var t := Trim(lines[0]);
      (if t == [] then [] else [StripJson(t)]) + ManifestEntries(lines[1..])
  }

  /** The book list the manifest text gives. */
  function ParseManifest(raw: string): seq<string> {
    ManifestEntries(Lines(raw))
  }

  /** The listing's `.json` files, in listing order. */
  function JsonFiles(listing: seq<string>): seq<string>
    decreases |listing|
  {
    if listing == [] then []
    else (if IsJsonFile(listing[0]) then [listing[0]] else []) + JsonFiles(listing[1..])
  }

  /** The filter keeps exactly the listing's `.json` files. */
  lemma {:induction false} JsonFilesShape(listing: seq<string>)
    ensures forall f :: f in JsonFiles(listing) <==> f in listing && IsJsonFile(f)
    decreases |listing|
  {
    if listing != [] {
      JsonFilesShape(listing[1..]);
      forall f
        ensures f in listing <==> f == listing[0] || f in listing[1..]
      {
        if f in listing {
          var i :| 0 <= i < |listing| && listing[i] == f;
          if i > 0 {
            assert listing[1..][i - 1] == f;
          }
        }
      }
    }
  }

  /** The fallback book list: the `.json` files of the listing without their extension, in listing order. */
  function ListingNames(listing: seq<string>): (r: seq<string>)
    ensures |r| == |JsonFiles(listing)|
    ensures forall i :: 0 <= i < |r| ==> r[i] == StripJson(JsonFiles(listing)[i])
  {
    var files := JsonFiles(listing);
    seq(|files|, i requires 0 <= i < |files| => StripJson(files[i]))
  }

  /** `readBookOrder`: the manifest's entries when it can be read and has any, else the listing's book names. */
  function ReadBookOrder(manifest: Option<string>, listing: seq<string>): seq<string> {
    match manifest
    case Some(raw) =>
      var list := ParseManifest(raw);
      if list != [] then list else ListingNames(listing)
    case None => ListingNames(listing)
  }

  /**
   * The map after `map.set(keys[i], values[i])` for every `i` in order: each key
   * ends up with the value of its LAST occurrence.
   */
  function Assign<V>(keys: seq<string>, values: seq<V>): map<string, V>
    requires |keys| == |values|
    decreases |keys|
  {
    if keys == [] then map[]
    else
      var n := |keys| - 1;
      Assign(keys[..n], values[..n])[keys[n] := values[n]]
  }

  /** The last position of `k` in `keys`. */
  function LastIndexOf(keys: seq<string>, k: string): (p: nat)
    requires k in keys
    ensures p < |keys| && keys[p] == k
    ensures forall j :: p < j < |keys| ==> keys[j] != k
    decreases |keys|
  {
    var n := |keys| - 1;
    if keys[n] == k then n
    else
      assert k in keys[..n] by {
        var i :| 0 <= i < |keys| && keys[i] == k;
        assert keys[..n][i] == k;
      }
      LastIndexOf(keys[..n], k)
  }

  /** `Assign` holds a key exactly when it occurs, with the value at its last occurrence. */
  lemma {:induction false} AssignLastWins<V>(keys: seq<string>, values: seq<V>, k: string)
    requires |keys| == |values|
    ensures k in Assign(keys, values) <==> k in keys
    ensures k in keys ==> Assign(keys, values)[k] == values[LastIndexOf(keys, k)]
    decreases |keys|
  {
    if keys != [] {
      var n := |keys| - 1;
      AssignLastWins(keys[..n], values[..n], k);
      if keys[n] != k {
        if k in keys {
          var i :| 0 <= i < |keys| && keys[i] == k;
          assert keys[..n][i] == keys[i];
        }
        if k in keys[..n] {
          var p := LastIndexOf(keys[..n], k);
          assert values[..n][p] == values[p];
        }
      }
    }
  }

  /** One more `map.set`: the step of the loops that build these maps. */
  lemma AssignSnoc<V>(keys: seq<string>, values: seq<V>, i: nat)
    requires |keys| == |values| && i < |keys|
    ensures Assign(keys[..i + 1], values[..i + 1]) == Assign(keys[..i], values[..i])[keys[i] := values[i]]
  {
    assert keys[..i + 1][..i] == keys[..i] && values[..i + 1][..i] == values[..i];
  }

  /** The loops that build these maps start from the empty prefix and end with the whole list. */
  lemma AssignEnds<V>(keys: seq<string>, values: seq<V>)
    requires |keys| == |values|
    ensures Assign(keys[..0], values[..0]) == map[]
    ensures Assign(keys[..|keys|], values[..|keys|]) == Assign(keys, values)
  {
    assert keys[..|keys|] == keys && values[..|keys|] == values;
  }

  /** The key `buildExistingFilesMap` files a name under. */
  function FileKey(f: string): string {
    BookKey(StripJson(f))
  }

  /** The key of each file of a list. */
  function FileKeys(files: seq<string>): (r: seq<string>)
    ensures |r| == |files|
    ensures forall i :: 0 <= i < |files| ==> r[i] == FileKey(files[i])
  {
    seq(|files|, i requires 0 <= i < |files| => FileKey(files[i]))
  }

  /** `buildExistingFilesMap` on a directory listing: book key to the last `.json` file with that key. */
  function FileMap(listing: seq<string>): map<string, string> {
    var files := JsonFiles(listing);
    Assign(FileKeys(files), files)
  }

  /** One step of `buildExistingFilesMap`'s loop: file `files[i]` is filed under its key. */
  lemma FileMapStep(files: seq<string>, keys: seq<string>, i: nat)
    requires keys == FileKeys(files) && i < |files|
    ensures Assign(keys[..i + 1], files[..i + 1])
      == Assign(keys[..i], files[..i])[BookKey(StripJson(files[i])) := files[i]]
  {
    AssignSnoc(keys, files, i);
  }

  /** `buildExistingFilesMap`'s loop starts from the empty map and ends with the whole map. */
  lemma FileMapEnds(listing: seq<string>, files: seq<string>, keys: seq<string>)
    requires files == JsonFiles(listing) && keys == FileKeys(files)
    ensures Assign(keys[..0], files[..0]) == map[]
    ensures Assign(keys[..|files|], files[..|files|]) == FileMap(listing)
  {
    AssignEnds(keys, files);
  }

  /** The loop of `buildExistingFilesMap`. */
  method BuildFileMap(listing: seq<string>) returns (m: map<string, string>)
    ensures m == FileMap(listing)
  {
    var files := JsonFiles(listing);
    ghost var keys := FileKeys(files);
    FileMapEnds(listing, files, keys);
    m := map[];
    var i := 0;
    while i < |files|
      invariant 0 <= i <= |files|
      invariant m == Assign(keys[..i], files[..i])
    {
      var f := files[i];
      var name := StripJson(f);
      FileMapStep(files, keys, i);
      m := m[BookKey(name) := f];
      i := i + 1;
    }
    assert i == |files|;
  }

  /** The key of each book of a list. */
  function KeysOf(books: seq<string>): (r: seq<string>)
    ensures |r| == |books|
    ensures forall i :: 0 <= i < |books| ==> r[i] == BookKey(books[i])
  {
    seq(|books|, i requires 0 <= i < |books| => BookKey(books[i]))
  }

  function Positions(n: nat): (r: seq<nat>)
    ensures |r| == n && forall i :: 0 <= i < n ==> r[i] == i
  {
    seq(n, i requires 0 <= i < n => i)
  }

  /** `GET`'s order index: book key to the last position of a book with that key. */
  function OrderIndex(books: seq<string>): map<string, nat> {
    Assign(KeysOf(books), Positions(|books|))
  }

  /** The `forEach` that fills `GET`'s order index. */
  method BuildOrderIndex(books: seq<string>) returns (idx: map<string, nat>)
    ensures idx == OrderIndex(books)
  {
    ghost var keys := KeysOf(books);
    ghost var positions := Positions(|books|);
    idx := map[];
    var i := 0;
    while i < |books|
      invariant 0 <= i <= |books|
      invariant idx == Assign(keys[..i], positions[..i])
    {
      AssignSnoc(keys, positions, i);
      assert BookKey(books[i]) == keys[i];
      idx := idx[BookKey(books[i]) := i];
      i := i + 1;
    }
    assert keys[..i] == keys && positions[..i] == positions;
  }

  /** Assigning every key its position: a key present is mapped to its last position. */
  lemma AssignPositions(keys: seq<string>, k: string)
    ensures k in Assign(keys, Positions(|keys|)) <==> k in keys
    ensures k in keys ==> Assign(keys, Positions(|keys|))[k] == LastIndexOf(keys, k)
  {
    AssignLastWins(keys, Positions(|keys|), k);
  }

  /** The order index holds the key of every book, with the last position of a book with that key. */
  lemma OrderIndexLast(books: seq<string>, k: string)
    ensures k in OrderIndex(books) <==> k in KeysOf(books)
    ensures k in OrderIndex(books) ==>
      (var p := LastIndexOf(KeysOf(books), k);
       OrderIndex(books)[k] == p && BookKey(books[p]) == k
       && forall j :: p < j < |books| ==> BookKey(books[j]) != k)
  {
    AssignPositions(KeysOf(books), k);
  }

  /** Every position in the order index is a position of the book list. */
  lemma OrderIndexBelow(books: seq<string>)
    ensures forall k :: k in OrderIndex(books) ==> OrderIndex(books)[k] < |books|
  {
    forall k | k in OrderIndex(books)
      ensures OrderIndex(books)[k] < |books|
    {
      AssignPositions(KeysOf(books), k);
    }
  }

  /** The file map holds the key of every `.json` file, filed under the last file with that key. */
  lemma FileMapLast(listing: seq<string>, k: string)
    ensures k in FileMap(listing) <==> k in FileKeys(JsonFiles(listing))
    ensures k in FileMap(listing) ==>
      (var files := JsonFiles(listing);
       var p := LastIndexOf(FileKeys(files), k);
       FileMap(listing)[k] == files[p] && FileKey(files[p]) == k
       && forall j :: p < j < |files| ==> FileKey(files[j]) != k)
  {
    var files := JsonFiles(listing);
    AssignLastWins(FileKeys(files), files, k);
  }

  /** Every file the map names is a `.json` file of the listing, filed under its own key. */
  lemma FileMapValues(listing: seq<string>, k: string)
    requires k in FileMap(listing)
    ensures var f := FileMap(listing)[k]; f in listing && IsJsonFile(f) && FileKey(f) == k
  {
    var files := JsonFiles(listing);
    FileMapLast(listing, k);
    JsonFilesShape(listing);
    var p := LastIndexOf(FileKeys(files), k);
    assert files[p] in files;
  }

  /** Every `.json` file of the listing has its key in the map. */
  lemma FileMapHasEveryFile(listing: seq<string>, f: string)
    requires f in listing && IsJsonFile(f)
    ensures FileKey(f) in FileMap(listing)
  {
    var files := JsonFiles(listing);
    JsonFilesShape(listing);
    var i :| 0 <= i < |files| && files[i] == f;
    FileMapLast(listing, FileKey(f));
    assert FileKeys(files)[i] == FileKey(f);
  }

  /** Lines joined with line feeds split back into the same lines when none ends in a carriage return. */
  lemma LinesOfJoin(names: seq<string>)
    requires |names| > 0
    requires forall i :: 0 <= i < |names| ==> '\n' !in names[i] && DropCr(names[i]) == names[i]
    ensures Lines(Join(names, "\n")) == names
  {
    JoinSplitOn(names, '\n');
  }

  /** A well-formed book list written one name per line parses back to itself. */
  lemma ManifestRoundTrip(names: seq<string>)
    requires forall i :: 0 <= i < |names| ==>
      names[i] != [] && Trimmed(names[i]) && '\n' !in names[i] && !HasJsonSuffix(names[i])
    ensures ParseManifest(Join(names, "\n")) == names
  {
    if names == [] {
      EmptyManifest();
    } else {
      TrimmedEndsWithoutCr(names);
      LinesOfJoin(names);
      CleanEntries(names);
    }
  }

  /** An empty manifest has no entries. */
  lemma EmptyManifest()
    ensures ParseManifest("") == []
  {
    LinesOfJoin([""]);
    OneLineEntries("");
  }

  lemma TrimmedEndsWithoutCr(names: seq<string>)
    requires forall i :: 0 <= i < |names| ==> Trimmed(names[i])
    ensures forall i :: 0 <= i < |names| ==> DropCr(names[i]) == names[i]
  {
    forall i | 0 <= i < |names|
      ensures DropCr(names[i]) == names[i]
    {
      if names[i] != [] {
        assert !IsWhite(names[i][|names[i]| - 1]);
      }
    }
  }

  lemma {:induction false} CleanEntries(names: seq<string>)
    requires forall i :: 0 <= i < |names| ==>
      names[i] != [] && Trimmed(names[i]) && !HasJsonSuffix(names[i])
    ensures ManifestEntries(names) == names
    decreases |names|
  {
    if names != [] {
      TrimFixed(names[0]);
      CleanEntries(names[1..]);
    }
  }

  /** A manifest line that is only an extension becomes an empty entry, which no book key matches usefully. */
  lemma ManifestKeepsBareExtension()
    ensures ParseManifest(".json") == [""]
  {
    LinesOfJoin([".json"]);
    assert Join([".json"], "\n") == ".json";
    BareExtensionEntry();
  }

  lemma BareExtensionEntry()
    ensures ManifestEntries([".json"]) == [""]
  {
    OneLineEntries(".json");
    TrimFixed(".json");
  }

  /** The entries of a single line: the line trimmed and without extension, unless it is blank. */
  lemma OneLineEntries(line: string)
    ensures ManifestEntries([line]) == (if Trim(line) == [] then [] else [StripJson(Trim(line))])
  {
    assert [line][1..] == [];
  }

  /**
   * The entries are exactly the non-blank lines, trimmed and without their
   * extension. Stripping comes after trimming, so an entry can be empty
   * (`.json`) or end in whitespace (`a .json`).
   */
  lemma ManifestEntryOrigin(lines: seq<string>, e: string)
    ensures e in ManifestEntries(lines) <==>
      exists j :: 0 <= j < |lines| && Trim(lines[j]) != [] && e == StripJson(Trim(lines[j]))
  {
    EntryFromSomeLine(lines, e);
    forall j | 0 <= j < |lines|
      ensures e in LineEntry(lines[j]) <==> Trim(lines[j]) != [] && e == StripJson(Trim(lines[j]))
    {
      LineEntryMember(lines[j], e);
    }
  }

  lemma LineEntryMember(line: string, e: string)
    ensures e in LineEntry(line) <==> Trim(line) != [] && e == StripJson(Trim(line))
  {
  }

  /** What one manifest line contributes. */
  function LineEntry(line: string): seq<string> {
    var t := Trim(line);
    if t == [] then [] else [StripJson(t)]
  }

  lemma ManifestStep(lines: seq<string>)
    requires lines != []
    ensures ManifestEntries(lines) == LineEntry(lines[0]) + ManifestEntries(lines[1..])
  {
  }

  /** What line `j` contributes is among the entries. */
  lemma {:induction false} LineToEntry(lines: seq<string>, j: nat, e: string)
    requires j < |lines| && e in LineEntry(lines[j])
    ensures e in ManifestEntries(lines)
    decreases j
  {
    ManifestStep(lines);
    if j > 0 {
      assert lines[1..][j - 1] == lines[j];
      LineToEntry(lines[1..], j - 1, e);
    }
  }

  /** Every entry comes from some line. */
  lemma {:induction false} EntryToLine(lines: seq<string>, e: string)
    requires e in ManifestEntries(lines)
    ensures exists j :: 0 <= j < |lines| && e in LineEntry(lines[j])
    decreases |lines|
  {
    ManifestStep(lines);
    if e !in LineEntry(lines[0]) {
      var rest := lines[1..];
      EntryToLine(rest, e);
      var k :| 0 <= k < |rest| && e in LineEntry(rest[k]);
      assert lines[k + 1] == rest[k];
    }
  }

  lemma EntryFromSomeLine(lines: seq<string>, e: string)
    ensures e in ManifestEntries(lines) <==> exists j :: 0 <= j < |lines| && e in LineEntry(lines[j])
  {
    if e in ManifestEntries(lines) {
      EntryToLine(lines, e);
    }
    if j :| 0 <= j < |lines| && e in LineEntry(lines[j]) {
      LineToEntry(lines, j, e);
    }
  }

  /** An unreadable manifest, or one with no entries, falls back to the listing's book names. */
  lemma ReadBookOrderFallsBack(manifest: Option<string>, listing: seq<string>)
    requires manifest.None? || ParseManifest(manifest.value) == []
    ensures ReadBookOrder(manifest, listing) == ListingNames(listing)
  {
  }
}
