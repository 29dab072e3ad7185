/**
 * One folder level, listed three ways: in one flat pass, in resumable chunks
 * with a budget, and by draining the chunks.
 */
module Listing {
  import opened Keys
  import opened ObjectStore
  import opened Sequences
  import opened Sorting

  datatype Item = Item(name: string, isDirectory: bool, size: nat, modified: int)

  /** Python's `s[n:]`. */
  function From(s: string, n: nat): string {
    if n <= |s| then s[n..] else []
  }

  /** What a CommonPrefix is called in its folder: no base, no trailing slash. */
  function FolderName(p: Key, base: Key): string {
    RStripSlash(From(p, |base|))
  }

  /** The row a CommonPrefix shows as: none when nothing is left of its name. */
  function FolderRow(p: Key, base: Key): seq<Item> {
    var name := FolderName(p, base);
    if name == [] then [] else [Item(name, true, 0, 0)]
  }

  /** The row a Contents object shows as: none for a marker or the folder itself. */
  function FileRow(o: Obj, base: Key): seq<Item> {
    var name := From(o.key, |base|);
    if IsMarker(o) || name == [] then [] else [Item(name, false, o.size, o.modified)]
  }

  function Row(e: Entry, base: Key): seq<Item> {
    match e
    case Folder(p) => FolderRow(p, base)
    case File(o) => FileRow(o, base)
  }

  function RowsFor(base: Key): Entry -> seq<Item> { e => Row(e, base) }
  function FolderRowsFor(base: Key): Key -> seq<Item> { p => FolderRow(p, base) }
  function FileRowsFor(base: Key): Obj -> seq<Item> { o => FileRow(o, base) }

  /** Every row of a run of entries. */
  function Rows(es: seq<Entry>, base: Key): seq<Item> {
    FlatMap(es, RowsFor(base))
  }

  // ------------------------------------------------- one response, two fields

  function FolderField(): Entry -> seq<Key> { (e: Entry) => if e.Folder? then [e.prefix] else [] }
  function FileField(): Entry -> seq<Obj> { (e: Entry) => if e.File? then [e.obj] else [] }

  /** The response's CommonPrefixes and Contents fields. */
  function CommonPrefixes(page: seq<Entry>): seq<Key> { FlatMap(page, FolderField()) }
  function Contents(page: seq<Entry>): seq<Obj> { FlatMap(page, FileField()) }

  lemma RowsOfPage(page: seq<Entry>, base: Key)
    ensures multiset(Rows(page, base))
         == multiset(FlatMap(CommonPrefixes(page), FolderRowsFor(base))
                     + FlatMap(Contents(page), FileRowsFor(base)))
  {
    forall e | e in page
      ensures multiset(Row(e, base)) == multiset(FlatMap(FolderField()(e), FolderRowsFor(base)))
                                      + multiset(FlatMap(FileField()(e), FileRowsFor(base)))
    {
      if e.Folder? {
        FlatMapOne(e.prefix, FolderRowsFor(base));
      } else {
        FlatMapOne(e.obj, FileRowsFor(base));
      }
    }
    FlatMapSplit(page, RowsFor(base), FolderField(), FolderRowsFor(base), FileField(), FileRowsFor(base));
  }

  // ------------------------------------------------- which rows there are

  /** What an entry of the level under `prefix` looks like. */
  predicate Belongs(e: Entry, prefix: Key) {
    match e
    case Folder(p) => IsChild(p, prefix)
    case File(o) => prefix <= o.key && SLASH !in o.key[|prefix|..]
  }

  lemma LevelBelongs(objs: seq<Obj>, prefix: Key)
    ensures forall e :: e in Level(objs, prefix) ==> Belongs(e, prefix)
  {
    forall e | e in Level(objs, prefix) ensures Belongs(e, prefix) {
      LevelMembers(objs, prefix, e);
      var o :| o in objs && prefix <= o.key && EntryOf(o, prefix) == e;
      EntryShape(o, prefix);
    }
  }

  /** A child folder's row carries exactly the slash-free part of its name. */
  lemma ChildName(p: Key, prefix: Key)
    requires IsChild(p, prefix)
    ensures FolderName(p, prefix) == p[|prefix|..|p| - 1]
    ensures p == prefix + p[|prefix|..|p| - 1] + [SLASH]
  {
    var s := From(p, |prefix|);
    var name := p[|prefix|..|p| - 1];
    assert s == name + [SLASH];
    assert s[..|s| - 1] == name;
    assert RStripSlash(s) == RStripSlash(name);
    assert name != [] ==> name[|name| - 1] in name;
  }

  /** Only two entries can lose their row: the folder's own key, and a folder with an empty name. */
  lemma OthersKeepTheirRow(e: Entry, prefix: Key, base: Key)
    requires Belongs(e, prefix) && base <= prefix
    requires e != Folder(prefix + [SLASH]) && (e.File? ==> e.obj.key != prefix)
    ensures Row(e, base) != []
  {
    match e
    case Folder(p) =>
      ChildName(p, prefix);
      var s := From(p, |base|);
      var name := p[|prefix|..|p| - 1];
      assert s[|prefix| - |base|] == name[0] && name[0] in name;
    case File(o) =>
      var rest := o.key[|prefix|..];
      assert o.key[|o.key| - 1] == rest[|rest| - 1] && rest[|rest| - 1] in rest;
  }

  /** So a level never loses more than two rows. */
  lemma {:induction false} AtMostTwoSkipped(es: seq<Entry>, prefix: Key, base: Key)
    requires SortedEntries(es) && base <= prefix
    requires forall e :: e in es ==> Belongs(e, prefix)
    ensures |Rows(es, base)| <= |es|
    ensures |es| - |Rows(es, base)|
         <= (if Folder(prefix + [SLASH]) in es then 1 else 0)
          + (if exists e :: e in es && e.File? && e.obj.key == prefix then 1 else 0)
  {
    if es != [] {
      hide FlatMap;
      var init, last := es[..|es| - 1], es[|es| - 1];
      AtMostTwoSkipped(init, prefix, base);
      FlatMapLast(es, RowsFor(base));
      assert last in es && forall e :: e in init ==> e in es;
      if last == Folder(prefix + [SLASH]) || (last.File? && last.obj.key == prefix) {
        forall i | 0 <= i < |init| ensures EntryKey(init[i]) != EntryKey(last) {
          LessAsymmetric(EntryKey(es[i]), EntryKey(last));
        }
      } else {
        OthersKeepTheirRow(last, prefix, base);
      }
    }
  }

  lemma SliceSkipsAtMostTwo(es: seq<Entry>, a: nat, b: nat, prefix: Key, base: Key)
    requires a <= b <= |es| && SortedEntries(es) && base <= prefix
    requires forall e :: e in es ==> Belongs(e, prefix)
    ensures b - a - 2 <= |Rows(es[a..b], base)| <= b - a
  {
    AtMostTwoSkipped(es[a..b], prefix, base);
  }

  /** The rows of a whole level, told from the bucket: what a folder view must show. */
  ghost predicate Shows(bucket: map<Key, Meta>, prefix: Key, r: Item) {
    && r.name != [] && SLASH !in r.name
    && if r.isDirectory
       then r.size == 0 && r.modified == 0 && exists k :: k in bucket && prefix + r.name + [SLASH] <= k
       else prefix + r.name in bucket && bucket[prefix + r.name] == Meta(r.size, r.modified)
  }

  lemma ShowsRow(bucket: map<Key, Meta>, prefix: Key, e: Entry, r: Item)
    requires e in Level(Enumerate(bucket), prefix) && r in Row(e, prefix)
    ensures Shows(bucket, prefix, r)
    ensures EntryKey(e) == prefix + r.name + if r.isDirectory then [SLASH] else []
  {
    hide Level, Enumerate, EntryOf, Row, Shows;
    var objs := Enumerate(bucket);
    LevelMembers(objs, prefix, e);
    var o :| o in objs && prefix <= o.key && EntryOf(o, prefix) == e;
    EntryShape(o, prefix);
    if e.Folder? { ShowsFolder(bucket, prefix, e.prefix, o.key, r); } else { ShowsFile(bucket, prefix, o, r); }
  }

  lemma ShowsFolder(bucket: map<Key, Meta>, prefix: Key, p: Key, k: Key, r: Item)
    requires IsChild(p, prefix) && k in bucket && p <= k && r in Row(Folder(p), prefix)
    ensures r.isDirectory && Shows(bucket, prefix, r) && p == prefix + r.name + [SLASH]
  {
    ChildName(p, prefix);
  }

  lemma ShowsFile(bucket: map<Key, Meta>, prefix: Key, o: Obj, r: Item)
    requires o.key in bucket && bucket[o.key] == Meta(o.size, o.modified)
    requires prefix <= o.key && SLASH !in o.key[|prefix|..] && r in Row(File(o), prefix)
    ensures !r.isDirectory && Shows(bucket, prefix, r) && o.key == prefix + r.name
  {
    assert o.key == prefix + o.key[|prefix|..];
  }

  lemma RowShown(bucket: map<Key, Meta>, prefix: Key, r: Item) returns (e: Entry)
    requires Shows(bucket, prefix, r)
    ensures e in Level(Enumerate(bucket), prefix) && Row(e, prefix) == [r]
  {
    hide Level, Enumerate, RStripSlash, SlashAt;
    var objs := Enumerate(bucket);
    if r.isDirectory {
      var p := prefix + r.name + [SLASH];
      var k :| k in bucket && p <= k;
      var o := Obj(k, bucket[k].size, bucket[k].modified);
      assert p[|prefix|..|p| - 1] == r.name;
      ChildOwnsItsKeys(p, o, prefix);
      e := Folder(p);
      LevelMembers(objs, prefix, e);
      ChildName(p, prefix);
    } else {
      var o := Obj(prefix + r.name, r.size, r.modified);
      assert o.key[|prefix|..] == r.name;
      EntryShape(o, prefix);
      e := File(o);
      LevelMembers(objs, prefix, e);
      assert o.key[|o.key| - 1] == r.name[|r.name| - 1] && r.name[|r.name| - 1] in r.name;
    }
  }

  /** One row comes from one entry only. */
  lemma RowNamesItsEntry(bucket: map<Key, Meta>, prefix: Key, i: nat, j: nat, r: Item)
    requires i < j < |Level(Enumerate(bucket), prefix)|
    requires r in Row(Level(Enumerate(bucket), prefix)[i], prefix)
    ensures r !in Row(Level(Enumerate(bucket), prefix)[j], prefix)
  {
    var level := Level(Enumerate(bucket), prefix);
    LevelIsSorted(Enumerate(bucket), prefix);
    LessAsymmetric(EntryKey(level[i]), EntryKey(level[j]));
    if r in Row(level[j], prefix) {
      ShowsRow(bucket, prefix, level[i], r);
      ShowsRow(bucket, prefix, level[j], r);
      assert false;
    }
  }

  lemma {:induction false} RowsOnce(bucket: map<Key, Meta>, prefix: Key, n: nat, r: Item)
    requires n <= |Level(Enumerate(bucket), prefix)|
    ensures multiset(Rows(Level(Enumerate(bucket), prefix)[..n], prefix))[r] <= 1
  {
    hide FlatMap, Row, Level, Enumerate;
    var level := Level(Enumerate(bucket), prefix);
    if n == 0 {
      FlatMapNone(level, RowsFor(prefix));
    } else {
      RowsOnce(bucket, prefix, n - 1, r);
      FlatMapStep(level, n - 1, RowsFor(prefix));
      RowIsShort(level[n - 1], prefix);
      var before := Rows(level[..n - 1], prefix);
      if r in before {
        FlatMapMembers(level[..n - 1], RowsFor(prefix), r);
        var e :| e in level[..n - 1] && r in Row(e, prefix);
        var i :| 0 <= i < n - 1 && level[i] == e;
        RowNamesItsEntry(bucket, prefix, i, n - 1, r);
      } else {
        assert r !in multiset(before);
      }
    }
  }

  lemma RowIsShort(e: Entry, base: Key)
    ensures |Row(e, base)| <= 1
    ensures forall r :: multiset(Row(e, base))[r] <= 1
    ensures forall r :: r in Row(e, base) <==> multiset(Row(e, base))[r] == 1
  {
  }

  /** The rows of a level are exactly the folders and files of that level, each once. */
  lemma LevelRowsAreExact(bucket: map<Key, Meta>, prefix: Key, r: Item)
    ensures r in Rows(Level(Enumerate(bucket), prefix), prefix) <==> Shows(bucket, prefix, r)
    ensures multiset(Rows(Level(Enumerate(bucket), prefix), prefix))[r] <= 1
  {
    hide FlatMap;
    var level := Level(Enumerate(bucket), prefix);
    assert level[..|level|] == level;
    RowsOnce(bucket, prefix, |level|, r);
    FlatMapMembers(level, RowsFor(prefix), r);
    if r in Rows(level, prefix) {
      var e :| e in level && r in Row(e, prefix);
      ShowsRow(bucket, prefix, e, r);
    }
    if Shows(bucket, prefix, r) {
      var e := RowShown(bucket, prefix, r);
    }
  }

  // ------------------------------------------------- display order

  predicate FoldedLessEq(a: Item, b: Item, lower: string -> string) {
    if a.isDirectory == b.isDirectory then LessEq(lower(a.name), lower(b.name)) else a.isDirectory
  }

  lemma FoldedIsPreorder(lower: string -> string)
    ensures TotalPreorder((a: Item, b: Item) => FoldedLessEq(a, b, lower))
  {
    forall a: Item, b: Item ensures FoldedLessEq(a, b, lower) || FoldedLessEq(b, a, lower) {
      LessTotal(lower(a.name), lower(b.name));
    }
    forall a: Item, b: Item, c: Item | FoldedLessEq(a, b, lower) && FoldedLessEq(b, c, lower)
      ensures FoldedLessEq(a, c, lower)
    {
      var x, y, z := lower(a.name), lower(b.name), lower(c.name);
      if Less(x, y) && Less(y, z) { LessTransitive(x, y, z); }
    }
  }

  /** Folders first, then by case-folded name. */
  /** No folder comes after a file, and within each kind folded names ascend. */
  ghost predicate InDisplayOrder(items: seq<Item>, lower: string -> string) {
    && (forall i, j :: 0 <= i < j < |items| && items[j].isDirectory ==> items[i].isDirectory)
    && (forall i, j :: 0 <= i < j < |items| && items[i].isDirectory == items[j].isDirectory ==>
          lower(items[i].name) == lower(items[j].name) || Less(lower(items[i].name), lower(items[j].name)))
  }

  lemma FoldedIsDisplayOrder(items: seq<Item>, lower: string -> string)
    requires SortedBy(items, (a: Item, b: Item) => FoldedLessEq(a, b, lower))
    ensures InDisplayOrder(items, lower)
  {
    hide Less;
    assert forall i, j :: 0 <= i < j < |items| ==> FoldedLessEq(items[i], items[j], lower);
  }

  function DisplaySort(items: seq<Item>, lower: string -> string): (r: seq<Item>)
    ensures multiset(r) == multiset(items)
    ensures InDisplayOrder(r, lower)
  {
    FoldedIsPreorder(lower);
    SortBySorts(items, (a: Item, b: Item) => FoldedLessEq(a, b, lower));
    FoldedIsDisplayOrder(SortBy(items, (a: Item, b: Item) => FoldedLessEq(a, b, lower)), lower);
    SortBy(items, (a: Item, b: Item) => FoldedLessEq(a, b, lower))
  }

  // ------------------------------------------------- the flat listing

  ghost predicate DistinctNames(ps: seq<Key>, prefix: Key) {
    forall i, j :: 0 <= i < j < |ps| ==> FolderName(ps[i], prefix) != FolderName(ps[j], prefix)
  }

  /** No two folders of a level share a display name. */
  lemma FolderNamesDiffer(objs: seq<Obj>, prefix: Key)
    requires SortedKeys(objs)
    ensures DistinctNames(CommonPrefixes(Level(objs, prefix)), prefix)
  {
    var level := Level(objs, prefix);
    var ps := CommonPrefixes(level);
    LevelIsSorted(objs, prefix);
    LevelBelongs(objs, prefix);
    var at := FolderPositions(level);
    forall i, j | 0 <= i < j < |ps|
      ensures FolderName(ps[i], prefix) != FolderName(ps[j], prefix)
    {
      assert level[at[i]] in level && level[at[j]] in level;
      ChildName(ps[i], prefix);
      ChildName(ps[j], prefix);
      LessAsymmetric(EntryKey(level[at[i]]), EntryKey(level[at[j]]));
    }
  }

  /** Where in the level each CommonPrefix stands. */
  lemma {:induction false} FolderPositions(es: seq<Entry>) returns (at: seq<nat>)
    ensures |at| == |CommonPrefixes(es)|
    ensures forall i :: 0 <= i < |at| ==> at[i] < |es| && es[at[i]] == Folder(CommonPrefixes(es)[i])
    ensures forall i, j :: 0 <= i < j < |at| ==> at[i] < at[j]
  {
    if es == [] {
      at := [];
    } else {
      hide FlatMap;
      at := FolderPositions(es[..|es| - 1]);
      FlatMapLast(es, FolderField());
      if es[|es| - 1].Folder? { at := at + [|es| - 1]; }
    }
  }

  /** Every collected name is the name of one of the first `n` folders. */
  ghost predicate NamesOf(directories: set<string>, all: seq<Key>, n: nat, prefix: Key)
    requires n <= |all|
  {
    forall d :: d in directories ==> exists j :: 0 <= j < n && FolderName(all[j], prefix) == d
  }

  lemma NewName(directories: set<string>, all: seq<Key>, n: nat, prefix: Key)
    requires n < |all| && NamesOf(directories, all, n, prefix)
    requires DistinctNames(all, prefix)
    ensures FolderName(all[n], prefix) !in directories
    ensures NamesOf(directories, all, n + 1, prefix)
    ensures NamesOf(directories + {FolderName(all[n], prefix)}, all, n + 1, prefix)
  {
  }

  /** The first inner loop: rows for the page's CommonPrefixes, each folder name once. */
  method AppendFolders(files: seq<Item>, directories: set<string>, ps: seq<Key>, prefix: Key,
                       ghost all: seq<Key>, ghost done: nat)
    returns (files': seq<Item>, directories': set<string>)
    requires done + |ps| <= |all| && all[done..done + |ps|] == ps
    requires DistinctNames(all, prefix)
    requires NamesOf(directories, all, done, prefix)
    ensures files' == files + FlatMap(ps, FolderRowsFor(prefix))
    ensures NamesOf(directories', all, done + |ps|, prefix)
  {
    hide FlatMap, RStripSlash, From;
    FlatMapNone(ps, FolderRowsFor(prefix));
    files', directories' := files, directories;
    var i := 0;
    while i < |ps|
      invariant 0 <= i <= |ps|
      invariant files' == files + FlatMap(ps[..i], FolderRowsFor(prefix))
      invariant NamesOf(directories', all, done + i, prefix)
    {
      var name := FolderName(ps[i], prefix);
      assert ps[i] == all[done + i];
      FlatMapStep(ps, i, FolderRowsFor(prefix));
      NewName(directories', all, done + i, prefix);
      ghost var shown := FlatMap(ps[..i], FolderRowsFor(prefix));
      assert files + (shown + FolderRow(ps[i], prefix)) == (files + shown) + FolderRow(ps[i], prefix);
      if name != [] && name !in directories' {
        directories' := directories' + {name};
        files' := files' + [Item(name, true, 0, 0)];
      }
      i := i + 1;
    }
    FlatMapWhole(ps, FolderRowsFor(prefix));
  }

  /** The second inner loop: rows for the page's Contents. */
  method AppendFiles(files: seq<Item>, os: seq<Obj>, base: Key) returns (files': seq<Item>)
    ensures files' == files + FlatMap(os, FileRowsFor(base))
    ensures (forall f :: f in files ==> !f.isDirectory) ==> forall f :: f in files' ==> !f.isDirectory
  {
    files' := files;
    var i := 0;
    while i < |os|
      invariant 0 <= i <= |os|
      invariant files' == files + FlatMap(os[..i], FileRowsFor(base))
      invariant (forall f :: f in files ==> !f.isDirectory) ==> forall f :: f in files' ==> !f.isDirectory
    {
      FlatMapStep(os, i, FileRowsFor(base));
      ghost var shown := FlatMap(os[..i], FileRowsFor(base));
      assert files + (shown + FileRow(os[i], base)) == (files + shown) + FileRow(os[i], base);
      var name := From(os[i].key, |base|);
      if !IsMarker(os[i]) && name != [] {
        files' := files' + [Item(name, false, os[i].size, os[i].modified)];
      }
      i := i + 1;
    }
    FlatMapWhole(os, FileRowsFor(base));
  }

  method ListObjects(bucket: map<Key, Meta>, prefix: Key, lower: string -> string)
    returns (files: seq<Item>)
    ensures multiset(files) == multiset(Rows(Level(Enumerate(bucket), prefix), prefix))
    ensures forall r :: r in files <==> Shows(bucket, prefix, r)
    ensures forall r :: multiset(files)[r] <= 1
    ensures InDisplayOrder(files, lower)
  {
    hide FlatMap, FolderName, Level, Enumerate, DistinctNames, Row, Shows;
    var level := Level(Enumerate(bucket), prefix);
    ghost var all := CommonPrefixes(level);
    FolderNamesDiffer(Enumerate(bucket), prefix);
    files := [];
    var directories: set<string> := {};
    var token, more := 0, true;
    FlatMapNone(level, FolderField());
    FlatMapNone(level, RowsFor(prefix));
    while more
      invariant token <= |level| && (!more ==> token == |level|)
      invariant multiset(files) == multiset(Rows(level[..token], prefix))
      invariant |CommonPrefixes(level[..token])| <= |all|
      invariant NamesOf(directories, all, |CommonPrefixes(level[..token])|, prefix)
      decreases more, |level| - token
    {
      var page, isTruncated, next := ListPage(level, token, 1000, false);
      ghost var done := |CommonPrefixes(level[..token])|;
      FlatMapWindow(level, token, next, FolderField());
      FlatMapWindow(level, token, next, RowsFor(prefix));
      RowsOfPage(page, prefix);
      files, directories := AppendFolders(files, directories, CommonPrefixes(page), prefix, all, done);
      files := AppendFiles(files, Contents(page), prefix);
      token, more := next, isTruncated;
    }
    FlatMapWhole(level, RowsFor(prefix));
    files := DisplaySort(files, lower);
    ListingIsExact(bucket, prefix, files);
  }

  lemma ListingIsExact(bucket: map<Key, Meta>, prefix: Key, files: seq<Item>)
    requires multiset(files) == multiset(Rows(Level(Enumerate(bucket), prefix), prefix))
    ensures forall r :: r in files <==> Shows(bucket, prefix, r)
    ensures forall r :: multiset(files)[r] <= 1
  {
    hide FlatMap, Level, Shows;
    SameElements(Rows(Level(Enumerate(bucket), prefix), prefix), files);
    forall r ensures (r in files <==> Shows(bucket, prefix, r)) && multiset(files)[r] <= 1 {
      LevelRowsAreExact(bucket, prefix, r);
    }
  }
}
