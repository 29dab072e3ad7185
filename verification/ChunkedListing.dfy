/**
 * The budgeted, resumable listing behind "Load more": each call returns one
 * chunk of the level and a token; following the tokens drains the level.
 */
module ChunkedListing {
  import opened Keys
  import opened ObjectStore
  import opened Sequences
  import opened Sorting
  import opened Listing

  const S3_PAGE_SIZE := 1000
  const MAX_CLIENT_LOAD := 200_000

  function Clamp(x: int, low: int, high: int): int {
    if x < low then low else if x > high then high else x
  }

  function Budget(maxClientLoad: int): (b: nat)
    ensures 1 <= b <= MAX_CLIENT_LOAD
    ensures 1 <= maxClientLoad <= 200_000 ==> b == maxClientLoad
    ensures maxClientLoad < 1 ==> b == 1
    ensures 200_000 < maxClientLoad ==> b == 200_000
  {
    Clamp(maxClientLoad, 1, MAX_CLIENT_LOAD)
  }

  predicate ByName(a: Item, b: Item, lower: string -> string) {
    LessEq(lower(a.name), lower(b.name))
  }

  /** The first inner loop of a chunk: rows for the page's CommonPrefixes. */
  method AppendChunkFolders(directories: seq<Item>, ps: seq<Key>, base: Key) returns (directories': seq<Item>)
    ensures directories' == directories + FlatMap(ps, FolderRowsFor(base))
    ensures (forall d :: d in directories ==> d.isDirectory) ==> forall d :: d in directories' ==> d.isDirectory
  {
    hide FlatMap;
    directories' := directories;
    var i := 0;
    FlatMapNone(ps, FolderRowsFor(base));
    while i < |ps|
      invariant 0 <= i <= |ps|
      invariant directories' == directories + FlatMap(ps[..i], FolderRowsFor(base))
      invariant (forall d :: d in directories ==> d.isDirectory) ==> forall d :: d in directories' ==> d.isDirectory
    {
      FlatMapStep(ps, i, FolderRowsFor(base));
      ghost var shown := FlatMap(ps[..i], FolderRowsFor(base));
      assert directories + (shown + FolderRow(ps[i], base)) == (directories + shown) + FolderRow(ps[i], base);
      var name := FolderName(ps[i], base);
      if name != [] {
        directories' := directories' + [Item(name, true, 0, 0)];
      }
      i := i + 1;
    }
    FlatMapWhole(ps, FolderRowsFor(base));
  }

  /** Folders with the folders and files with the files. */
  ghost predicate EachInItsList(directories: seq<Item>, files: seq<Item>) {
    (forall d :: d in directories ==> d.isDirectory) && (forall f :: f in files ==> !f.isDirectory)
  }

  /** One round trip of a chunk: a page no larger than the remaining budget, turned into rows. */
  method LoadPage(level: seq<Entry>, base: Key, token: nat, remaining: nat, full: bool,
                  directories: seq<Item>, files: seq<Item>)
    returns (directories': seq<Item>, files': seq<Item>, isTruncated: bool, resume: nat)
    requires token <= |level| && 1 <= remaining
    ensures token <= resume <= |level| && resume <= token + Min(S3_PAGE_SIZE, remaining)
    ensures isTruncated <==> resume < |level|
    ensures token < |level| ==> token < resume
    ensures full ==> resume == Min(token + Min(S3_PAGE_SIZE, remaining), |level|)
    ensures multiset(directories' + files')
         == multiset(directories + files) + multiset(Rows(level[token..resume], base))
    ensures |directories'| + |files'| == |directories| + |files| + |Rows(level[token..resume], base)|
    ensures EachInItsList(directories, files) ==> EachInItsList(directories', files')
  {
    hide FlatMap;
    var page;
    page, isTruncated, resume := ListPage(level, token, Min(S3_PAGE_SIZE, remaining), full);
    RowsOfPage(page, base);
    ghost var rows := FlatMap(CommonPrefixes(page), FolderRowsFor(base)) + FlatMap(Contents(page), FileRowsFor(base));
    SameElements(Rows(page, base), rows);
    directories' := AppendChunkFolders(directories, CommonPrefixes(page), base);
    files' := AppendFiles(files, Contents(page), base);
  }

  /** What a chunk under construction has seen: the rows of level[start..token]. */
  ghost predicate Holds(level: seq<Entry>, base: Key, start: nat, token: nat,
                        directories: seq<Item>, files: seq<Item>) {
    && start <= token <= |level|
    && multiset(directories + files) == multiset(Rows(level[start..token], base))
    && token - start - 2 <= |directories| + |files| <= token - start
  }

  lemma HoldsNothing(level: seq<Entry>, base: Key, start: nat)
    requires start <= |level|
    ensures Holds(level, base, start, start, [], [])
  {
    hide FlatMap;
    FlatMapNone(level[start..], RowsFor(base));
    assert level[start..start] == level[start..][..0];
  }

  lemma HoldsMore(level: seq<Entry>, prefix: Key, base: Key, start: nat, token: nat, resume: nat,
                  directories: seq<Item>, files: seq<Item>, directories': seq<Item>, files': seq<Item>)
    requires SortedEntries(level) && base <= prefix && forall e :: e in level ==> Belongs(e, prefix)
    requires Holds(level, base, start, token, directories, files) && token <= resume <= |level|
    requires multiset(directories' + files')
          == multiset(directories + files) + multiset(Rows(level[token..resume], base))
    ensures Holds(level, base, start, resume, directories', files')
    ensures |Rows(level[token..resume], base)| <= resume - token
  {
    hide FlatMap;
    SliceSkipsAtMostTwo(level, token, resume, prefix, base);
    FlatMapSlice(level, start, token, resume, RowsFor(base));
    SliceSkipsAtMostTwo(level, start, resume, prefix, base);
    SameElements(Rows(level[start..resume], base), directories' + files');
  }

  /**
   * One chunk.  `start` is where the token points (0 when there is none).  The
   * chunk is the rows of the entries from `start` to the next token.
   */
  method LoadChunk(bucket: map<Key, Meta>, base: Key, namePrefix: string, maxClientLoad: int,
                   start: nat, full: bool, lower: string -> string)
    returns (directories: seq<Item>, files: seq<Item>, truncated: bool, next: nat, ghost pages: nat)
    requires start <= |Level(Enumerate(bucket), base + namePrefix)|
    ensures start <= next <= |Level(Enumerate(bucket), base + namePrefix)|
    ensures multiset(directories + files)
         == multiset(Rows(Level(Enumerate(bucket), base + namePrefix)[start..next], base))
    ensures |directories| + |files| <= Budget(maxClientLoad)
    ensures next - start - 2 <= |directories| + |files|
    ensures truncated <==> next < |Level(Enumerate(bucket), base + namePrefix)|
    ensures truncated ==> start < next
    ensures full && truncated ==> |directories| + |files| == Budget(maxClientLoad)
    ensures pages <= Budget(maxClientLoad) / 1000 + 8
    ensures EachInItsList(directories, files)
    ensures InNameOrder(directories, lower) && InNameOrder(files, lower)
  {
    hide FlatMap, Level;
    var level := Level(Enumerate(bucket), base + namePrefix);
    LevelIsSorted(Enumerate(bucket), base + namePrefix);
    LevelBelongs(Enumerate(bucket), base + namePrefix);
    var budget := Budget(maxClientLoad);
    directories, files, truncated, next := [], [], false, start;
    var token: nat := start;
    var maxPages := budget / 1000 + 8;
    var pagesRead := 0;
    pages := 0;
    HoldsNothing(level, base, start);
    while |directories| + |files| < budget && pagesRead < maxPages
      invariant pages == pagesRead && EachInItsList(directories, files)
      invariant Holds(level, base, start, token, directories, files)
      invariant pages == 0 || start < token < |level|
      invariant |directories| + |files| < budget && pagesRead < maxPages
      invariant pages == pagesRead && EachInItsList(directories, files)
      invariant full ==> 1000 * (pages - (token - start - |directories| - |files|)) <= token - start
      decreases maxPages - pages
    {
      pagesRead := pagesRead + 1;
      pages := pagesRead;
      var remaining := budget - (|directories| + |files|);
      var directories', files', isTruncated, resume :=
        LoadPage(level, base, token, remaining, full, directories, files);
      HoldsMore(level, base + namePrefix, base, start, token, resume, directories, files, directories', files');
      directories, files, token, next := directories', files', resume, resume;
      if isTruncated {
        if |directories| + |files| >= budget || pagesRead >= maxPages {
          truncated := true;
          break;
        }
      } else {
        truncated := false;
        break;
      }
    }
    directories, files := SortChunk(directories, files, lower);
  }

  /** Folded names ascend. */
  ghost predicate InNameOrder(items: seq<Item>, lower: string -> string) {
    forall i, j :: 0 <= i < j < |items| ==>
      lower(items[i].name) == lower(items[j].name) || Less(lower(items[i].name), lower(items[j].name))
  }

  method SortChunk(directories: seq<Item>, files: seq<Item>, lower: string -> string)
    returns (directories': seq<Item>, files': seq<Item>)
    ensures multiset(directories' + files') == multiset(directories + files)
    ensures |directories'| == |directories| && |files'| == |files|
    ensures EachInItsList(directories, files) ==> EachInItsList(directories', files')
    ensures InNameOrder(directories', lower) && InNameOrder(files', lower)
  {
    hide Less;
    ByNameIsPreorder(lower);
    SameElements(directories, SortBy(directories, (a: Item, b: Item) => ByName(a, b, lower)));
    SameElements(files, SortBy(files, (a: Item, b: Item) => ByName(a, b, lower)));
    SortBySorts(directories, (a: Item, b: Item) => ByName(a, b, lower));
    SortBySorts(files, (a: Item, b: Item) => ByName(a, b, lower));
    directories' := SortBy(directories, (a: Item, b: Item) => ByName(a, b, lower));
    files' := SortBy(files, (a: Item, b: Item) => ByName(a, b, lower));
  }

  lemma ByNameIsPreorder(lower: string -> string)
    ensures TotalPreorder((a: Item, b: Item) => ByName(a, b, lower))
  {
    forall a: Item, b: Item ensures ByName(a, b, lower) || ByName(b, a, lower) {
      LessTotal(lower(a.name), lower(b.name));
    }
    forall a: Item, b: Item, c: Item | ByName(a, b, lower) && ByName(b, c, lower)
      ensures ByName(a, c, lower)
    {
      var x, y, z := lower(a.name), lower(b.name), lower(c.name);
      if Less(x, y) && Less(y, z) { LessTransitive(x, y, z); }
    }
  }

  // ------------------------------------------------- searching by name prefix

  lemma {:induction false} SlashAtSkips(s: string, a: nat, b: nat)
    requires a <= b <= |s| && SLASH !in s[a..b]
    ensures SlashAt(s, a) == SlashAt(s, b)
    decreases b - a
  {
    if a < b {
      assert s[a] == s[a..b][0];
      assert forall c :: c in s[a + 1..b] ==> c in s[a..b];
      SlashAtSkips(s, a + 1, b);
    }
  }

  /** Searching inside a folder groups a matching object as the folder does. */
  lemma MatchIsGroupedAlike(o: Obj, base: Key, namePrefix: string)
    requires base + namePrefix <= o.key && SLASH !in namePrefix
    ensures base <= o.key && EntryOf(o, base + namePrefix) == EntryOf(o, base)
    ensures base + namePrefix <= EntryKey(EntryOf(o, base))
  {
    var a, b := |base|, |base + namePrefix|;
    assert o.key[a..b] == namePrefix;
    SlashAtSkips(o.key, a, b);
  }

  /** The entries whose key starts with `q`. */
  function Matching(es: seq<Entry>, q: Key): seq<Entry> {
    if es == [] then [] else
      var rest := Matching(es[1..], q);
      if q <= EntryKey(es[0]) then [es[0]] + rest else rest
  }

  lemma {:induction false} MatchingIsPart(es: seq<Entry>, q: Key)
    ensures forall e :: e in Matching(es, q) ==> e in es
  {
    if es != [] { MatchingIsPart(es[1..], q); }
  }

  /** The level S3 lists for a search is the folder's level, matching entries only. */
  lemma {:induction false} SearchedLevel(objs: seq<Obj>, base: Key, namePrefix: string)
    requires SortedKeys(objs) && SLASH !in namePrefix
    ensures Level(objs, base + namePrefix) == Matching(Level(objs, base), base + namePrefix)
  {
    if objs != [] {
      var o, q := objs[0], base + namePrefix;
      SearchedLevel(objs[1..], base, namePrefix);
      LevelIsSorted(objs, base);
      var rest := Level(objs[1..], base);
      MatchingIsPart(rest, q);
      hide EntryOf, SlashAt;
      if q <= o.key {
        MatchIsGroupedAlike(o, base, namePrefix);
        HeadIsFirst(Level(objs, base));
      } else if base <= o.key {
        EntryShape(o, base);
        assert !(q <= EntryKey(EntryOf(o, base)));
      }
    }
  }

  lemma HeadIsFirst(es: seq<Entry>)
    requires SortedEntries(es) && es != []
    ensures es[0] !in es[1..]
  {
    forall i | 1 <= i < |es| ensures es[i] != es[0] { LessAsymmetric(EntryKey(es[0]), EntryKey(es[i])); }
  }

  lemma PrefixPastBase(base: string, a: string, b: string)
    ensures base + a <= base + b <==> a <= b
  {
    assert forall n :: 0 <= n <= |b| ==> (base + b)[..|base| + n] == base + b[..n];
    assert base + a <= base + b ==> |a| <= |b| && base + b[..|a|] == base + a;
    assert |a| <= |b| ==> (base + b[..|a|])[|base|..] == b[..|a|] && (base + a)[|base|..] == a;
  }

  lemma SlashFreePrefix(a: string, name: string)
    requires SLASH !in a
    ensures a <= name + [SLASH] <==> a <= name
  {
    assert a != [] ==> a[|a| - 1] in a;
    assert forall n :: 0 <= n <= |name| ==> (name + [SLASH])[..n] == name[..n];
  }

  lemma MatchingFolder(p: Key, base: Key, namePrefix: string, r: Item)
    requires IsChild(p, base) && SLASH !in namePrefix && r in Row(Folder(p), base)
    ensures base + namePrefix <= p <==> namePrefix <= r.name
  {
    hide RStripSlash, From, IsChild;
    ChildName(p, base);
    hide FolderName;
    PrefixPastBase(base, namePrefix, r.name + [SLASH]);
    SlashFreePrefix(namePrefix, r.name);
    assert p == base + (r.name + [SLASH]);
  }

  lemma MatchingFile(o: Obj, base: Key, namePrefix: string, r: Item)
    requires base <= o.key && r in Row(File(o), base)
    ensures base + namePrefix <= o.key <==> namePrefix <= r.name
  {
    PrefixPastBase(base, namePrefix, r.name);
    assert o.key == base + r.name;
  }

  /** A row's name starts with the search term exactly when its entry's key does. */
  lemma MatchingRow(e: Entry, base: Key, namePrefix: string, r: Item)
    requires Belongs(e, base) && SLASH !in namePrefix && r in Row(e, base)
    ensures base + namePrefix <= EntryKey(e) <==> namePrefix <= r.name
  {
    hide Row, IsChild;
    match e
    case Folder(p) => MatchingFolder(p, base, namePrefix, r);
    case File(o) => MatchingFile(o, base, namePrefix, r);
  }

  lemma {:induction false} MatchingRows(es: seq<Entry>, base: Key, namePrefix: string, r: Item)
    requires SLASH !in namePrefix && forall e :: e in es ==> Belongs(e, base)
    ensures multiset(Rows(Matching(es, base + namePrefix), base))[r]
         == if namePrefix <= r.name then multiset(Rows(es, base))[r] else 0
  {
    if es != [] {
      hide Belongs, Row;
      assert es[0] in es;
      assert forall e :: e in es[1..] ==> e in es;
      MatchingRows(es[1..], base, namePrefix, r);
      RowIsShort(es[0], base);
      if r in Row(es[0], base) { MatchingRow(es[0], base, namePrefix, r); }
    }
  }

  /** A search shows what the folder shows, restricted to names that start with the term. */
  lemma SearchIsExact(bucket: map<Key, Meta>, base: Key, namePrefix: string, r: Item)
    requires SLASH !in namePrefix
    ensures multiset(Rows(Level(Enumerate(bucket), base + namePrefix), base))[r]
         == if Shows(bucket, base, r) && namePrefix <= r.name then 1 else 0
  {
    hide FlatMap, Level, Enumerate, Shows;
    SearchedLevel(Enumerate(bucket), base, namePrefix);
    LevelBelongs(Enumerate(bucket), base);
    var level := Level(Enumerate(bucket), base);
    MatchingRows(level, base, namePrefix, r);
    LevelRowsAreExact(bucket, base, r);
    assert r in Rows(level, base) <==> r in multiset(Rows(level, base));
  }

  // ------------------------------------------------- search terms with a slash

  /** The folder a search term points into: the term up to and with its last slash. */
  function SearchFolder(namePrefix: string): (r: string)
    ensures r <= namePrefix && SLASH !in namePrefix[|r|..]
    ensures r == namePrefix <==> namePrefix == [] || namePrefix[|namePrefix| - 1] == SLASH
  {
    if namePrefix == [] || namePrefix[|namePrefix| - 1] == SLASH then namePrefix else
      var r := SearchFolder(namePrefix[..|namePrefix| - 1]);
      assert namePrefix[|r|..] == namePrefix[..|namePrefix| - 1][|r|..] + [namePrefix[|namePrefix| - 1]];
      r
  }

  /** The row with the folder `dir` taken off its name. */
  function Below(r: Item, dir: string): Item
    requires dir <= r.name
  {
    r.(name := r.name[|dir|..])
  }

  lemma StripOneSlash(s: string)
    requires s != [] && s[|s| - 1] != SLASH
    ensures RStripSlash(s + [SLASH]) == s
  {
    assert (s + [SLASH])[..|s|] == s;
  }

  lemma LongerFolderName(p: Key, base: Key, dir: string)
    requires IsChild(p, base + dir) && FolderName(p, base + dir) != []
    ensures FolderName(p, base) == dir + FolderName(p, base + dir)
  {
    ChildName(p, base + dir);
    var n := p[|base + dir|..|p| - 1];
    assert n[|n| - 1] in n;
    assert From(p, |base|) == dir + n + [SLASH];
    StripOneSlash(dir + n);
  }

  lemma LongerFolderRow(p: Key, base: Key, dir: string, r: Item)
    requires IsChild(p, base + dir) && p != base + dir + [SLASH]
    ensures r in FolderRow(p, base) <==> dir <= r.name && Below(r, dir) in FolderRow(p, base + dir)
  {
    ChildName(p, base + dir);
    LongerFolderName(p, base, dir);
    hide FolderName, IsChild;
    SameName(r.name, dir, FolderName(p, base + dir));
  }

  lemma LongerFileRow(o: Obj, base: Key, dir: string, r: Item)
    requires base + dir <= o.key && o.key != base + dir
    ensures r in FileRow(o, base) <==> dir <= r.name && Below(r, dir) in FileRow(o, base + dir)
  {
    hide IsMarker;
    var n := o.key[|base + dir|..];
    assert o.key == base + (dir + n);
    assert From(o.key, |base|) == dir + n && From(o.key, |base + dir|) == n && n != [];
    hide From;
    SameName(r.name, dir, n);
  }

  /** An entry further down shows the same row, its name the longer by the folder between. */
  lemma LongerRow(e: Entry, base: Key, dir: string, r: Item)
    requires Belongs(e, base + dir) && EntryKey(e) != base + dir && EntryKey(e) != base + dir + [SLASH]
    ensures r in Row(e, base) <==> dir <= r.name && Below(r, dir) in Row(e, base + dir)
  {
    hide FolderRow, FileRow, IsChild, Below;
    match e
    case Folder(p) => LongerFolderRow(p, base, dir, r);
    case File(o) => LongerFileRow(o, base, dir, r);
  }

  lemma SameName(name: string, dir: string, n: string)
    ensures name == dir + n <==> dir <= name && name[|dir|..] == n
  {
    assert dir <= name ==> name == dir + name[|dir|..];
  }

  lemma {:induction false} LongerRows(es: seq<Entry>, base: Key, dir: string, r: Item)
    requires forall e :: e in es ==>
               Belongs(e, base + dir) && EntryKey(e) != base + dir && EntryKey(e) != base + dir + [SLASH]
    ensures multiset(Rows(es, base))[r]
         == if dir <= r.name then multiset(Rows(es, base + dir))[Below(r, dir)] else 0
  {
    if es != [] {
      hide Belongs, Row;
      assert es[0] in es;
      assert forall e :: e in es[1..] ==> e in es;
      LongerRows(es[1..], base, dir, r);
      LongerRow(es[0], base, dir, r);
      RowIsShort(es[0], base);
      RowIsShort(es[0], base + dir);
    }
  }

  /**
   * A search whose term does not end in a slash shows exactly what the folder
   * the term points into shows, restricted to names that start with the term.
   */
  lemma SearchBelowIsExact(bucket: map<Key, Meta>, base: Key, namePrefix: string, r: Item)
    requires namePrefix == [] || namePrefix[|namePrefix| - 1] != SLASH
    ensures multiset(Rows(Level(Enumerate(bucket), base + namePrefix), base))[r]
         == if Found(bucket, base, namePrefix, r) then 1 else 0
  {
    var dir := SearchFolder(namePrefix);
    var leaf := namePrefix[|dir|..];
    hide FlatMap, Level, Enumerate, Shows, SearchFolder, Below;
    assert base + namePrefix == base + dir + leaf && dir + leaf == namePrefix;
    if namePrefix == [] {
      SearchForAnything(bucket, base, r);
    } else {
      SearchPastFolder(bucket, base, dir, leaf, r);
    }
  }

  lemma SearchForAnything(bucket: map<Key, Meta>, base: Key, r: Item)
    ensures multiset(Rows(Level(Enumerate(bucket), base + []), base))[r]
         == if Shows(bucket, base + [], Below(r, [])) then 1 else 0
  {
    hide FlatMap, Level, Enumerate, Shows;
    assert base + [] == base && Below(r, []) == r;
    SearchIsExact(bucket, base, [], r);
  }

  lemma SearchPastFolder(bucket: map<Key, Meta>, base: Key, dir: string, leaf: string, r: Item)
    requires leaf != [] && SLASH !in leaf
    ensures multiset(Rows(Level(Enumerate(bucket), base + dir + leaf), base))[r]
         == if dir + leaf <= r.name && Shows(bucket, base + dir, Below(r, dir)) then 1 else 0
  {
    hide FlatMap, Level, Enumerate, Shows, Belongs;
    EntriesPastTheFolder(Enumerate(bucket), base + dir, leaf);
    LongerRows(Level(Enumerate(bucket), base + dir + leaf), base, dir, r);
    assert dir + leaf <= r.name ==> dir <= r.name;
    if dir <= r.name {
      var n := r.name[|dir|..];
      assert r.name == dir + n;
      PrefixPastBase(dir, leaf, n);
      SearchIsExact(bucket, base + dir, leaf, Below(r, dir));
    }
  }

  lemma EntriesPastTheFolder(objs: seq<Obj>, base: Key, leaf: string)
    requires SortedKeys(objs) && leaf != [] && SLASH !in leaf
    ensures forall e :: e in Level(objs, base + leaf) ==>
              Belongs(e, base) && EntryKey(e) != base && EntryKey(e) != base + [SLASH]
  {
    SearchedLevel(objs, base, leaf);
    LevelBelongs(objs, base);
    MatchingIsPart(Level(objs, base), base + leaf);
    hide Level, Belongs;
    assert leaf[0] in leaf;
    forall e | e in Level(objs, base + leaf) ensures EntryKey(e) != base && EntryKey(e) != base + [SLASH] {
      MatchingMatches(Level(objs, base), base + leaf, e);
      assert EntryKey(e)[|base|] == (base + leaf)[|base|] == leaf[0];
    }
  }

  lemma {:induction false} MatchingMatches(es: seq<Entry>, q: Key, e: Entry)
    requires e in Matching(es, q)
    ensures q <= EntryKey(e)
  {
    hide EntryKey;
    if !(q <= EntryKey(es[0])) || e != es[0] { MatchingMatches(es[1..], q, e); }
  }

  /** What a search finds, told from the bucket. */
  ghost predicate Found(bucket: map<Key, Meta>, base: Key, namePrefix: string, r: Item) {
    namePrefix <= r.name && Shows(bucket, base + SearchFolder(namePrefix), Below(r, SearchFolder(namePrefix)))
  }

  /**
   * A client following the tokens, free to change the budget from call to call,
   * collects the whole level, each row once: what the flat listing shows, or
   * what of it, or of the folder the search term points into, matches the term.
   */
  method Drain(bucket: map<Key, Meta>, base: Key, namePrefix: string, budgets: nat -> int, full: bool,
               lower: string -> string)
    returns (items: seq<Item>, calls: nat)
    ensures multiset(items) == multiset(Rows(Level(Enumerate(bucket), base + namePrefix), base))
    ensures SLASH !in namePrefix ==>
              forall r :: multiset(items)[r] == if Shows(bucket, base, r) && namePrefix <= r.name then 1 else 0
    ensures namePrefix == [] || namePrefix[|namePrefix| - 1] != SLASH ==>
              forall r :: multiset(items)[r] == if Found(bucket, base, namePrefix, r) then 1 else 0
    ensures calls <= |Level(Enumerate(bucket), base + namePrefix)| + 1
  {
    hide FlatMap, Level;
    ghost var level := Level(Enumerate(bucket), base + namePrefix);
    items, calls := [], 0;
    var token, truncated := 0, true;
    FlatMapNone(level, RowsFor(base));
    while truncated
      invariant token <= |level| && (!truncated ==> token == |level|)
      invariant multiset(items) == multiset(Rows(level[..token], base))
      invariant calls <= token + 1 && (truncated ==> calls <= token)
      decreases truncated, |level| - token
    {
      var directories, files, more, next;
      ghost var pages;
      directories, files, more, next, pages :=
        LoadChunk(bucket, base, namePrefix, budgets(calls), token, full, lower);
      FlatMapWindow(level, token, next, RowsFor(base));
      items := items + directories + files;
      calls := calls + 1;
      token, truncated := next, more;
    }
    FlatMapWhole(level, RowsFor(base));
    if SLASH !in namePrefix {
      forall r ensures multiset(items)[r] == if Shows(bucket, base, r) && namePrefix <= r.name then 1 else 0 {
        SearchIsExact(bucket, base, namePrefix, r);
      }
    }
    if namePrefix == [] || namePrefix[|namePrefix| - 1] != SLASH {
      forall r ensures multiset(items)[r] == if Found(bucket, base, namePrefix, r) then 1 else 0 {
        SearchBelowIsExact(bucket, base, namePrefix, r);
      }
    }
  }
}
