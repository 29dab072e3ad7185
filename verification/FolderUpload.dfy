/**
 * Flattening dropped files and folders into uploads with relative paths.
 *
 * A directory hands out its children in batches of the browser's choosing; a
 * file is known by a number.
 */
module FolderUpload {
  import opened Keys
  import opened Wrappers
  import opened PathCodec

  datatype Entry =
    | File(name: string, file: nat)
    | Directory(name: string, children: seq<Entry>)
    | Other(name: string)

  /** A file and where it goes. */
  datatype Placed = Placed(file: nat, relativePath: string)

  /** A DataTransferItem: `entry` is what webkitGetAsEntry gives, `legacyFile` what getAsFile gives. */
  datatype Item = Item(isFile: bool, entry: Option<Entry>, legacyFile: Option<Entry>)

  function Extend(pathPrefix: string, name: string): string {
    if pathPrefix == [] then name else pathPrefix + [SLASH] + name
  }

  function Walk(entry: Entry, pathPrefix: string): seq<Placed>
    decreases entry
  {
    match entry
    case File(name, file) => [Placed(file, Extend(pathPrefix, name))]
    case Directory(name, children) => WalkAll(children, Extend(pathPrefix, name))
    case Other(_) => []
  }

  function WalkAll(entries: seq<Entry>, pathPrefix: string): seq<Placed>
    decreases entries
  {
    if entries == [] then [] else Walk(entries[0], pathPrefix) + WalkAll(entries[1..], pathPrefix)
  }

  lemma {:induction false} WalkAllStep(entries: seq<Entry>, i: nat, pathPrefix: string)
    requires i < |entries|
    ensures WalkAll(entries[..i + 1], pathPrefix) == WalkAll(entries[..i], pathPrefix) + Walk(entries[i], pathPrefix)
  {
    hide Walk;
    if i > 0 {
      WalkAllStep(entries[1..], i - 1, pathPrefix);
      assert entries[..i + 1][1..] == entries[1..][..i];
      assert entries[..i][1..] == entries[1..][..i - 1];
    } else {
      assert entries[..1][1..] == [];
    }
  }

  // ------------------------------------------------- the loops

  /** One `readEntries` call: some of what is left, and nothing only when nothing is left. */
  method ReadBatch(left: seq<Entry>) returns (batch: seq<Entry>, rest: seq<Entry>)
    ensures left == batch + rest
    ensures batch == [] <==> left == []
  {
    if left == [] {
      batch, rest := [], [];
    } else {
      var n: nat :| 0 < n <= |left|;
      batch, rest := left[..n], left[n..];
    }
  }

  /** `drainReader`: every child, however they are batched. */
  method DrainReader(children: seq<Entry>) returns (all: seq<Entry>)
    ensures all == children
  {
    all := [];
    var left := children;
    while true
      invariant all + left == children
      decreases |left|
    {
      var batch, rest := ReadBatch(left);
      if |batch| == 0 { break; }
      all := all + batch;
      left := rest;
    }
  }

  /** `walkEntry` */
  method WalkEntry(entry: Entry, pathPrefix: string) returns (results: seq<Placed>)
    ensures results == Walk(entry, pathPrefix)
    decreases entry
  {
    match entry
    case File(name, file) =>
      results := [Placed(file, Extend(pathPrefix, name))];
    case Directory(name, children) =>
      var childPrefix := Extend(pathPrefix, name);
      var all := DrainReader(children);
      results := [];
      for i := 0 to |all|
        invariant results == WalkAll(all[..i], childPrefix)
      {
        var branch := WalkEntry(all[i], childPrefix);
        WalkAllStep(all, i, childPrefix);
        results := results + branch;
      }
      assert all[..|all|] == children;
    case Other(_) =>
      results := [];
  }

  /** The top-level entries a drop stands for; an item without an entry counts as a loose file. */
  function Roots(items: seq<Item>): seq<Entry> {
    if items == [] then [] else
      var item := items[0];
      var rest := Roots(items[1..]);
      if !item.isFile then rest
      else if item.entry.Some? then [item.entry.value] + rest
      else if item.legacyFile.Some? && item.legacyFile.value.File? then [item.legacyFile.value] + rest
      else rest
  }

  /** Each item counts at most once: its entry, or without one the loose file it holds; other items do not count. */
  lemma RootOfItem(item: Item)
    ensures item.isFile && item.entry.Some? ==> Roots([item]) == [item.entry.value]
    ensures item.isFile && item.entry.None? && item.legacyFile.Some? && item.legacyFile.value.File? ==>
              Roots([item]) == [item.legacyFile.value]
    ensures !item.isFile || (item.entry.None? && (item.legacyFile.None? || !item.legacyFile.value.File?)) ==>
              Roots([item]) == []
  {
    assert Roots([item][1..]) == [];
  }

  lemma {:induction false} RootsStep(items: seq<Item>, i: nat)
    requires i < |items|
    ensures Roots(items[..i + 1]) == Roots(items[..i]) + Roots([items[i]])
  {
    if i > 0 {
      RootsStep(items[1..], i - 1);
      assert items[..i + 1][1..] == items[1..][..i];
      assert items[..i][1..] == items[1..][..i - 1];
    } else {
      assert items[..1] == [items[0]];
    }
  }

  lemma {:induction false} WalkAllConcat(a: seq<Entry>, b: seq<Entry>, pathPrefix: string)
    ensures WalkAll(a + b, pathPrefix) == WalkAll(a, pathPrefix) + WalkAll(b, pathPrefix)
  {
    hide Walk;
    if a == [] {
      assert a + b == b;
    } else {
      WalkAllConcat(a[1..], b, pathPrefix);
      assert (a + b)[0] == a[0] && (a + b)[1..] == a[1..] + b;
      assert WalkAll(a + b, pathPrefix) == Walk(a[0], pathPrefix) + WalkAll(a[1..] + b, pathPrefix);
      assert WalkAll(a, pathPrefix) == Walk(a[0], pathPrefix) + WalkAll(a[1..], pathPrefix);
      hide WalkAll;
    }
  }

  lemma OneRoot(item: Item, e: Entry)
    requires Roots([item]) == [e] || (item.isFile && item.entry == Some(e))
    ensures WalkAll(Roots([item]), []) == Walk(e, [])
  {
    assert Roots([item][1..]) == [];
    assert Roots([item]) == [e] && WalkAll([e][1..], []) == [];
  }

  lemma NoRoot(item: Item)
    requires !item.isFile || (item.entry.None? && (item.legacyFile.None? || !item.legacyFile.value.File?))
    ensures WalkAll(Roots([item]), []) == []
  {
    assert Roots([item][1..]) == [];
  }

  /** `expandDirectoryEntries`: whatever is dropped, the flattening of its top-level entries. */
  method ExpandDirectoryEntries(items: seq<Item>) returns (results: seq<Placed>)
    ensures results == WalkAll(Roots(items), [])
  {
    results := [];
    for i := 0 to |items|
      invariant results == WalkAll(Roots(items[..i]), [])
    {
      var item := items[i];
      RootsStep(items, i);
      WalkAllConcat(Roots(items[..i]), Roots([item]), []);
      if item.isFile && item.entry.Some? {
        OneRoot(item, item.entry.value);
        var branch := WalkEntry(item.entry.value, []);
        results := results + branch;
      } else if item.isFile && item.legacyFile.Some? && item.legacyFile.value.File? {
        assert Roots([item]) == [item.legacyFile.value] by { assert Roots([item][1..]) == []; }
        OneRoot(item, item.legacyFile.value);
        results := results + [Placed(item.legacyFile.value.file, item.legacyFile.value.name)];
      } else {
        NoRoot(item);
      }
    }
    assert items[..|items|] == items;
  }

  // ------------------------------------------------- every file exactly once

  /** A file of the tree and the names that lead to it from its root. */
  datatype Leaf = Leaf(names: seq<string>, file: nat)

  function Below(name: string, leaves: seq<Leaf>): seq<Leaf> {
    seq(|leaves|, i requires 0 <= i < |leaves| => Leaf([name] + leaves[i].names, leaves[i].file))
  }

  function LeavesOf(entry: Entry): seq<Leaf>
    decreases entry
  {
    match entry
    case File(name, file) => [Leaf([name], file)]
    case Directory(name, children) => Below(name, Leaves(children))
    case Other(_) => []
  }

  function Leaves(entries: seq<Entry>): seq<Leaf>
    decreases entries
  {
    if entries == [] then [] else LeavesOf(entries[0]) + Leaves(entries[1..])
  }

  /** `names` leads from one of the entries down to the file. */
  ghost predicate Reaches(entries: seq<Entry>, names: seq<string>, file: nat)
    decreases names
  {
    && names != []
    && exists e :: e in entries && e.name == names[0]
         && match e
            case File(_, f) => |names| == 1 && f == file
            case Directory(_, children) => Reaches(children, names[1..], file)
            case Other(_) => false
  }

  /** The path the walk builds for the names below a prefix. */
  function PathUnder(pathPrefix: string, names: seq<string>): string
    decreases names
  {
    if names == [] then pathPrefix else PathUnder(Extend(pathPrefix, names[0]), names[1..])
  }

  function Place(leaves: seq<Leaf>, pathPrefix: string): seq<Placed> {
    seq(|leaves|, i requires 0 <= i < |leaves| => Placed(leaves[i].file, PathUnder(pathPrefix, leaves[i].names)))
  }

  lemma PlaceBelow(name: string, leaves: seq<Leaf>, pathPrefix: string)
    ensures Place(Below(name, leaves), pathPrefix) == Place(leaves, Extend(pathPrefix, name))
  {
    hide Extend;
    forall i | 0 <= i < |leaves|
      ensures PathUnder(pathPrefix, [name] + leaves[i].names) == PathUnder(Extend(pathPrefix, name), leaves[i].names)
    {
      assert ([name] + leaves[i].names)[1..] == leaves[i].names;
    }
  }

  /** The flattening lists the files of the forest, one entry per file, in order. */
  lemma {:induction false} WalkPlacesEveryLeaf(entries: seq<Entry>, pathPrefix: string)
    ensures WalkAll(entries, pathPrefix) == Place(Leaves(entries), pathPrefix)
    decreases entries
  {
    hide PathUnder;
    if entries != [] {
      var e := entries[0];
      match e {
        case File(name, file) =>
          assert PathUnder(pathPrefix, [name]) == Extend(pathPrefix, name) by { OneName(pathPrefix, name); }
        case Directory(name, children) =>
          WalkPlacesEveryLeaf(children, Extend(pathPrefix, name));
          PlaceBelow(name, Leaves(children), pathPrefix);
        case Other(_) =>
      }
      WalkPlacesEveryLeaf(entries[1..], pathPrefix);
      assert Walk(e, pathPrefix) == Place(LeavesOf(e), pathPrefix);
    }
  }

  lemma OneName(pathPrefix: string, name: string)
    ensures PathUnder(pathPrefix, [name]) == Extend(pathPrefix, name)
  {
    assert PathUnder(Extend(pathPrefix, name), [name][1..]) == Extend(pathPrefix, name);
  }

  /** A leaf is listed exactly when its names lead to its file. */
  lemma {:induction false} LeavesReach(entries: seq<Entry>, leaf: Leaf)
    ensures leaf in Leaves(entries) <==> Reaches(entries, leaf.names, leaf.file)
    decreases entries
  {
    if entries != [] {
      LeavesReach(entries[1..], leaf);
      var e := entries[0];
      assert entries == [e] + entries[1..];
      LeafOfEntry(e, leaf);
      assert Reaches(entries, leaf.names, leaf.file) <==>
             Reaches([e], leaf.names, leaf.file) || Reaches(entries[1..], leaf.names, leaf.file);
    }
  }

  lemma {:induction false} LeafOfEntry(e: Entry, leaf: Leaf)
    ensures leaf in LeavesOf(e) <==> Reaches([e], leaf.names, leaf.file)
    decreases e
  {
    assert e in [e];
    match e {
      case File(name, _) =>
        assert |leaf.names| == 1 && leaf.names[0] == name <==> leaf.names == [name];
      case Directory(name, children) =>
        if leaf.names != [] { LeavesReach(children, Leaf(leaf.names[1..], leaf.file)); }
        BelowMembers(name, Leaves(children), leaf);
        hide Leaves;
      case Other(_) =>
    }
  }

  lemma BelowMembers(name: string, leaves: seq<Leaf>, leaf: Leaf)
    ensures leaf in Below(name, leaves)
       <==> leaf.names != [] && leaf.names[0] == name && Leaf(leaf.names[1..], leaf.file) in leaves
  {
    if leaf in Below(name, leaves) {
      var i :| 0 <= i < |leaves| && leaf == Below(name, leaves)[i];
      assert leaf.names[1..] == leaves[i].names;
      assert leaves[i] == Leaf(leaf.names[1..], leaf.file);
    }
    if leaf.names != [] && leaf.names[0] == name && Leaf(leaf.names[1..], leaf.file) in leaves {
      var i :| 0 <= i < |leaves| && leaves[i] == Leaf(leaf.names[1..], leaf.file);
      assert [name] + leaf.names[1..] == leaf.names;
      assert Below(name, leaves)[i] == leaf;
    }
  }

  // ------------------------------------------------- distinct paths

  /** No name on any level holds a slash. */
  ghost predicate SlashFreeForest(entries: seq<Entry>)
    decreases entries
  {
    && (forall i :: 0 <= i < |entries| ==> SLASH !in entries[i].name)
    && (forall i :: 0 <= i < |entries| && entries[i].Directory? ==> SlashFreeForest(entries[i].children))
  }

  /** On every level the names differ from each other. */
  ghost predicate DistinctSiblings(entries: seq<Entry>)
    decreases entries
  {
    && (forall i, j :: 0 <= i < j < |entries| ==> entries[i].name != entries[j].name)
    && (forall i :: 0 <= i < |entries| && entries[i].Directory? ==> DistinctSiblings(entries[i].children))
  }

  /** Every top-level folder has a name, so no path prefix is empty below the top. */
  predicate NamedRoots(entries: seq<Entry>) {
    forall e :: e in entries && e.Directory? ==> e.name != []
  }

  lemma {:induction false} LeafNames(entries: seq<Entry>, k: nat)
    requires SlashFreeForest(entries) && k < |Leaves(entries)|
    ensures Leaves(entries)[k].names != [] && SlashFree(Leaves(entries)[k].names)
    decreases entries
  {
    var e, head := entries[0], LeavesOf(entries[0]);
    if k < |head| {
      if e.Directory? { LeafNames(e.children, k); }
    } else {
      assert SlashFreeForest(entries[1..]);
      LeafNames(entries[1..], k - |head|);
    }
  }

  /** The names of a leaf start at a top-level entry, which is the file itself if there is only one name. */
  lemma {:induction false} LeafStarts(entries: seq<Entry>, k: nat) returns (e: Entry)
    requires k < |Leaves(entries)|
    ensures Leaves(entries)[k].names != []
    ensures e in entries && e.name == Leaves(entries)[k].names[0]
    ensures e.Directory? || |Leaves(entries)[k].names| == 1
    decreases entries
  {
    var head := LeavesOf(entries[0]);
    if k < |head| {
      e := entries[0];
    } else {
      e := LeafStarts(entries[1..], k - |head|);
    }
  }

  /** Different files are reached by different names when siblings have different names. */
  lemma {:induction false} LeavesDiffer(entries: seq<Entry>, i: nat, j: nat)
    requires DistinctSiblings(entries) && i < j < |Leaves(entries)|
    ensures Leaves(entries)[i].names != Leaves(entries)[j].names
    decreases entries
  {
    var e, head, rest := entries[0], LeavesOf(entries[0]), Leaves(entries[1..]);
    assert DistinctSiblings(entries[1..]);
    if j < |head| {
      assert e.Directory?;
      var below := Leaves(e.children);
      LeavesDiffer(e.children, i, j);
      assert head[i].names[1..] == below[i].names && head[j].names[1..] == below[j].names;
    } else if |head| <= i {
      LeavesDiffer(entries[1..], i - |head|, j - |head|);
    } else {
      var f := LeafStarts(entries[1..], j - |head|);
      assert head[i].names[0] == e.name;
    }
  }

  lemma {:induction false} PathUnderJoins(pathPrefix: string, names: seq<string>)
    requires pathPrefix != [] || (names != [] && names[0] != [])
    ensures PathUnder(pathPrefix, names)
         == if pathPrefix == [] then Join(names) else Join([pathPrefix] + names)
    decreases names
  {
    if names != [] {
      PathUnderJoins(Extend(pathPrefix, names[0]), names[1..]);
      if pathPrefix == [] {
        assert [names[0]] + names[1..] == names;
      } else {
        assert Join([pathPrefix, names[0]]) == Extend(pathPrefix, names[0]) by {
          assert [pathPrefix, names[0]][1..] == [names[0]];
        }
        JoinNests([], [pathPrefix, names[0]], names[1..]);
        assert [] + [Extend(pathPrefix, names[0])] + names[1..] == [Extend(pathPrefix, names[0])] + names[1..];
        assert [] + [pathPrefix, names[0]] + names[1..] == [pathPrefix] + names;
      }
    }
  }

  /** Leading empty names leave no trace in a path. */
  function Named(names: seq<string>): seq<string> {
    if names != [] && names[0] == [] then Named(names[1..]) else names
  }

  lemma {:induction false} PathOfNames(names: seq<string>)
    ensures PathUnder([], names) == Join(Named(names))
  {
    if names != [] {
      if names[0] == [] { PathOfNames(names[1..]); } else { PathUnderJoins([], names); }
    }
  }

  /**
   * Every file of a drop appears exactly once per place it has, under its
   * names joined by slashes.
   */
  lemma FlatteningIsExact(entries: seq<Entry>, p: Placed)
    ensures p in WalkAll(entries, [])
       <==> exists names :: Reaches(entries, names, p.file) && p.relativePath == Join(Named(names))
    ensures |WalkAll(entries, [])| == |Leaves(entries)|
  {
    var leaves := Leaves(entries);
    WalkPlacesEveryLeaf(entries, []);
    hide Walk, WalkAll, Leaves, Reaches, Join, Named, PathUnder;
    if p in WalkAll(entries, []) {
      var i :| 0 <= i < |leaves| && Place(leaves, [])[i] == p;
      assert leaves[i] in leaves && leaves[i] == Leaf(leaves[i].names, p.file);
      LeavesReach(entries, leaves[i]);
      PathOfNames(leaves[i].names);
    }
    if names :| Reaches(entries, names, p.file) && p.relativePath == Join(Named(names)) {
      LeavesReach(entries, Leaf(names, p.file));
      var i :| 0 <= i < |leaves| && leaves[i] == Leaf(names, p.file);
      PathOfNames(names);
      assert Place(leaves, [])[i] == p;
    }
  }

  /** Two lists of names make the same path exactly when they agree after their leading empty names. */
  lemma SamePathExactly(a: seq<string>, b: seq<string>)
    requires SlashFree(a) && SlashFree(b)
    ensures PathUnder([], a) == PathUnder([], b) <==> Named(a) == Named(b)
  {
    PathOfNames(a);
    PathOfNames(b);
    NamedNames(a);
    NamedNames(b);
    hide Named, PathUnder, Split;
    if Named(a) != [] { SplitJoin(Named(a)); }
    if Named(b) != [] { SplitJoin(Named(b)); }
  }

  lemma {:induction false} NamedNames(names: seq<string>)
    requires SlashFree(names)
    ensures SlashFree(Named(names))
    ensures Named(names) != [] ==> Named(names)[0] != [] && Join(Named(names)) != []
    ensures Named(names) == [] ==> Join(Named(names)) == []
  {
    if names != [] && names[0] == [] {
      assert forall s :: s in names[1..] ==> s in names;
      NamedNames(names[1..]);
    }
  }

  /** Which files of a drop collide: those whose names agree after the leading empty ones. */
  lemma CollisionsExactly(entries: seq<Entry>, i: nat, j: nat)
    requires SlashFreeForest(entries) && i < |WalkAll(entries, [])| && j < |WalkAll(entries, [])|
    ensures |WalkAll(entries, [])| == |Leaves(entries)|
    ensures WalkAll(entries, [])[i].relativePath == WalkAll(entries, [])[j].relativePath
       <==> Named(Leaves(entries)[i].names) == Named(Leaves(entries)[j].names)
  {
    WalkPlacesEveryLeaf(entries, []);
    hide SlashFreeForest, Walk, WalkAll, Leaves, Named, PathUnder;
    LeafNames(entries, i);
    LeafNames(entries, j);
    SamePathExactly(Leaves(entries)[i].names, Leaves(entries)[j].names);
  }

  /**
   * No two files of a drop are uploaded to the same path when siblings have
   * different, slash-free names and every top-level folder has a name; below
   * it, and for files, an empty name does no harm.
   */
  lemma PathsAreDistinct(entries: seq<Entry>, i: nat, j: nat)
    requires SlashFreeForest(entries) && DistinctSiblings(entries) && NamedRoots(entries)
    requires i < j < |WalkAll(entries, [])|
    ensures WalkAll(entries, [])[i].relativePath != WalkAll(entries, [])[j].relativePath
  {
    CollisionsExactly(entries, i, j);
    var leaves := Leaves(entries);
    LeavesDiffer(entries, i, j);
    var e := LeafStarts(entries, i);
    var f := LeafStarts(entries, j);
    hide SlashFreeForest, DistinctSiblings, WalkAll, Leaves, Named;
    NamedByRoot(entries, e, leaves[i].names);
    NamedByRoot(entries, f, leaves[j].names);
  }

  lemma NamedByRoot(entries: seq<Entry>, e: Entry, names: seq<string>)
    requires NamedRoots(entries) && e in entries && names != [] && e.name == names[0]
    requires e.Directory? || |names| == 1
    ensures Named(names) == if names == [[]] then [] else names
  {
    if names[0] == [] { assert names[1..] == [] && Named(names[1..]) == []; }
  }

  /** Distinct sibling names are not enough if a top-level folder has none. */
  lemma EmptyRootNameCollides()
    ensures var entries := [File("a", 1), Directory("", [File("a", 2)])];
            WalkAll(entries, []) == [Placed(1, "a"), Placed(2, "a")]
  {
    var inner := [File("a", 2)];
    var entries := [File("a", 1), Directory("", inner)];
    assert WalkAll(inner[1..], []) == [];
    assert WalkAll(entries[1..][1..], []) == [];
    assert WalkAll(entries[1..], []) == Walk(Directory("", inner), []) + [];
  }
}
