/**
 * The bucket summary: which child folders exist, what the capped walk may
 * honestly say about each of them, and the bounded lists that are rendered.
 */
module Summary {
  import opened Keys
  import opened ObjectStore
  import opened Listing
  import opened Sequences
  import opened Sorting
  import opened SummaryWalk
  import opened Tallies
  import opened Wrappers

  const MIN_SUMMARY_MAX_KEYS := 1000
  const TOP_PREFIXES := 20
  const TOP_EXTENSIONS := 20

  datatype Coverage = Complete | Partial | NotScanned

  datatype PrefixEntry = PrefixEntry(prefix: Key, counted: Option<Stat>, coverage: Coverage)

  datatype ExtensionEntry = ExtensionEntry(ext: string, stat: Stat)

  datatype Report = Report(
    complete: bool, scannedObjects: nat, scannedBytes: nat, total: Option<Stat>,
    scanStoppedAt: Option<Key>, rootObjects: nat,
    prefixes: seq<PrefixEntry>, prefixCount: nat, prefixListComplete: bool, prefixesTruncated: bool,
    extensions: seq<ExtensionEntry>, extensionCount: nat, extensionsTruncated: bool,
    largest: seq<Obj>, oldest: Option<int>, newest: Option<int>)

  // ------------------------------------------------- step 1

  /** The pages step 1 may read; at least one. */
  function PageBudget(prefixScanPages: int): nat {
    if prefixScanPages < 1 then 1 else prefixScanPages
  }

  /**
   * Enumerate the child prefixes within a page budget.  A list that is not
   * complete has used the budget up: an entry a page at least, a thousand a
   * page if pages are full.
   */
  method EnumeratePrefixes(level: seq<Entry>, prefixScanPages: int, full: bool)
    returns (prefixes: seq<Key>, listComplete: bool, ghost upto: nat)
    ensures upto <= |level| && prefixes == CommonPrefixes(level[..upto])
    ensures listComplete <==> upto == |level|
    ensures !listComplete ==> 1 <= upto && prefixScanPages <= upto
    ensures full ==> upto == Min(if prefixScanPages < 1 then 1000 else 1000 * prefixScanPages, |level|)
  {
    hide FlatMap;
    var budget := PageBudget(prefixScanPages);
    prefixes, listComplete, upto := [], true, 0;
    var token, pages := 0, 0;
    var more := true;
    FlatMapNone(level, FolderField());
    while more
      invariant token == upto <= |level| && 0 <= pages <= budget
      invariant pages <= token || token == |level|
      invariant more ==> pages < budget && (pages > 0 ==> token < |level|)
      invariant !more && !listComplete ==> pages == budget
      invariant full ==> token == Min(1000 * pages, |level|)
      invariant prefixes == CommonPrefixes(level[..token])
      invariant if more then listComplete else listComplete <==> upto == |level|
      decreases more, |level| - token
    {
      var page, isTruncated, next := ListPage(level, token, 1000, full);
      pages := pages + 1;
      FlatMapWindow(level, token, next, FolderField());
      prefixes := prefixes + CommonPrefixes(page);
      token, upto := next, next;
      if !isTruncated {
        more := false;
      } else if pages >= budget {
        listComplete, more := false, false;
      }
    }
  }

  // ------------------------------------------------- coverage

  function CoverageOf(p: Key, complete: bool, stop: Option<Key>): Coverage {
    if complete then Complete
    else if stop.Some? && p <= stop.value then Partial
    else if stop.Some? && Less(p, stop.value) then Complete
    else NotScanned
  }

  function MakeEntry(p: Key, complete: bool, stop: Option<Key>, stats: map<Key, Stat>): PrefixEntry {
    var coverage := CoverageOf(p, complete, stop);
    PrefixEntry(p, if coverage == NotScanned then None else Some(CountOf(stats, p)), coverage)
  }

  /** What a coverage label promises about the objects under its prefix. */
  ghost predicate Honest(e: PrefixEntry, objs: seq<Obj>, scanned: nat)
    requires scanned <= |objs|
  {
    match e.coverage
    case Complete => e.counted == Some(Tally(objs, InFolder(e.prefix)))
    case Partial => e.counted.Some? && AtMost(e.counted.value, Tally(objs, InFolder(e.prefix)))
    case NotScanned => e.counted == None && forall i :: 0 <= i < scanned ==> !(e.prefix <= objs[i].key)
  }

  /** The walk's stopping key, as the report carries it. */
  ghost predicate StoppedAt(complete: bool, stop: Option<Key>, objs: seq<Obj>, scanned: nat)
    requires scanned <= |objs|
  {
    && (complete ==> scanned == |objs|)
    && (!complete ==> scanned > 0 && stop == Some(objs[scanned - 1].key))
  }

  /** The ordering argument behind the labels. */
  lemma EveryLabelIsHonest(objs: seq<Obj>, scanned: nat, prefix: Key, p: Key,
                           complete: bool, stop: Option<Key>, stats: map<Key, Stat>)
    requires SortedKeys(objs) && scanned <= |objs| && StoppedAt(complete, stop, objs, scanned)
    requires FolderTable(stats, objs[..scanned], prefix) && IsChild(p, prefix)
    ensures Honest(MakeEntry(p, complete, stop, stats), objs, scanned)
  {
    hide Tally, FolderTable;
    FolderCount(stats, objs[..scanned], prefix, p);
    if complete {
      assert objs[..scanned] == objs;
    } else {
      var s := stop.value;
      if p <= s {
        TallyPrefix(objs, scanned, InFolder(p));
      } else {
        LessTotal(p, s);
        if Less(p, s) {
          forall i | scanned <= i < |objs| ensures !(p <= objs[i].key) {
            assert Less(s, objs[i].key);
            BehindStop(p, objs[i].key, s);
          }
          TallyStopsAt(objs, scanned, InFolder(p));
        } else {
          LessAsymmetric(s, p);
          forall i | 0 <= i < scanned ensures !(p <= objs[i].key) {
            AheadOfStop(p, objs[i].key, s);
          }
        }
      }
    }
  }

  lemma BehindStop(p: Key, k: Key, s: Key)
    requires !(p <= s) && Less(p, s) && Less(s, k)
    ensures !(p <= k)
  {
    if p <= k {
      PrefixBlockBefore(p, k, s);
      LessAsymmetric(s, k);
    }
  }

  lemma AheadOfStop(p: Key, k: Key, s: Key)
    requires Less(s, p) && LessEq(k, s)
    ensures !(p <= k)
  {
    if p <= k {
      PrefixBlockAfter(p, k, s);
      if k == s { LessIrreflexive(s); } else { LessAsymmetric(k, s); }
    }
  }

  function Rank(c: Coverage): nat {
    match c case Complete => 0 case Partial => 1 case NotScanned => 2
  }

  lemma PrefixesOfOneKeyNest(p: Key, q: Key, s: Key)
    ensures p <= s && q <= s ==> p <= q || q <= p
  {
  }

  /** In key order the labels read complete*, at most one partial, not_scanned*. */
  lemma LabelsAdvance(p: Key, q: Key, prefix: Key, complete: bool, stop: Option<Key>)
    requires IsChild(p, prefix) && IsChild(q, prefix) && Less(p, q)
    ensures Rank(CoverageOf(p, complete, stop)) <= Rank(CoverageOf(q, complete, stop))
    ensures !(CoverageOf(p, complete, stop).Partial? && CoverageOf(q, complete, stop).Partial?)
  {
    LessAsymmetric(p, q);
    ChildrenAreIncomparable(p, q, prefix);
    if !complete && stop.Some? {
      var s := stop.value;
      LessTotal(p, s);
      LessTotal(q, s);
      PrefixesOfOneKeyNest(p, q, s);
      if Less(q, s) { LessTransitive(p, q, s); }
      if p <= s && LessEq(q, s) { PrefixBlockIsInterval(p, p, q, s); }
      if q <= s { PrefixSortsFirst(q, s); }
      if p <= s { PrefixSortsFirst(p, s); }
    }
  }

  // ------------------------------------------------- what is rendered

  function ScannedField(): PrefixEntry -> seq<PrefixEntry> {
    (e: PrefixEntry) => if e.coverage != NotScanned then [e] else []
  }

  function UnscannedField(): PrefixEntry -> seq<PrefixEntry> {
    (e: PrefixEntry) => if e.coverage == NotScanned then [e] else []
  }

  function ObjectsOf(e: PrefixEntry): nat {
    if e.counted.Some? then e.counted.value.objects else 0
  }

  /** More objects first, then by prefix. */
  predicate RanksBefore(a: PrefixEntry, b: PrefixEntry) {
    ObjectsOf(a) > ObjectsOf(b) || (ObjectsOf(a) == ObjectsOf(b) && LessEq(a.prefix, b.prefix))
  }

  predicate PrefixBefore(a: PrefixEntry, b: PrefixEntry) { LessEq(a.prefix, b.prefix) }

  function ByRank(): (PrefixEntry, PrefixEntry) -> bool {
    (a: PrefixEntry, b: PrefixEntry) => RanksBefore(a, b)
  }

  function ByPrefix(): (PrefixEntry, PrefixEntry) -> bool {
    (a: PrefixEntry, b: PrefixEntry) => PrefixBefore(a, b)
  }

  function Take<T>(s: seq<T>, n: nat): seq<T> { s[..Min(n, |s|)] }

  ghost predicate StrictlyByPrefix(entries: seq<PrefixEntry>) {
    forall i, j :: 0 <= i < j < |entries| ==> Less(entries[i].prefix, entries[j].prefix)
  }

  lemma RanksArePreorders()
    ensures TotalPreorder(ByRank()) && TotalPreorder(ByPrefix())
  {
    forall a: PrefixEntry, b: PrefixEntry
      ensures (RanksBefore(a, b) || RanksBefore(b, a)) && (PrefixBefore(a, b) || PrefixBefore(b, a))
    {
      LessTotal(a.prefix, b.prefix);
    }
    forall a: PrefixEntry, b: PrefixEntry, c: PrefixEntry
      ensures (RanksBefore(a, b) && RanksBefore(b, c) ==> RanksBefore(a, c))
           && (PrefixBefore(a, b) && PrefixBefore(b, c) ==> PrefixBefore(a, c))
    {
      if Less(a.prefix, b.prefix) && Less(b.prefix, c.prefix) { LessTransitive(a.prefix, b.prefix, c.prefix); }
    }
  }

  lemma TakeIsSubset<T>(s: seq<T>, n: nat)
    ensures multiset(Take(s, n)) <= multiset(s)
  {
    var k := Min(n, |s|);
    assert s == s[..k] + s[k..];
  }

  lemma StrictlySortedOnce(entries: seq<PrefixEntry>)
    requires StrictlyByPrefix(entries)
    ensures NoDuplicates(entries)
  {
    forall i, j | 0 <= i < j < |entries| ensures entries[i] != entries[j] {
      LessAsymmetric(entries[i].prefix, entries[j].prefix);
    }
  }

  /** Sorting a selection of distinct entries by prefix orders it strictly. */
  lemma SelectionIsStrict(selected: seq<PrefixEntry>, entries: seq<PrefixEntry>)
    requires StrictlyByPrefix(entries) && multiset(selected) <= multiset(entries)
    requires SortedBy(selected, ByPrefix())
    ensures StrictlyByPrefix(selected)
  {
    StrictlySortedOnce(entries);
    PartHasNoDuplicates(selected, entries);
    forall i, j | 0 <= i < j < |selected| ensures Less(selected[i].prefix, selected[j].prefix) {
      var a, b := selected[i], selected[j];
      assert ByPrefix()(a, b);
      assert a in multiset(entries) && b in multiset(entries);
      var x :| 0 <= x < |entries| && entries[x] == a;
      var y :| 0 <= y < |entries| && entries[y] == b;
      LessIrreflexive(a.prefix);
    }
  }

  /** Why `s` is rendered and `e` is not: it is busier, or it is an unscanned one that comes earlier. */
  predicate GoesBefore(s: PrefixEntry, e: PrefixEntry) {
    var n := if s.counted.Some? then s.counted.value.objects else 0;
    var m := if e.counted.Some? then e.counted.value.objects else 0;
    if e.coverage != NotScanned
    then s.coverage != NotScanned && (n > m || (n == m && (s.prefix == e.prefix || Less(s.prefix, e.prefix))))
    else s.coverage == NotScanned ==> Less(s.prefix, e.prefix)
  }

  /** Nothing is left out while there is room, and then the quietest, the unscanned ones from the end. */
  ghost predicate FairSelection(selected: seq<PrefixEntry>, entries: seq<PrefixEntry>) {
    && |selected| == (if |entries| < 20 then |entries| else 20)
    && multiset(selected) <= multiset(entries)
    && StrictlyByPrefix(selected)
    && forall e, s :: e in entries && e !in selected && s in selected ==> GoesBefore(s, e)
  }

  /** The two parts of a selection, before they are put in key order. */
  function Busiest(entries: seq<PrefixEntry>): seq<PrefixEntry> {
    Take(SortBy(FlatMap(entries, ScannedField()), ByRank()), TOP_PREFIXES)
  }

  function Filler(entries: seq<PrefixEntry>): seq<PrefixEntry> {
    Take(FlatMap(entries, UnscannedField()), TOP_PREFIXES - |Busiest(entries)|)
  }

  /** The twenty rendered prefixes: the busiest scanned ones, then unscanned ones, in key order. */
  function Select(entries: seq<PrefixEntry>): seq<PrefixEntry> {
    SortBy(Busiest(entries) + Filler(entries), ByPrefix())
  }

  lemma PartsFit(entries: seq<PrefixEntry>)
    ensures multiset(Busiest(entries) + Filler(entries)) <= multiset(entries)
    ensures |Busiest(entries) + Filler(entries)| == Min(TOP_PREFIXES, |entries|)
  {
    hide FlatMap, SortBy;
    FlatMapPartition(entries, ScannedField(), UnscannedField());
    TakeIsSubset(SortBy(FlatMap(entries, ScannedField()), ByRank()), TOP_PREFIXES);
    TakeIsSubset(FlatMap(entries, UnscannedField()), TOP_PREFIXES - |Busiest(entries)|);
  }

  lemma SelectionIsFair(entries: seq<PrefixEntry>)
    requires StrictlyByPrefix(entries)
    ensures FairSelection(Select(entries), entries)
  {
    hide Busiest, Filler, SortBy, StrictlyByPrefix, RanksBefore, PrefixBefore;
    RanksArePreorders();
    PartsFit(entries);
    SortBySorts(Busiest(entries) + Filler(entries), ByPrefix());
    SelectionIsStrict(Select(entries), entries);
    hide Select, GoesBefore;
    forall e, s | e in entries && e !in Select(entries) && s in Select(entries) ensures GoesBefore(s, e) {
      OmittedRanksLast(entries, e, s);
    }
  }

  lemma OmittedRanksLast(entries: seq<PrefixEntry>, e: PrefixEntry, s: PrefixEntry)
    requires StrictlyByPrefix(entries) && e in entries && e !in Select(entries) && s in Select(entries)
    ensures GoesBefore(s, e)
  {
    hide SortBy, FlatMap, Busiest, Filler, StrictlyByPrefix, Less;
    SameElements(Busiest(entries) + Filler(entries), Select(entries));
    if e.coverage != NotScanned {
      OmittedFromBusiest(entries, e);
    } else if s.coverage == NotScanned {
      if s in Busiest(entries) { BusiestAreScanned(entries, s); }
      OmittedFromFiller(entries, e, s);
    }
  }

  lemma BusiestAreScanned(entries: seq<PrefixEntry>, s: PrefixEntry)
    requires s in Busiest(entries)
    ensures s.coverage != NotScanned
  {
    hide FlatMap, SortBy;
    var scanned := FlatMap(entries, ScannedField());
    SameElements(scanned, SortBy(scanned, ByRank()));
    FlatMapMembers(entries, ScannedField(), s);
  }

  /** Picking out the unscanned entries keeps their order. */
  lemma {:induction false} UnscannedStaySorted(entries: seq<PrefixEntry>)
    requires StrictlyByPrefix(entries)
    ensures StrictlyByPrefix(FlatMap(entries, UnscannedField()))
  {
    hide Less;
    if entries != [] {
      UnscannedStaySorted(entries[1..]);
      var rest := FlatMap(entries[1..], UnscannedField());
      forall i | 0 <= i < |rest| ensures Less(entries[0].prefix, rest[i].prefix) {
        FlatMapMembers(entries[1..], UnscannedField(), rest[i]);
        var e :| e in entries[1..] && rest[i] in UnscannedField()(e);
      }
    }
  }

  lemma OmittedFromFiller(entries: seq<PrefixEntry>, e: PrefixEntry, s: PrefixEntry)
    requires StrictlyByPrefix(entries)
    requires e in entries && e.coverage == NotScanned && e !in Filler(entries) && s in Filler(entries)
    ensures Less(s.prefix, e.prefix)
  {
    hide FlatMap, Busiest, Less;
    var unscanned := FlatMap(entries, UnscannedField());
    UnscannedStaySorted(entries);
    FlatMapMembers(entries, UnscannedField(), e);
    assert e in UnscannedField()(e);
    var y :| 0 <= y < |unscanned| && unscanned[y] == e;
    var x :| 0 <= x < |Filler(entries)| && Filler(entries)[x] == s;
    var filler := Filler(entries);
    assert forall i :: 0 <= i < |filler| ==> unscanned[i] == filler[i] && filler[i] in filler;
  }

  lemma OmittedFromBusiest(entries: seq<PrefixEntry>, e: PrefixEntry)
    requires e in entries && e !in Busiest(entries) && e.coverage != NotScanned
    ensures Filler(entries) == []
    ensures forall s :: s in Busiest(entries) ==> s.coverage != NotScanned && RanksBefore(s, e)
  {
    hide FlatMap, SortBy, RanksBefore;
    var scanned := FlatMap(entries, ScannedField());
    var sorted := SortBy(scanned, ByRank());
    RanksArePreorders();
    SortBySorts(scanned, ByRank());
    SameElements(scanned, sorted);
    FlatMapMembers(entries, ScannedField(), e);
    assert e in ScannedField()(e);
    var j :| 0 <= j < |sorted| && sorted[j] == e;
    var busiest := Busiest(entries);
    assert forall i :: 0 <= i < |busiest| ==> sorted[i] == busiest[i] && busiest[i] in busiest;
    forall s | s in busiest ensures s.coverage != NotScanned && RanksBefore(s, e) {
      var i :| 0 <= i < |busiest| && busiest[i] == s;
      assert ByRank()(sorted[i], sorted[j]);
      FlatMapMembers(entries, ScannedField(), s);
    }
  }

  // ------------------------------------------------- extensions and largest

  predicate CountsMore(a: ExtensionEntry, b: ExtensionEntry) {
    a.stat.objects > b.stat.objects || (a.stat.objects == b.stat.objects && LessEq(a.ext, b.ext))
  }

  function ByCount(): (ExtensionEntry, ExtensionEntry) -> bool {
    (a: ExtensionEntry, b: ExtensionEntry) => CountsMore(a, b)
  }

  function BySize(): (Obj, Obj) -> bool { (a: Obj, b: Obj) => !Bigger(b, a) }

  lemma CountsArePreorders()
    ensures TotalPreorder(ByCount()) && TotalPreorder(BySize())
  {
    forall a: ExtensionEntry, b: ExtensionEntry ensures CountsMore(a, b) || CountsMore(b, a) {
      LessTotal(a.ext, b.ext);
    }
    forall a: ExtensionEntry, b: ExtensionEntry, c: ExtensionEntry | CountsMore(a, b) && CountsMore(b, c)
      ensures CountsMore(a, c)
    {
      if Less(a.ext, b.ext) && Less(b.ext, c.ext) { LessTransitive(a.ext, b.ext, c.ext); }
    }
    forall a: Obj, b: Obj ensures !Bigger(b, a) || !Bigger(a, b) {
      if a.size == b.size && Less(a.key, b.key) { LessAsymmetric(a.key, b.key); }
    }
    forall a: Obj, b: Obj, c: Obj | !Bigger(b, a) && !Bigger(c, b) ensures !Bigger(c, a) {
      LessTotal(a.key, b.key);
      LessTotal(b.key, c.key);
      if a.size == b.size == c.size && Less(a.key, c.key) {
        if Less(b.key, a.key) { LessTransitive(b.key, a.key, c.key); }
      }
    }
  }

  /** By count, and extensions with the same count in order. */
  ghost predicate MostFrequentFirst(entries: seq<ExtensionEntry>) {
    forall i, j :: 0 <= i < j < |entries| ==>
      || entries[i].stat.objects > entries[j].stat.objects
      || (entries[i].stat.objects == entries[j].stat.objects && Less(entries[i].ext, entries[j].ext))
  }

  lemma SortedIsMostFrequentFirst(entries: seq<ExtensionEntry>)
    requires SortedBy(entries, ByCount()) && DistinctExtensions(entries)
    ensures MostFrequentFirst(entries)
  {
    forall i, j | 0 <= i < j < |entries| ensures ByCount()(entries[i], entries[j]) { }
  }

  ghost predicate DistinctExtensions(entries: seq<ExtensionEntry>) {
    forall i, j :: 0 <= i < j < |entries| ==> entries[i].ext != entries[j].ext
  }

  /** One entry per extension of the table, most frequent first. */
  method RankExtensions(stats: map<string, Stat>) returns (entries: seq<ExtensionEntry>)
    ensures |entries| == |stats|
    ensures forall e :: e in entries <==> e.ext in stats && e.stat == stats[e.ext]
    ensures MostFrequentFirst(entries) && SortedBy(entries, ByCount()) && DistinctExtensions(entries)
  {
    entries := [];
    var keys := SortedSet(stats.Keys);
    var i := 0;
    while i < |keys|
      invariant 0 <= i <= |keys| && |entries| == i
      invariant forall j :: 0 <= j < i ==> keys[j] in stats && entries[j] == ExtensionEntry(keys[j], stats[keys[j]])
    {
      assert keys[i] in stats;
      entries := entries + [ExtensionEntry(keys[i], stats[keys[i]])];
      i := i + 1;
    }
    forall e: ExtensionEntry ensures e in entries <==> e.ext in stats && e.stat == stats[e.ext] {
      if e.ext in stats && e.stat == stats[e.ext] {
        assert e.ext in keys;
        var j :| 0 <= j < |keys| && keys[j] == e.ext;
        assert entries[j] == e;
      }
    }
    assert DistinctExtensions(entries) by {
      forall i, j | 0 <= i < j < |entries| ensures entries[i].ext != entries[j].ext {
        LessIrreflexive(keys[i]);
      }
    }
    CountsArePreorders();
    SortBySorts(entries, ByCount());
    SameElements(entries, SortBy(entries, ByCount()));
    StaysDistinct(entries, SortBy(entries, ByCount()), stats);
    entries := SortBy(entries, ByCount());
    SortedIsMostFrequentFirst(entries);
  }

  lemma StaysDistinct(entries: seq<ExtensionEntry>, sorted: seq<ExtensionEntry>, stats: map<string, Stat>)
    requires multiset(sorted) == multiset(entries) && DistinctExtensions(entries)
    requires forall e :: e in entries ==> e.ext in stats && e.stat == stats[e.ext]
    ensures DistinctExtensions(sorted)
  {
    SameElements(entries, sorted);
    PartHasNoDuplicates(sorted, entries);
    forall i, j | 0 <= i < j < |sorted| ensures sorted[i].ext != sorted[j].ext {
      assert sorted[i] in entries && sorted[j] in entries;
    }
  }

  /** The ten biggest visited objects, biggest first. */
  ghost predicate TopTen(largest: seq<Obj>, visited: seq<Obj>) {
    && |largest| == (if |visited| < 10 then |visited| else 10)
    && (forall i, j :: 0 <= i < j < |largest| ==>
          || largest[i].size > largest[j].size
          || (largest[i].size == largest[j].size && Less(largest[j].key, largest[i].key)))
    && (forall o :: o in largest ==> o in visited)
    && (forall o, h :: o in visited && o !in largest && h in largest ==>
          h.size > o.size || (h.size == o.size && Less(o.key, h.key)))
  }

  lemma SortedHeapIsTopTen(heap: seq<Obj>, visited: seq<Obj>)
    requires Biggest(heap, visited, TOP_LARGEST)
    ensures TopTen(SortBy(heap, BySize()), visited)
  {
    hide SortBy;
    CountsArePreorders();
    SortBySorts(heap, BySize());
    var largest := SortBy(heap, BySize());
    SameElements(heap, largest);
    forall i, j | 0 <= i < j < |largest|
      ensures largest[i].size > largest[j].size
           || (largest[i].size == largest[j].size && Less(largest[j].key, largest[i].key))
    {
      assert BySize()(largest[i], largest[j]);
      if largest[i].key == largest[j].key { NoTwins(heap, largest, i, j); }
      BiggerIsTotal(largest[i], largest[j]);
    }
  }

  lemma NoTwins(heap: seq<Obj>, largest: seq<Obj>, i: nat, j: nat)
    requires DistinctKeys(heap) && multiset(largest) == multiset(heap) && i < j < |largest|
    ensures largest[i].key != largest[j].key
  {
    SameElements(heap, largest);
    assert largest[i] in heap && largest[j] in heap;
    assert NoDuplicates(heap) by {
      forall x, y | 0 <= x < y < |heap| ensures heap[x] != heap[y] { assert heap[x].key != heap[y].key; }
    }
    PartHasNoDuplicates(largest, heap);
    var x :| 0 <= x < |heap| && heap[x] == largest[i];
    var y :| 0 <= y < |heap| && heap[y] == largest[j];
  }

  // ------------------------------------------------- the report

  /** What the response says about the scan as a whole. */
  ghost predicate TotalsHold(r: Report, objs: seq<Obj>, cap: nat)
    requires cap >= 1
  {
    && r.scannedObjects <= |objs| && r.scannedObjects <= cap
    && (if r.complete then r.scannedObjects == |objs| else r.scannedObjects == cap)
    && r.scannedBytes == Tally(objs[..r.scannedObjects], Everything()).bytes
    && r.total == (if r.complete then Some(Stat(|objs|, Tally(objs, Everything()).bytes)) else None)
    && r.scanStoppedAt == (if r.complete then None else Some(objs[r.scannedObjects - 1].key))
  }

  /** The known child prefixes: what step 1 listed together with what the walk met. */
  ghost predicate Known(entries: seq<PrefixEntry>, prefixes: seq<Key>, stats: map<Key, Stat>) {
    && StrictlyByPrefix(entries)
    && (forall e :: e in entries ==> e.prefix in prefixes || e.prefix in stats)
    && (forall p :: p in prefixes || p in stats ==> exists e :: e in entries && e.prefix == p)
  }

  /** One entry per known child prefix, in key order. */
  method Classify(prefixes: seq<Key>, complete: bool, stop: Option<Key>, stats: map<Key, Stat>)
    returns (entries: seq<PrefixEntry>)
    ensures Known(entries, prefixes, stats)
    ensures forall e :: e in entries ==> e == MakeEntry(e.prefix, complete, stop, stats)
  {
    hide CoverageOf, CountOf, Less;
    var all := SortedSet((set p | p in prefixes) + stats.Keys);
    entries := [];
    var i := 0;
    while i < |all|
      invariant 0 <= i <= |all| && |entries| == i
      invariant forall j :: 0 <= j < i ==> entries[j] == MakeEntry(all[j], complete, stop, stats)
    {
      entries := entries + [MakeEntry(all[i], complete, stop, stats)];
      i := i + 1;
    }
    SortedPrefixesAreKnown(entries, all, prefixes, stats);
  }

  lemma SortedPrefixesAreKnown(entries: seq<PrefixEntry>, all: seq<Key>, prefixes: seq<Key>, stats: map<Key, Stat>)
    requires StrictlySorted(all) && forall p :: p in all <==> p in prefixes || p in stats
    requires |entries| == |all| && forall j :: 0 <= j < |all| ==> entries[j].prefix == all[j]
    ensures Known(entries, prefixes, stats)
  {
    hide Less;
    forall i, j | 0 <= i < j < |entries| ensures Less(entries[i].prefix, entries[j].prefix) {
      assert Less(all[i], all[j]);
    }
    forall e | e in entries ensures e.prefix in prefixes || e.prefix in stats {
      var j :| 0 <= j < |entries| && entries[j] == e;
      assert all[j] in all;
    }
    forall p | p in prefixes || p in stats ensures exists e :: e in entries && e.prefix == p {
      var j :| 0 <= j < |all| && all[j] == p;
      assert entries[j] in entries;
    }
  }

  /** Labels of a sorted run of prefixes, and their promises, all at once. */
  ghost predicate Truthful(entries: seq<PrefixEntry>, objs: seq<Obj>, scanned: nat)
    requires scanned <= |objs|
  {
    && (forall e :: e in entries ==> Honest(e, objs, scanned))
    && (forall i, j :: 0 <= i < j < |entries| ==>
          && Rank(entries[i].coverage) <= Rank(entries[j].coverage)
          && !(entries[i].coverage.Partial? && entries[j].coverage.Partial?))
  }

  lemma EntriesAreTruthful(entries: seq<PrefixEntry>, objs: seq<Obj>, scanned: nat, prefix: Key,
                           complete: bool, stop: Option<Key>, stats: map<Key, Stat>)
    requires SortedKeys(objs) && scanned <= |objs| && StoppedAt(complete, stop, objs, scanned)
    requires FolderTable(stats, objs[..scanned], prefix) && StrictlyByPrefix(entries)
    requires forall e :: e in entries ==> IsChild(e.prefix, prefix) && e == MakeEntry(e.prefix, complete, stop, stats)
    ensures Truthful(entries, objs, scanned)
  {
    hide FolderTable, Honest, CoverageOf, Rank, IsChild, StoppedAt;
    forall e | e in entries ensures Honest(e, objs, scanned) {
      EveryLabelIsHonest(objs, scanned, prefix, e.prefix, complete, stop, stats);
    }
    forall i, j | 0 <= i < j < |entries|
      ensures && Rank(entries[i].coverage) <= Rank(entries[j].coverage)
              && !(entries[i].coverage.Partial? && entries[j].coverage.Partial?)
    {
      assert entries[i] in entries && entries[j] in entries;
      LabelsAdvance(entries[i].prefix, entries[j].prefix, prefix, complete, stop);
    }
  }

  /** Step 1 only lists child prefixes, and all of them when it finishes. */
  lemma ListedPrefixes(objs: seq<Obj>, prefix: Key, upto: nat)
    requires upto <= |Level(objs, prefix)|
    ensures forall p :: p in CommonPrefixes(Level(objs, prefix)[..upto]) ==>
              IsChild(p, prefix) && Folder(p) in Level(objs, prefix)
    ensures upto == |Level(objs, prefix)| ==>
              forall p :: Folder(p) in Level(objs, prefix) ==> p in CommonPrefixes(Level(objs, prefix)[..upto])
  {
    hide FlatMap, Level;
    var level := Level(objs, prefix);
    LevelBelongs(objs, prefix);
    forall p ensures p in CommonPrefixes(level[..upto]) <==> Folder(p) in level[..upto] {
      FlatMapMembers(level[..upto], FolderField(), p);
      if Folder(p) in level[..upto] { assert p in FolderField()(Folder(p)); }
    }
    forall p | Folder(p) in level[..upto] ensures IsChild(p, prefix) && Folder(p) in level {
      assert Belongs(Folder(p), prefix);
    }
    if upto == |level| { assert level[..upto] == level; }
  }

  /** The folders the walk met are child folders of the level. */
  lemma MetPrefixes(objs: seq<Obj>, prefix: Key, scanned: nat, stats: map<Key, Stat>)
    requires scanned <= |Real(Under(objs, prefix))|
    requires FolderTable(stats, Real(Under(objs, prefix))[..scanned], prefix)
    ensures forall p :: p in stats ==> IsChild(p, prefix) && Folder(p) in Level(objs, prefix)
  {
    hide Level, Real, Under, Tally, EntryOf;
    forall p | p in stats ensures Folder(p) in Level(objs, prefix) {
      var i := FolderVisited(stats, Real(Under(objs, prefix))[..scanned], prefix, p);
      var o := Real(Under(objs, prefix))[i];
      RealMembers(Under(objs, prefix), o);
      UnderMembers(objs, prefix, o);
      ChildOwnsItsKeys(p, o, prefix);
      LevelMembers(objs, prefix, Folder(p));
    }
  }

  /**
   * What the response says about extensions: how many there are, and the most
   * frequent ones, each once and counted exactly over what was visited.
   */
  ghost predicate ExtensionsHold(extensions: seq<ExtensionEntry>, count: nat, visited: seq<Obj>, prefix: Key,
                                 lower: string -> string) {
    var all := ExtensionsOf(visited, prefix, lower);
    && count == |all| && |extensions| == (if count < 20 then count else 20)
    && MostFrequentFirst(extensions) && DistinctExtensions(extensions)
    && (forall e :: e in extensions ==>
          e.ext in all && e.stat == Tally(visited, HasExtension(e.ext, prefix, lower)))
    && (forall x, e :: x in all && e in extensions && (forall f :: f in extensions ==> f.ext != x) ==>
          var n := Tally(visited, HasExtension(x, prefix, lower)).objects;
          e.stat.objects > n || (e.stat.objects == n && Less(e.ext, x)))
  }

  method RenderExtensions(stats: map<string, Stat>, ghost visited: seq<Obj>, ghost prefix: Key,
                          ghost lower: string -> string)
    returns (extensions: seq<ExtensionEntry>)
    requires ExtensionTable(stats, visited, prefix, lower)
    ensures ExtensionsHold(extensions, |stats|, visited, prefix, lower)
  {
    var all := RankExtensions(stats);
    extensions := Take(all, TOP_EXTENSIONS);
    RenderedAreCounted(all, stats, visited, prefix, lower);
    OmittedAreRarer(all, stats, visited, prefix, lower);
    TakeStaysRanked(all, TOP_EXTENSIONS);
    assert |stats| == |stats.Keys|;
    hide Tally, ExtensionsOf, CountsMore, HasExtension, Less, SortedBy, MostFrequentFirst, DistinctExtensions;
  }

  lemma TakeStaysRanked(all: seq<ExtensionEntry>, n: nat)
    requires MostFrequentFirst(all) && DistinctExtensions(all)
    ensures MostFrequentFirst(Take(all, n)) && DistinctExtensions(Take(all, n))
  {
  }

  lemma RenderedAreCounted(all: seq<ExtensionEntry>, stats: map<string, Stat>, visited: seq<Obj>, prefix: Key,
                           lower: string -> string)
    requires ExtensionTable(stats, visited, prefix, lower)
    requires forall e :: e in all <==> e.ext in stats && e.stat == stats[e.ext]
    ensures forall e :: e in Take(all, TOP_EXTENSIONS) ==>
              && e.ext in ExtensionsOf(visited, prefix, lower)
              && e.stat == Tally(visited, HasExtension(e.ext, prefix, lower))
  {
    hide Tally, ExtensionsOf, HasExtension;
    forall e | e in Take(all, TOP_EXTENSIONS) ensures e in all { }
  }

  lemma OmittedAreRarer(all: seq<ExtensionEntry>, stats: map<string, Stat>, visited: seq<Obj>, prefix: Key,
                        lower: string -> string)
    requires ExtensionTable(stats, visited, prefix, lower) && MostFrequentFirst(all)
    requires forall e :: e in all <==> e.ext in stats && e.stat == stats[e.ext]
    ensures forall x, e :: x in ExtensionsOf(visited, prefix, lower) && e in Take(all, TOP_EXTENSIONS)
                           && (forall f :: f in Take(all, TOP_EXTENSIONS) ==> f.ext != x) ==>
              var n := Tally(visited, HasExtension(x, prefix, lower)).objects;
              e.stat.objects > n || (e.stat.objects == n && Less(e.ext, x))
  {
    hide Tally, ExtensionsOf, HasExtension, Less, MostFrequentFirst, Take;
    forall x, e | x in ExtensionsOf(visited, prefix, lower) && e in Take(all, TOP_EXTENSIONS)
                  && (forall f :: f in Take(all, TOP_EXTENSIONS) ==> f.ext != x)
      ensures var n := Tally(visited, HasExtension(x, prefix, lower)).objects;
              e.stat.objects > n || (e.stat.objects == n && Less(e.ext, x))
    {
      OmittedIsRarer(all, e, ExtensionEntry(x, stats[x]));
    }
  }

  lemma OmittedIsRarer(all: seq<ExtensionEntry>, e: ExtensionEntry, omitted: ExtensionEntry)
    requires MostFrequentFirst(all) && e in Take(all, TOP_EXTENSIONS)
    requires omitted in all && forall f :: f in Take(all, TOP_EXTENSIONS) ==> f.ext != omitted.ext
    ensures e.stat.objects > omitted.stat.objects
         || (e.stat.objects == omitted.stat.objects && Less(e.ext, omitted.ext))
  {
    hide Less;
    var kept := Take(all, TOP_EXTENSIONS);
    var x :| 0 <= x < |kept| && kept[x] == e;
    var y :| 0 <= y < |all| && all[y] == omitted;
    assert forall i :: 0 <= i < |kept| ==> all[i] == kept[i] && kept[i] in kept;
    assert x < y;
  }

  /** Everything the report promises about the bucket it was made from. */
  ghost predicate ReportHolds(r: Report, objs: seq<Obj>, cap: nat, prefix: Key, lower: string -> string)
    requires cap >= 1
  {
    && TotalsHold(r, objs, cap)
    && Truthful(r.prefixes, objs, r.scannedObjects)
    && r.rootObjects == Tally(objs[..r.scannedObjects], AtRoot(prefix)).objects
    && ExtensionsHold(r.extensions, r.extensionCount, objs[..r.scannedObjects], prefix, lower)
    && TopTen(r.largest, objs[..r.scannedObjects])
    && ModifiedRange(r.oldest, r.newest, objs[..r.scannedObjects])
    && r.prefixesTruncated == (r.prefixCount > 20)
    && r.extensionsTruncated == (r.extensionCount > 20)
  }

  function Cap(maxKeys: int): nat {
    if maxKeys < MIN_SUMMARY_MAX_KEYS then MIN_SUMMARY_MAX_KEYS else maxKeys
  }

  /** The objects a summary is about. */
  ghost function Subject(bucket: map<Key, Meta>, prefix: Key): (objs: seq<Obj>)
    ensures SortedKeys(objs)
  {
    UnderIsSorted(Enumerate(bucket), prefix);
    RealIsSorted(Under(Enumerate(bucket), prefix));
    Real(Under(Enumerate(bucket), prefix))
  }

  /**
   * Where the walk stopped decides the labels: partial is the folder it stopped
   * in, not scanned are those behind it; a finished walk leaves all complete.
   */
  ghost predicate Labelled(entries: seq<PrefixEntry>, complete: bool, stop: Option<Key>) {
    forall e :: e in entries ==>
      if complete then e.coverage.Complete? else
        && stop.Some?
        && (e.coverage.Partial? <==> e.prefix <= stop.value)
        && (e.coverage.NotScanned? <==> !(e.prefix <= stop.value) && Less(stop.value, e.prefix))
  }

  lemma LabelsAreDecided(entries: seq<PrefixEntry>, complete: bool, stop: Option<Key>, stats: map<Key, Stat>)
    requires complete || stop.Some?
    requires forall e :: e in entries ==> e == MakeEntry(e.prefix, complete, stop, stats)
    ensures Labelled(entries, complete, stop)
  {
    hide CountOf, Less;
    forall e | e in entries && stop.Some? && !(e.prefix <= stop.value)
      ensures Less(e.prefix, stop.value) <==> !Less(stop.value, e.prefix)
    {
      LessTotal(e.prefix, stop.value);
      if Less(e.prefix, stop.value) { LessAsymmetric(e.prefix, stop.value); }
    }
  }

  /** The classified prefixes, before the cut to twenty. */
  ghost predicate EntriesHold(entries: seq<PrefixEntry>, r: Report, bucket: map<Key, Meta>, prefix: Key) {
    && r.scannedObjects <= |Subject(bucket, prefix)|
    && Truthful(entries, Subject(bucket, prefix), r.scannedObjects)
    && FairSelection(r.prefixes, entries)
    && Labelled(entries, r.complete, r.scanStoppedAt)
    && r.prefixCount == |entries|
    && (forall e :: e in entries ==> Folder(e.prefix) in Level(Enumerate(bucket), prefix))
    && (r.prefixListComplete ==> forall p :: Folder(p) in Level(Enumerate(bucket), prefix) ==>
                                   exists e :: e in entries && e.prefix == p)
  }

  /**
   * `summarize_bucket_for_role` below the access check.  The ghost results are
   * the classified prefixes before the top-twenty cut, and the walk.
   */
  method Summarize(bucket: map<Key, Meta>, prefix: Key, maxKeys: int, prefixScanPages: int, full: bool,
                   lower: string -> string)
    returns (r: Report, ghost entries: seq<PrefixEntry>, ghost w: Walk)
    ensures ReportHolds(r, Subject(bucket, prefix), if maxKeys < 1000 then 1000 else maxKeys, prefix, lower)
    ensures EntriesHold(entries, r, bucket, prefix)
    ensures Describes(w, Subject(bucket, prefix)[..r.scannedObjects], prefix, lower)
    ensures r.extensionCount == |w.extStats|
    ensures !r.complete ==>
              MoreBehind(Under(Enumerate(bucket), prefix), if maxKeys < 1000 then 1000 else maxKeys)
    ensures full ==> (r.prefixListComplete
                      <==> |Level(Enumerate(bucket), prefix)|
                           <= if prefixScanPages < 1 then 1000 else 1000 * prefixScanPages)
  {
    ghost var objs := Subject(bucket, prefix);
    var cap := Cap(maxKeys);
    var level := Level(Enumerate(bucket), prefix);
    var prefixes, listComplete;
    ghost var upto;
    hide FlatMap, Level, Enumerate, Real, Under, Tally, Total, Biggest, FolderTable, ExtensionTable, ModifiedRange;
    hide MoreBehind, Truthful, FairSelection, ExtensionsHold, TopTen, Select, SortBy, CoverageOf, IsChild, Labelled;
    prefixes, listComplete, upto := EnumeratePrefixes(level, prefixScanPages, full);
    ListedPrefixes(Enumerate(bucket), prefix, upto);
    var walk := WalkObjects(bucket, prefix, cap, lower);
    w := walk;
    MetPrefixes(Enumerate(bucket), prefix, walk.scannedObjects, walk.prefixStats);
    var stop := if walk.complete then None else walk.lastScannedKey;
    var all := Classify(prefixes, walk.complete, stop, walk.prefixStats);
    EntriesAreTruthful(all, objs, walk.scannedObjects, prefix, walk.complete, stop, walk.prefixStats);
    entries := all;
    LabelsAreDecided(all, walk.complete, stop, walk.prefixStats);
    SelectionIsFair(all);
    SelectionIsTruthful(Select(all), all, objs, walk.scannedObjects);
    var extensions := RenderExtensions(walk.extStats, objs[..walk.scannedObjects], prefix, lower);
    SortedHeapIsTopTen(walk.largest, objs[..walk.scannedObjects]);
    assert walk.complete ==> objs[..walk.scannedObjects] == objs;
    r := Report(
      walk.complete, walk.scannedObjects, walk.scannedBytes,
      if walk.complete then Some(Stat(walk.scannedObjects, walk.scannedBytes)) else None,
      stop, walk.rootObjects,
      Select(all), |all|, listComplete, |all| > TOP_PREFIXES,
      extensions, |walk.extStats|, |walk.extStats| > TOP_EXTENSIONS,
      SortBy(walk.largest, BySize()), walk.oldest, walk.newest);
  }

  /** The selection keeps the promises made about all entries. */
  lemma SelectionIsTruthful(selected: seq<PrefixEntry>, entries: seq<PrefixEntry>, objs: seq<Obj>, scanned: nat)
    requires scanned <= |objs| && Truthful(entries, objs, scanned)
    requires FairSelection(selected, entries) && StrictlyByPrefix(entries)
    ensures Truthful(selected, objs, scanned)
  {
    hide Honest, Rank;
    forall e | e in selected ensures e in entries { assert e in multiset(selected); }
    forall i, j | 0 <= i < j < |selected|
      ensures && Rank(selected[i].coverage) <= Rank(selected[j].coverage)
              && !(selected[i].coverage.Partial? && selected[j].coverage.Partial?)
    {
      assert selected[i] in selected && selected[j] in selected;
      var x :| 0 <= x < |entries| && entries[x] == selected[i];
      var y :| 0 <= y < |entries| && entries[y] == selected[j];
      PrefixOrderIsIndexOrder(entries, x, y);
    }
  }

  lemma PrefixOrderIsIndexOrder(entries: seq<PrefixEntry>, x: nat, y: nat)
    requires StrictlyByPrefix(entries) && x < |entries| && y < |entries|
    requires Less(entries[x].prefix, entries[y].prefix)
    ensures x < y
  {
    LessIrreflexive(entries[x].prefix);
    if y < x { LessAsymmetric(entries[y].prefix, entries[x].prefix); }
  }
}
