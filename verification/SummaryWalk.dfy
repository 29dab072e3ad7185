/**
 * Step 2 of the bucket summary: the capped recursive walk and everything it
 * accumulates, object by object.
 */
module SummaryWalk {
  import opened Keys
  import opened ObjectStore
  import opened Listing
  import opened Tallies
  import opened Wrappers

  const TOP_LARGEST := 10
  const MAX_EXTENSION_LENGTH := 16

  /** The local variables of the walk. */
  datatype Walk = Walk(
    scannedObjects: nat, scannedBytes: nat, rootObjects: nat, complete: bool,
    oldest: Option<int>, newest: Option<int>, lastScannedKey: Option<Key>,
    extStats: map<string, Stat>, prefixStats: map<Key, Stat>, largest: seq<Obj>)

  const NOTHING_SCANNED := Walk(0, 0, 0, true, None, None, None, map[], map[], [])

  // ------------------------------------------------- what is counted

  function InFolder(p: Key): Obj -> bool { (o: Obj) => p <= o.key }
  function AtRoot(prefix: Key): Obj -> bool { (o: Obj) => prefix <= o.key && EntryOf(o, prefix).File? }
  function Everything(): Obj -> bool { (o: Obj) => true }
  function HasExtension(ext: string, prefix: Key, lower: string -> string): Obj -> bool {
    (o: Obj) => Extension(o.key, prefix, lower) == ext
  }

  /** Python's `s.rsplit(c, 1)[-1]`: what follows the last `c`. */
  function AfterLast(s: string, c: char): string {
    if s == [] || s[|s| - 1] == c then [] else AfterLast(s[..|s| - 1], c) + [s[|s| - 1]]
  }

  function Extension(key: Key, prefix: Key, lower: string -> string): string {
    var basename := AfterLast(From(key, |prefix|), SLASH);
    if '.' in basename && basename[|basename| - 1] != '.' then
      var ext := lower(AfterLast(basename, '.'));
      if |ext| <= MAX_EXTENSION_LENGTH then ext else ext[..MAX_EXTENSION_LENGTH]
    else "(none)"
  }

  lemma {:induction false} AfterLastIs(before: string, c: char, after: string)
    requires c !in after && (before == [] || before[|before| - 1] == c)
    ensures AfterLast(before + after, c) == after
  {
    var s := before + after;
    if after != [] {
      var n := |after| - 1;
      assert s[|s| - 1] == after[n] && after[n] in after;
      assert s[..|s| - 1] == before + after[..n];
      AfterLastIs(before, c, after[..n]);
      assert after == after[..n] + [after[n]];
    } else {
      assert s == before;
    }
  }

  /**
   * What the extension of an object is: `prefix` and folders, then a name; what
   * follows the name's last dot, folded and cut at 16 characters.
   */
  lemma ExtensionOfName(prefix: Key, folders: string, stem: string, ext: string, lower: string -> string)
    requires folders == [] || folders[|folders| - 1] == SLASH
    requires SLASH !in stem && SLASH !in ext && '.' !in ext && ext != []
    ensures Extension(prefix + (folders + (stem + "." + ext)), prefix, lower)
         == if |lower(ext)| <= 16 then lower(ext) else lower(ext)[..16]
  {
    var name := stem + "." + ext;
    assert From(prefix + (folders + name), |prefix|) == folders + name;
    AfterLastIs(folders, SLASH, name);
    AfterLastIs(stem + ".", '.', ext);
    assert name[|name| - 1] == ext[|ext| - 1] && ext[|ext| - 1] in ext && name[|stem|] == '.';
    hide AfterLast;
  }

  /** A name without a dot, or that ends in one, has none. */
  lemma NoExtension(prefix: Key, folders: string, name: string, lower: string -> string)
    requires folders == [] || folders[|folders| - 1] == SLASH
    requires SLASH !in name && ('.' !in name || name[|name| - 1] == '.')
    ensures Extension(prefix + (folders + name), prefix, lower) == "(none)"
  {
    assert From(prefix + (folders + name), |prefix|) == folders + name;
    AfterLastIs(folders, SLASH, name);
    hide AfterLast;
  }

  predicate AllUnder(objs: seq<Obj>, prefix: Key) {
    forall i :: 0 <= i < |objs| ==> prefix <= objs[i].key
  }

  // ------------------------------------------------- per-folder table

  /** The table holds exact counts for exactly the child folders visited so far. */
  ghost predicate FolderTable(m: map<Key, Stat>, visited: seq<Obj>, prefix: Key) {
    && (forall p :: p in m ==> IsChild(p, prefix) && m[p] == Tally(visited, InFolder(p)) && m[p].objects > 0)
    && (forall i, p :: 0 <= i < |visited| && IsChild(p, prefix) && p <= visited[i].key ==> p in m)
  }

  function CountOf<K>(m: map<K, Stat>, k: K): Stat {
    if k in m then m[k] else Stat(0, 0)
  }

  lemma FolderCount(m: map<Key, Stat>, visited: seq<Obj>, prefix: Key, p: Key)
    requires FolderTable(m, visited, prefix) && IsChild(p, prefix)
    ensures CountOf(m, p) == Tally(visited, InFolder(p))
  {
    if p !in m { TallyNone(visited, InFolder(p)); }
  }

  /** Every folder of the table holds a visited object. */
  lemma FolderVisited(m: map<Key, Stat>, visited: seq<Obj>, prefix: Key, p: Key) returns (i: nat)
    requires FolderTable(m, visited, prefix) && p in m
    ensures i < |visited| && p <= visited[i].key
  {
    if j :| 0 <= j < |visited| && p <= visited[j].key {
      i := j;
    } else {
      TallyNone(visited, InFolder(p));
      assert false;
    }
  }

  lemma FolderStep(m: map<Key, Stat>, visited: seq<Obj>, prefix: Key, o: Obj)
    requires FolderTable(m, visited, prefix) && prefix <= o.key
    ensures EntryOf(o, prefix).File? ==> FolderTable(m, visited + [o], prefix)
    ensures EntryOf(o, prefix).Folder? ==>
              FolderTable(Bump(m, EntryOf(o, prefix).prefix, o.size), visited + [o], prefix)
  {
    hide Tally, EntryOf;
    var e := EntryOf(o, prefix);
    EntryShape(o, prefix);
    var m' := if e.Folder? then Bump(m, e.prefix, o.size) else m;
    forall p | p in m' ensures IsChild(p, prefix) && m'[p] == Tally(visited + [o], InFolder(p)) && m'[p].objects > 0 {
      FolderCount(m, visited, prefix, p);
      TallyStep(visited, o, InFolder(p));
      ChildOwnsItsKeys(p, o, prefix);
    }
    forall i, p | 0 <= i < |visited + [o]| && IsChild(p, prefix) && p <= (visited + [o])[i].key ensures p in m' {
      if i == |visited| { ChildOwnsItsKeys(p, o, prefix); }
    }
  }

  // ------------------------------------------------- per-extension table

  /** The extensions of the visited objects. */
  function ExtensionsOf(visited: seq<Obj>, prefix: Key, lower: string -> string): set<string> {
    set o | o in visited :: Extension(o.key, prefix, lower)
  }

  ghost predicate ExtensionTable(m: map<string, Stat>, visited: seq<Obj>, prefix: Key, lower: string -> string) {
    && (forall x :: x in m ==> m[x] == Tally(visited, HasExtension(x, prefix, lower)))
    && m.Keys == ExtensionsOf(visited, prefix, lower)
  }

  lemma ExtensionStep(m: map<string, Stat>, visited: seq<Obj>, prefix: Key, lower: string -> string, o: Obj)
    requires ExtensionTable(m, visited, prefix, lower)
    ensures ExtensionTable(Bump(m, Extension(o.key, prefix, lower), o.size), visited + [o], prefix, lower)
  {
    hide Tally, Extension;
    var ext := Extension(o.key, prefix, lower);
    var m' := Bump(m, ext, o.size);
    assert m'.Keys == m.Keys + {ext};
    assert ExtensionsOf(visited + [o], prefix, lower) == ExtensionsOf(visited, prefix, lower) + {ext} by {
      assert forall v :: v in visited + [o] <==> v in visited || v == o;
    }
    forall x | x in m' ensures m'[x] == Tally(visited + [o], HasExtension(x, prefix, lower)) {
      TallyStep(visited, o, HasExtension(x, prefix, lower));
      if x !in m {
        forall i | 0 <= i < |visited| ensures !HasExtension(x, prefix, lower)(visited[i]) {
          assert visited[i] in visited && Extension(visited[i].key, prefix, lower) in m;
        }
        TallyNone(visited, HasExtension(x, prefix, lower));
      }
    }
  }

  // ------------------------------------------------- the bounded heap

  /** Python's tuple order on (size, key); keys never tie. */
  predicate Bigger(a: Obj, b: Obj) {
    a.size > b.size || (a.size == b.size && Less(b.key, a.key))
  }

  lemma BiggerIsTotal(a: Obj, b: Obj)
    requires a.key != b.key
    ensures Bigger(a, b) != Bigger(b, a)
  {
    LessTotal(a.key, b.key);
    if Less(a.key, b.key) { LessAsymmetric(a.key, b.key); } else { LessAsymmetric(b.key, a.key); }
  }

  lemma BiggerIsTransitive(a: Obj, b: Obj, c: Obj)
    requires Bigger(a, b) && Bigger(b, c)
    ensures Bigger(a, c)
  {
    if a.size == b.size == c.size { LessTransitive(c.key, b.key, a.key); }
  }

  predicate DistinctKeys(objs: seq<Obj>) {
    forall i, j :: 0 <= i < j < |objs| ==> objs[i].key != objs[j].key
  }

  /** The heap holds the `k` biggest of the visited objects: by size, and among equal sizes by later key. */
  ghost predicate Biggest(heap: seq<Obj>, visited: seq<Obj>, k: nat) {
    && |heap| == (if k < |visited| then k else |visited|)
    && DistinctKeys(heap)
    && (forall h :: h in heap ==> h in visited)
    && (forall v :: v in visited && v !in heap ==>
          |heap| == k && forall h :: h in heap ==> h.size > v.size || (h.size == v.size && Less(v.key, h.key)))
  }

  /** `heapq.heappop`: the smallest entry leaves. */
  method PopSmallest(heap: seq<Obj>) returns (rest: seq<Obj>, ghost smallest: Obj)
    requires heap != [] && DistinctKeys(heap)
    ensures |rest| == |heap| - 1 && DistinctKeys(rest)
    ensures smallest in heap && smallest !in rest
    ensures forall h :: h in heap <==> h == smallest || h in rest
    ensures forall h :: h in rest ==> Bigger(h, smallest)
  {
    var at, i := 0, 1;
    while i < |heap|
      invariant 0 <= at < i <= |heap|
      invariant forall j :: 0 <= j < i && j != at ==> Bigger(heap[j], heap[at])
    {
      BiggerIsTotal(heap[i], heap[at]);
      if Bigger(heap[at], heap[i]) {
        forall j | 0 <= j < i ensures Bigger(heap[j], heap[i]) {
          if j != at { BiggerIsTransitive(heap[j], heap[at], heap[i]); }
        }
        at := i;
      }
      i := i + 1;
    }
    smallest := heap[at];
    rest := heap[..at] + heap[at + 1..];
    forall j | 0 <= j < |rest| ensures rest[j] == heap[if j < at then j else j + 1] {}
    forall j | 0 <= j < |heap| && j != at ensures heap[j] in rest {
      assert heap[j] == rest[if j < at then j else j - 1];
    }
  }

  /** `heapq.heappush`, then `heappop` when more than `k` are held. */
  method PushBounded(heap: seq<Obj>, o: Obj, k: nat, ghost visited: seq<Obj>) returns (heap': seq<Obj>)
    requires Biggest(heap, visited, k)
    requires forall i :: 0 <= i < |visited| ==> visited[i].key != o.key
    ensures Biggest(heap', visited + [o], k)
  {
    heap' := heap + [o];
    forall i | 0 <= i < |heap| ensures heap[i].key != o.key { assert heap[i] in visited; }
    if |heap'| > k {
      ghost var smallest;
      heap', smallest := PopSmallest(heap');
      forall v | v in visited + [o] && v !in heap' ensures forall h :: h in heap' ==> Bigger(h, v) {
        if v != smallest {
          assert v in visited && v !in heap;
          forall h | h in heap' ensures Bigger(h, v) {
            if h == o {
              if smallest in heap { BiggerIsTransitive(o, smallest, v); }
            }
          }
        }
      }
    }
  }

  // ------------------------------------------------- modified range

  ghost predicate ModifiedRange(oldest: Option<int>, newest: Option<int>, visited: seq<Obj>) {
    if visited == [] then oldest == None && newest == None else
      && oldest.Some? && newest.Some?
      && (forall i :: 0 <= i < |visited| ==> oldest.value <= visited[i].modified <= newest.value)
      && (exists i :: 0 <= i < |visited| && visited[i].modified == oldest.value)
      && (exists i :: 0 <= i < |visited| && visited[i].modified == newest.value)
  }

  lemma ModifiedStep(oldest: Option<int>, newest: Option<int>, visited: seq<Obj>, o: Obj)
    requires ModifiedRange(oldest, newest, visited)
    ensures ModifiedRange(
              if oldest.None? || o.modified < oldest.value then Some(o.modified) else oldest,
              if newest.None? || o.modified > newest.value then Some(o.modified) else newest,
              visited + [o])
  {
    var visited' := visited + [o];
    assert visited'[|visited|] == o;
    if visited != [] {
      var i :| 0 <= i < |visited| && visited[i].modified == oldest.value;
      var j :| 0 <= j < |visited| && visited[j].modified == newest.value;
      assert visited'[i].modified == oldest.value && visited'[j].modified == newest.value;
    }
  }

  // ------------------------------------------------- the whole state

  /** Every number of the walk is exact for the objects visited. */
  ghost predicate Describes(w: Walk, visited: seq<Obj>, prefix: Key, lower: string -> string) {
    && w.scannedObjects == |visited|
    && w.scannedBytes == Tally(visited, Everything()).bytes
    && w.rootObjects == Tally(visited, AtRoot(prefix)).objects
    && FolderTable(w.prefixStats, visited, prefix)
    && Total(w.prefixStats).objects + w.rootObjects == |visited|
    && ExtensionTable(w.extStats, visited, prefix, lower)
    && Total(w.extStats) == Stat(|visited|, w.scannedBytes)
    && Biggest(w.largest, visited, TOP_LARGEST)
    && ModifiedRange(w.oldest, w.newest, visited)
    && w.lastScannedKey == (if visited == [] then None else Some(visited[|visited| - 1].key))
  }

  lemma DescribesNothing(prefix: Key, lower: string -> string)
    ensures Describes(NOTHING_SCANNED, [], prefix, lower)
  {
    assert Total<Key>(map[]) == Stat(0, 0) && Total<string>(map[]) == Stat(0, 0);
  }

  /** The loop body for one object that is not a marker. */
  method VisitObject(w: Walk, o: Obj, prefix: Key, lower: string -> string, ghost visited: seq<Obj>)
    returns (w': Walk)
    requires Describes(w, visited, prefix, lower) && prefix <= o.key
    requires forall i :: 0 <= i < |visited| ==> visited[i].key != o.key
    ensures Describes(w', visited + [o], prefix, lower)
    ensures w'.scannedObjects == w.scannedObjects + 1 && w'.complete == w.complete
  {
    hide Tally, Total, FolderTable, ExtensionTable, Biggest, ModifiedRange, EntryOf, Extension, Bump, Less, IsMarker;
    ModifiedStep(w.oldest, w.newest, visited, o);
    FolderStep(w.prefixStats, visited, prefix, o);
    ExtensionStep(w.extStats, visited, prefix, lower, o);
    TallyStep(visited, o, Everything());
    TallyStep(visited, o, AtRoot(prefix));
    w' := w.(scannedObjects := w.scannedObjects + 1,
             scannedBytes := w.scannedBytes + o.size,
             oldest := if w.oldest.None? || o.modified < w.oldest.value then Some(o.modified) else w.oldest,
             newest := if w.newest.None? || o.modified > w.newest.value then Some(o.modified) else w.newest,
             lastScannedKey := Some(o.key));
    var entry := EntryOf(o, prefix);
    if entry.File? {
      w' := w'.(rootObjects := w'.rootObjects + 1);
    } else {
      TotalBump(w.prefixStats, entry.prefix, o.size);
      w' := w'.(prefixStats := Bump(w'.prefixStats, entry.prefix, o.size));
    }
    var ext := Extension(o.key, prefix, lower);
    TotalBump(w.extStats, ext, o.size);
    var heap := PushBounded(w'.largest, o, TOP_LARGEST, visited);
    w' := w'.(extStats := Bump(w'.extStats, ext, o.size), largest := heap);
  }

  /** The inner loop: one page of the walk, stopping at the cap. */
  method WalkPage(w: Walk, page: seq<Obj>, prefix: Key, lower: string -> string, cap: nat, ghost before: seq<Obj>)
    returns (w': Walk, stopped: bool, ghost taken: nat)
    requires Describes(w, Real(before), prefix, lower) && w.complete && w.scannedObjects <= cap
    requires SortedKeys(before + page) && AllUnder(page, prefix)
    ensures taken <= |page| && Describes(w', Real(before + page[..taken]), prefix, lower)
    ensures w'.scannedObjects <= cap && w'.complete == !stopped
    ensures if stopped then w'.scannedObjects == cap && taken < |page| else taken == |page|
  {
    hide Real, Describes;
    w', stopped, taken := w, false, 0;
    assert before + page[..0] == before;
    var i := 0;
    while i < |page|
      invariant 0 <= i <= |page| && taken == i && !stopped
      invariant Describes(w', Real(before + page[..i]), prefix, lower)
      invariant w'.scannedObjects <= cap && w'.complete
    {
      ghost var seen := before + page[..i];
      assert before + page[..i + 1] == seen + [page[i]];
      RealAppend(seen, page[i]);
      if !IsMarker(page[i]) {
        if w'.scannedObjects >= cap {
          w', stopped := w'.(complete := false), true;
          ForgetComplete(w', Real(seen), prefix, lower);
          break;
        }
        FreshKey(seen, page[i]) by { assert seen + [page[i]] == (before + page)[..|before| + i + 1]; }
        w' := VisitObject(w', page[i], prefix, lower, Real(seen));
      }
      i := i + 1;
      taken := i;
    }
    assert page[..|page|] == page;
  }

  /** `complete` is bookkeeping about the walk, not about the objects. */
  lemma ForgetComplete(w: Walk, visited: seq<Obj>, prefix: Key, lower: string -> string)
    requires Describes(w.(complete := true), visited, prefix, lower)
    ensures Describes(w, visited, prefix, lower)
  {
  }

  lemma RealAppend(seen: seq<Obj>, o: Obj)
    ensures Real(seen + [o]) == if IsMarker(o) then Real(seen) else Real(seen) + [o]
  {
    RealConcat(seen, [o]);
    assert Real([o][1..]) == [];
  }

  lemma FreshKey(seen: seq<Obj>, o: Obj)
    requires SortedKeys(seen + [o])
    ensures forall i :: 0 <= i < |Real(seen)| ==> Real(seen)[i].key != o.key
  {
    hide Real;
    forall i | 0 <= i < |Real(seen)| ensures Real(seen)[i].key != o.key {
      RealMembers(seen, Real(seen)[i]);
      var j :| 0 <= j < |seen| && seen[j] == Real(seen)[i];
      LessAsymmetric((seen + [o])[j].key, (seen + [o])[|seen|].key);
    }
  }

  /** The `cap`-th real key is not the last entry of the listing. */
  ghost predicate MoreBehind(listing: seq<Obj>, cap: nat) {
    exists at :: 0 <= at < |listing| && |Real(listing[..at])| == cap
  }

  /**
   * The capped walk.  It visits the real objects in key order and stops either
   * at the end or exactly at the cap; its numbers describe what it visited.
   */
  method WalkObjects(bucket: map<Key, Meta>, prefix: Key, cap: nat, lower: string -> string) returns (w: Walk)
    ensures w.scannedObjects <= |Real(Under(Enumerate(bucket), prefix))|
    ensures Describes(w, Real(Under(Enumerate(bucket), prefix))[..w.scannedObjects], prefix, lower)
    ensures w.scannedObjects <= cap
    ensures if w.complete then w.scannedObjects == |Real(Under(Enumerate(bucket), prefix))|
            else w.scannedObjects == cap
    ensures !w.complete ==> MoreBehind(Under(Enumerate(bucket), prefix), cap)
  {
    hide Real, Under, Describes, Enumerate, SortedKeys, AllUnder;
    var listing := Under(Enumerate(bucket), prefix);
    UnderIsSorted(Enumerate(bucket), prefix);
    UnderIsUnder(Enumerate(bucket), prefix);
    w := NOTHING_SCANNED;
    DescribesNothing(prefix, lower);
    var token := 0;
    ghost var at := 0;
    assert Real(listing[..0]) == [];
    var stopped := false;
    while !stopped
      invariant 0 <= token <= |listing| && 0 <= at <= |listing|
      invariant Describes(w, Real(listing[..at]), prefix, lower) && w.scannedObjects <= cap
      invariant !stopped ==> w.complete && at == token
      invariant stopped ==> if w.complete then at == |listing| else w.scannedObjects == cap && at < |listing|
      decreases !stopped, |listing| - token
    {
      var page, isTruncated, next := ListPage(listing, token, 1000, false);
      ghost var taken;
      PageOfListing(listing, token, next, prefix);
      w, stopped, taken := WalkPage(w, page, prefix, lower, cap, listing[..token]);
      PartOfPage(listing, token, next, taken);
      at := token + taken;
      if !stopped {
        if isTruncated {
          if w.scannedObjects >= cap {
            w, stopped := w.(complete := false), true;
            ForgetComplete(w, Real(listing[..at]), prefix, lower);
          } else {
            token := next;
          }
        } else {
          stopped := true;
        }
      }
    }
    assert !w.complete ==> MoreBehind(listing, cap) by { ScannedIsLength(w, Real(listing[..at]), prefix, lower); }
    assert listing[..|listing|] == listing;
    assert listing[..at] + listing[at..] == listing;
    RealConcat(listing[..at], listing[at..]);
    ScannedIsLength(w, Real(listing[..at]), prefix, lower);
  }

  lemma PageOfListing(listing: seq<Obj>, token: nat, next: nat, prefix: Key)
    requires token <= next <= |listing| && SortedKeys(listing) && AllUnder(listing, prefix)
    ensures listing[..token] + listing[token..next] == listing[..next]
    ensures SortedKeys(listing[..token] + listing[token..next]) && AllUnder(listing[token..next], prefix)
  {
    assert listing[..token] + listing[token..next] == listing[..next];
  }

  lemma PartOfPage(listing: seq<Obj>, token: nat, next: nat, taken: nat)
    requires token <= next <= |listing| && token + taken <= next
    ensures listing[..token] + listing[token..next][..taken] == listing[..token + taken]
  {
  }

  lemma ScannedIsLength(w: Walk, visited: seq<Obj>, prefix: Key, lower: string -> string)
    requires Describes(w, visited, prefix, lower)
    ensures w.scannedObjects == |visited|
  {
  }

  lemma UnderIsUnder(objs: seq<Obj>, prefix: Key)
    ensures AllUnder(Under(objs, prefix), prefix)
  {
    forall i | 0 <= i < |Under(objs, prefix)| ensures prefix <= Under(objs, prefix)[i].key {
      UnderMembers(objs, prefix, Under(objs, prefix)[i]);
    }
  }
}
