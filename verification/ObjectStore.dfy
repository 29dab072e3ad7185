/**
 * The S3 side of every walk: a bucket, the order it is enumerated in, and what
 * ListObjectsV2 answers with and without Delimiter="/".
 *
 * The bucket is held fixed while it is listed.  A continuation token is opaque
 * to the callers; here it is the number of entries already handed out.  A page
 * may be thinner than MaxKeys, but it is never empty while entries remain.
 */
module ObjectStore {
  import opened Keys

  datatype Meta = Meta(size: nat, modified: int)

  datatype Obj = Obj(key: Key, size: nat, modified: int)

  /** One entry of a delimited listing: a CommonPrefix or a Contents object. */
  datatype Entry = Folder(prefix: Key) | File(obj: Obj)

  predicate SortedKeys(objs: seq<Obj>) {
    forall i, j :: 0 <= i < j < |objs| ==> Less(objs[i].key, objs[j].key)
  }

  predicate StrictlySorted(keys: seq<Key>) {
    forall i, j :: 0 <= i < j < |keys| ==> Less(keys[i], keys[j])
  }

  // ------------------------------------------------- a bucket, enumerated

  lemma {:induction false} LeastKeyExists(keys: set<Key>)
    requires keys != {}
    ensures exists k :: k in keys && forall x :: x in keys ==> LessEq(k, x)
    decreases |keys|
  {
    var k :| k in keys;
    var rest := keys - {k};
    if rest == {} {
      assert keys == rest + {k};
    } else {
      LeastKeyExists(rest);
      var m :| m in rest && forall x :: x in rest ==> LessEq(m, x);
      LessTotal(k, m);
      if Less(k, m) {
        forall x | x in keys ensures LessEq(k, x) {
          if x != k && x != m {
            assert x in rest;
            LessTransitive(k, m, x);
          }
        }
      } else {
        assert forall x :: x in keys ==> LessEq(m, x);
      }
    }
  }

  function Least(keys: set<Key>): (k: Key)
    requires keys != {}
    ensures k in keys && forall x :: x in keys ==> LessEq(k, x)
  {
    LeastKeyExists(keys);
    assert forall k, m :: k in keys && m in keys && LessEq(k, m) && LessEq(m, k) ==> k == m by {
      forall k, m | k in keys && m in keys && LessEq(k, m) && LessEq(m, k) ensures k == m {
        if k != m { LessAsymmetric(k, m); }
      }
    }
    var k :| k in keys && forall x :: x in keys ==> LessEq(k, x);
    k
  }

  /** Python's `sorted(set_of_keys)`; also the order S3 enumerates a bucket in. */
  function SortedSet(keys: set<Key>): (r: seq<Key>)
    ensures StrictlySorted(r)
    ensures forall k :: k in r <==> k in keys
    ensures |r| == |keys|
  {
    if keys == {} then [] else
      var k := Least(keys);
      var rest := SortedSet(keys - {k});
      assert forall i :: 0 <= i < |rest| ==> rest[i] in keys - {k};
      [k] + rest
  }

  /** The objects of a bucket in the order S3 enumerates them. */
  function Enumerate(bucket: map<Key, Meta>): (r: seq<Obj>)
    ensures SortedKeys(r)
    ensures |r| == |bucket|
    ensures forall o: Obj :: o in r <==> o.key in bucket && bucket[o.key] == Meta(o.size, o.modified)
  {
    var keys := SortedSet(bucket.Keys);
    var r := seq(|keys|, i requires 0 <= i < |keys| =>
      assert keys[i] in keys; Obj(keys[i], bucket[keys[i]].size, bucket[keys[i]].modified));
    assert forall o :: o in r ==> o.key in bucket && bucket[o.key] == Meta(o.size, o.modified);
    assert forall o: Obj :: o.key in bucket && bucket[o.key] == Meta(o.size, o.modified) ==> o in r by {
      forall o: Obj | o.key in bucket && bucket[o.key] == Meta(o.size, o.modified) ensures o in r {
        assert o.key in keys;
        var i :| 0 <= i < |keys| && keys[i] == o.key;
        assert r[i] == o;
      }
    }
    r
  }

  // ------------------------------------------------- listing without Delimiter

  /** ListObjectsV2 Contents for Prefix=`prefix`, no Delimiter. */
  function Under(objs: seq<Obj>, prefix: Key): (r: seq<Obj>)
    ensures |r| <= |objs|
  {
    if objs == [] then [] else
      var rest := Under(objs[1..], prefix);
      if prefix <= objs[0].key then [objs[0]] + rest else rest
  }

  lemma {:induction false} UnderMembers(objs: seq<Obj>, prefix: Key, o: Obj)
    ensures o in Under(objs, prefix) <==> o in objs && prefix <= o.key
  {
    if objs != [] {
      UnderMembers(objs[1..], prefix, o);
      assert objs == [objs[0]] + objs[1..];
    }
  }

  lemma {:induction false} UnderIsSorted(objs: seq<Obj>, prefix: Key)
    requires SortedKeys(objs)
    ensures SortedKeys(Under(objs, prefix))
  {
    if objs != [] {
      UnderIsSorted(objs[1..], prefix);
      var rest := Under(objs[1..], prefix);
      forall i | 0 <= i < |rest| ensures Less(objs[0].key, rest[i].key) {
        UnderMembers(objs[1..], prefix, rest[i]);
      }
    }
  }

  /** A zero-byte object whose key ends in a slash: an "empty folder" marker. */
  predicate IsMarker(o: Obj) {
    o.key != [] && o.key[|o.key| - 1] == SLASH && o.size == 0
  }

  /** The objects that are not directory markers. */
  function Real(objs: seq<Obj>): (r: seq<Obj>)
    ensures |r| <= |objs|
  {
    if objs == [] then [] else
      (if IsMarker(objs[0]) then [] else [objs[0]]) + Real(objs[1..])
  }

  lemma {:induction false} RealMembers(objs: seq<Obj>, o: Obj)
    ensures o in Real(objs) <==> o in objs && !(o.size == 0 && o.key != [] && o.key[|o.key| - 1] == '/')
  {
    if objs != [] {
      RealMembers(objs[1..], o);
      assert objs == [objs[0]] + objs[1..];
    }
  }

  lemma {:induction false} RealIsSorted(objs: seq<Obj>)
    requires SortedKeys(objs)
    ensures SortedKeys(Real(objs))
  {
    if objs != [] {
      RealIsSorted(objs[1..]);
      var rest := Real(objs[1..]);
      forall i | 0 <= i < |rest| ensures Less(objs[0].key, rest[i].key) {
        RealMembers(objs[1..], rest[i]);
      }
    }
  }

  lemma RealCons(o: Obj, rest: seq<Obj>)
    ensures Real([o] + rest) == (if IsMarker(o) then [] else [o]) + Real(rest)
  {
    hide IsMarker;
    assert ([o] + rest)[1..] == rest;
  }

  lemma {:induction false} RealConcat(a: seq<Obj>, b: seq<Obj>)
    ensures Real(a + b) == Real(a) + Real(b)
  {
    assert Real([]) == [];
    hide Real, IsMarker;
    if a == [] {
      assert a + b == b;
    } else {
      RealConcat(a[1..], b);
      RealCons(a[0], a[1..]);
      RealCons(a[0], a[1..] + b);
      assert [a[0]] + a[1..] == a && [a[0]] + (a[1..] + b) == a + b;
    }
  }

  lemma RealSlice(s: seq<Obj>, a: nat, b: nat, c: nat)
    requires a <= b <= c <= |s|
    ensures Real(s[a..c]) == Real(s[a..b]) + Real(s[b..c])
  {
    hide Real;
    assert s[a..c] == s[a..b] + s[b..c];
    RealConcat(s[a..b], s[b..c]);
  }

  lemma RealStep(s: seq<Obj>, i: nat)
    requires i < |s|
    ensures Real(s[..0]) == []
    ensures Real(s[..i + 1]) == Real(s[..i]) + if IsMarker(s[i]) then [] else [s[i]]
  {
    assert s[..i + 1] == s[..i] + [s[i]];
    RealConcat(s[..i], [s[i]]);
    assert Real([s[i]][1..]) == [];
  }

  predicate NoMarkers(objs: seq<Obj>) {
    forall i :: 0 <= i < |objs| ==> !IsMarker(objs[i])
  }

  lemma {:induction false} RealOfPlain(objs: seq<Obj>)
    requires NoMarkers(objs)
    ensures Real(objs) == objs
  {
    if objs != [] { RealOfPlain(objs[1..]); }
  }

  // ------------------------------------------------- listing with Delimiter="/"

  /** How the object `o` shows up in a delimited listing under `prefix`. */
  function EntryOf(o: Obj, prefix: Key): (e: Entry)
    requires prefix <= o.key
  {
    var i := SlashAt(o.key, |prefix|);
    if i == |o.key| then File(o) else Folder(o.key[..i + 1])
  }

  function EntryKey(e: Entry): Key {
    match e
    case Folder(p) => p
    case File(o) => o.key
  }

  /** A direct child folder of `prefix`: the prefix, a slash-free name, a slash. */
  predicate IsChild(p: Key, prefix: Key) {
    |prefix| < |p| && prefix <= p && p[|p| - 1] == SLASH && SLASH !in p[|prefix|..|p| - 1]
  }

  /** Roll the sorted objects up into entries, one per common prefix. */
  function Level(objs: seq<Obj>, prefix: Key): (r: seq<Entry>) {
    if objs == [] then []
    else if !(prefix <= objs[0].key) then Level(objs[1..], prefix)
    else
      var e := EntryOf(objs[0], prefix);
      var rest := Level(objs[1..], prefix);
      if rest != [] && rest[0] == e then rest else [e] + rest
  }

  predicate SortedEntries(es: seq<Entry>) {
    forall i, j :: 0 <= i < j < |es| ==> Less(EntryKey(es[i]), EntryKey(es[j]))
  }

  lemma EntryShape(o: Obj, prefix: Key)
    requires prefix <= o.key
    ensures var e := EntryOf(o, prefix);
            && EntryKey(e) <= o.key
            && (e.File? <==> SLASH !in o.key[|prefix|..])
            && (e.File? ==> e.obj == o)
            && (e.Folder? ==> IsChild(e.prefix, prefix))
  {
    var i := SlashAt(o.key, |prefix|);
    assert o.key[|prefix|..][..i - |prefix|] == o.key[|prefix|..i];
    if i < |o.key| {
      assert o.key[|prefix|..][i - |prefix|] == SLASH;
      var p := o.key[..i + 1];
      assert p[|prefix|..|p| - 1] == o.key[|prefix|..i];
    } else {
      assert o.key[|prefix|..] == o.key[|prefix|..i];
    }
  }

  /** Two child folders of one prefix never nest. */
  lemma ChildrenAreIncomparable(p: Key, q: Key, prefix: Key)
    requires IsChild(p, prefix) && IsChild(q, prefix) && p != q
    ensures Incomparable(p, q)
  {
    if |p| < |q| {
      assert q[|prefix|..|q| - 1][|p| - 1 - |prefix|] != SLASH;
    } else if |q| < |p| {
      assert p[|prefix|..|p| - 1][|q| - 1 - |prefix|] != SLASH;
    }
  }

  /** `p` is the child folder `k` belongs to exactly when `p` is a prefix of `k`. */
  lemma ChildOwnsItsKeys(p: Key, o: Obj, prefix: Key)
    requires IsChild(p, prefix) && prefix <= o.key
    ensures p <= o.key <==> EntryOf(o, prefix) == Folder(p)
  {
    EntryShape(o, prefix);
    if p <= o.key {
      assert o.key[|p| - 1] == SLASH == o.key[|prefix|..][|p| - 1 - |prefix|];
      var e := EntryOf(o, prefix);
      if e.prefix != p { ChildrenAreIncomparable(p, e.prefix, prefix); }
    }
  }

  lemma FolderBeatsFile(p: Key, o: Obj, prefix: Key)
    requires IsChild(p, prefix) && prefix <= o.key && SLASH !in o.key[|prefix|..]
    ensures !(p <= o.key)
  {
    if |p| <= |o.key| { assert o.key[|prefix|..][|p| - 1 - |prefix|] != SLASH; }
  }

  /** Entries come out in the order of the objects behind them. */
  lemma EntryOrder(a: Obj, b: Obj, prefix: Key)
    requires prefix <= a.key && prefix <= b.key && Less(a.key, b.key)
    ensures EntryOf(a, prefix) == EntryOf(b, prefix)
         || Less(EntryKey(EntryOf(a, prefix)), EntryKey(EntryOf(b, prefix)))
  {
    var ea, eb := EntryOf(a, prefix), EntryOf(b, prefix);
    EntryShape(a, prefix);
    EntryShape(b, prefix);
    var p, q := EntryKey(ea), EntryKey(eb);
    if ea != eb {
      if ea.Folder? && eb.Folder? {
        ChildrenAreIncomparable(p, q, prefix);
        ExtensionKeepsOrder(p, q, a.key, b.key);
      } else if ea.Folder? {
        PrefixSortsFirst(p, a.key);
        if p != a.key { LessTransitive(p, a.key, b.key); }
      } else if eb.Folder? {
        FolderBeatsFile(q, a, prefix);
        if p <= q { PrefixSortsFirst(p, q); } else { ExtensionKeepsOrder(p, q, a.key, b.key); }
      }
    }
  }

  /** Membership: every object under the prefix is represented, and nothing else. */
  lemma {:induction false} LevelMembers(objs: seq<Obj>, prefix: Key, e: Entry)
    ensures e in Level(objs, prefix) <==> exists o :: o in objs && prefix <= o.key && EntryOf(o, prefix) == e
  {
    if objs != [] {
      LevelMembers(objs[1..], prefix, e);
      assert forall o :: o in objs <==> o == objs[0] || o in objs[1..];
      var rest := Level(objs[1..], prefix);
      if prefix <= objs[0].key {
        assert e in Level(objs, prefix) <==> e == EntryOf(objs[0], prefix) || e in rest;
      }
    }
  }

  /** S3 reports each common prefix and each object once, in key order. */
  lemma {:induction false} LevelIsSorted(objs: seq<Obj>, prefix: Key)
    requires SortedKeys(objs)
    ensures SortedEntries(Level(objs, prefix))
  {
    if objs != [] {
      assert SortedKeys(objs[1..]);
      LevelIsSorted(objs[1..], prefix);
      var rest := Level(objs[1..], prefix);
      if prefix <= objs[0].key && rest != [] {
        var e := EntryOf(objs[0], prefix);
        forall i | 0 <= i < |rest| ensures rest[i] == e || Less(EntryKey(e), EntryKey(rest[i])) {
          LevelMembers(objs[1..], prefix, rest[i]);
          var o :| o in objs[1..] && prefix <= o.key && EntryOf(o, prefix) == rest[i];
          EntryOrder(objs[0], o, prefix);
        }
        if rest[0] != e {
          forall i | 0 < i < |rest| ensures rest[i] != e {
            assert Less(EntryKey(rest[0]), EntryKey(rest[i]));
            LessAsymmetric(EntryKey(rest[0]), EntryKey(rest[i]));
          }
        }
      }
    }
  }

  // ------------------------------------------------- ListObjectsV2

  function Min(a: nat, b: nat): (m: nat)
    ensures m <= a && m <= b && (m == a || m == b)
  {
    if a < b then a else b
  }

  /**
   * One ListObjectsV2 call over `listing`, resuming at `token`.  `full` says
   * that the service fills its pages; otherwise it may stop a page anywhere.
   */
  method ListPage<T>(listing: seq<T>, token: nat, maxKeys: nat, full: bool)
    returns (page: seq<T>, isTruncated: bool, next: nat)
    requires token <= |listing| && 1 <= maxKeys
    ensures token <= next <= |listing| && page == listing[token..next]
    ensures |page| <= maxKeys
    ensures isTruncated <==> next < |listing|
    ensures token < |listing| ==> token < next
    ensures full ==> next == Min(token + maxKeys, |listing|)
  {
    var limit := Min(token + maxKeys, |listing|);
    next := limit;
    if !full && token < limit {
      var n: nat :| token < n <= limit;
      next := n;
    }
    page := listing[token..next];
    isTruncated := next < |listing|;
  }
}
