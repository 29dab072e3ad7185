/** Counts and byte totals, over a sequence of objects and over a table of them. */
module Tallies {
  import opened ObjectStore

  datatype Stat = Stat(objects: nat, bytes: nat)

  function Plus(a: Stat, b: Stat): Stat { Stat(a.objects + b.objects, a.bytes + b.bytes) }

  predicate AtMost(a: Stat, b: Stat) { a.objects <= b.objects && a.bytes <= b.bytes }

  /** How many of the objects satisfy `f`, and their bytes. */
  function Tally(objs: seq<Obj>, f: Obj -> bool): Stat {
    if objs == [] then Stat(0, 0) else
      var n := |objs| - 1;
      var rest := Tally(objs[..n], f);
      if f(objs[n]) then Stat(rest.objects + 1, rest.bytes + objs[n].size) else rest
  }

  lemma {:induction false} TallyConcat(a: seq<Obj>, b: seq<Obj>, f: Obj -> bool)
    ensures Tally(a + b, f) == Plus(Tally(a, f), Tally(b, f))
  {
    if b == [] {
      assert a + b == a;
    } else {
      var n := |b| - 1;
      assert (a + b)[..|a| + n] == a + b[..n];
      TallyConcat(a, b[..n], f);
    }
  }

  lemma TallyStep(a: seq<Obj>, o: Obj, f: Obj -> bool)
    ensures Tally(a + [o], f) == if f(o) then Plus(Tally(a, f), Stat(1, o.size)) else Tally(a, f)
  {
    assert (a + [o])[..|a|] == a;
  }

  lemma TallyPrefix(objs: seq<Obj>, n: nat, f: Obj -> bool)
    requires n <= |objs|
    ensures AtMost(Tally(objs[..n], f), Tally(objs, f))
  {
    assert objs == objs[..n] + objs[n..];
    TallyConcat(objs[..n], objs[n..], f);
  }

  lemma {:induction false} TallyNone(objs: seq<Obj>, f: Obj -> bool)
    requires forall i :: 0 <= i < |objs| ==> !f(objs[i])
    ensures Tally(objs, f) == Stat(0, 0)
  {
    if objs != [] { TallyNone(objs[..|objs| - 1], f); }
  }

  lemma {:induction false} TallyAll(objs: seq<Obj>, f: Obj -> bool)
    requires forall i :: 0 <= i < |objs| ==> f(objs[i])
    ensures Tally(objs, f).objects == |objs|
  {
    if objs != [] { TallyAll(objs[..|objs| - 1], f); }
  }

  /** If nothing after the first `n` objects satisfies `f`, the first `n` tell the whole story. */
  lemma TallyStopsAt(objs: seq<Obj>, n: nat, f: Obj -> bool)
    requires n <= |objs|
    requires forall i :: n <= i < |objs| ==> !f(objs[i])
    ensures Tally(objs[..n], f) == Tally(objs, f)
  {
    assert objs == objs[..n] + objs[n..];
    TallyConcat(objs[..n], objs[n..], f);
    TallyNone(objs[n..], f);
  }

  // ------------------------------------------------- tables

  /** The grand total of a table of counts. */
  ghost function Total<K>(m: map<K, Stat>): Stat
    decreases |m|
  {
    if m == map[] then Stat(0, 0) else
      var k :| k in m;
      Plus(m[k], Total(m - {k}))
  }

  lemma {:induction false} TotalRemove<K>(m: map<K, Stat>, k: K)
    requires k in m
    ensures Total(m) == Plus(m[k], Total(m - {k}))
    decreases |m|
  {
    var j :| j in m && Total(m) == Plus(m[j], Total(m - {j}));
    if j != k {
      TotalRemove(m - {j}, k);
      TotalRemove(m - {k}, j);
      assert m - {j} - {k} == m - {k} - {j};
      assert (m - {j})[k] == m[k] && (m - {k})[j] == m[j];
      assert Total(m - {k}) == Plus(m[j], Total(m - {k} - {j}));
      assert Total(m - {j}) == Plus(m[k], Total(m - {j} - {k}));
      assert Total(m) == Plus(m[j], Plus(m[k], Total(m - {j} - {k})));
    }
  }

  /** `stats = d.setdefault(k, [0, 0]); stats[0] += 1; stats[1] += size` */
  function Bump<K>(m: map<K, Stat>, k: K, size: nat): map<K, Stat> {
    m[k := Plus(if k in m then m[k] else Stat(0, 0), Stat(1, size))]
  }

  lemma TotalBump<K>(m: map<K, Stat>, k: K, size: nat)
    ensures Total(Bump(m, k, size)) == Plus(Total(m), Stat(1, size))
  {
    var m' := Bump(m, k, size);
    TotalRemove(m', k);
    assert m' - {k} == m - {k};
    if k in m {
      TotalRemove(m, k);
    } else {
      assert m - {k} == m;
    }
  }
}
