/**
 * Object keys and the order S3 enumerates them in.
 *
 * S3 compares keys by their UTF-8 bytes; that order is the order of the code
 * points, so a key is a string compared character by character.  `p <= k` is
 * Dafny's own "p is a prefix of k".
 */
module Keys {

  type Key = string

  const SLASH: char := '/'

  /** `a` comes strictly before `b` in a listing. */
  predicate Less(a: Key, b: Key) {
    b != [] && (a == [] || a[0] < b[0] || (a[0] == b[0] && Less(a[1..], b[1..])))
  }

  predicate LessEq(a: Key, b: Key) {
    a == b || Less(a, b)
  }

  lemma {:induction false} LessIrreflexive(a: Key)
    ensures !Less(a, a)
  {
    if a != [] { LessIrreflexive(a[1..]); }
  }

  lemma {:induction false} LessTransitive(a: Key, b: Key, c: Key)
    requires Less(a, b) && Less(b, c)
    ensures Less(a, c)
  {
    if a != [] && a[0] == b[0] && b[0] == c[0] { LessTransitive(a[1..], b[1..], c[1..]); }
  }

  lemma {:induction false} LessTotal(a: Key, b: Key)
    ensures Less(a, b) || a == b || Less(b, a)
  {
    if a != [] && b != [] && a[0] == b[0] {
      LessTotal(a[1..], b[1..]);
      assert a == [a[0]] + a[1..] && b == [b[0]] + b[1..];
    }
  }

  lemma LessAsymmetric(a: Key, b: Key)
    requires Less(a, b)
    ensures !Less(b, a) && a != b
  {
    LessIrreflexive(a);
    if Less(b, a) { LessTransitive(a, b, a); }
  }

  /** A string sorts before every proper extension of it. */
  lemma {:induction false} PrefixSortsFirst(p: Key, k: Key)
    requires p <= k
    ensures p == k || Less(p, k)
  {
    if p != [] {
      assert p[0] == k[0] && p[1..] <= k[1..];
      PrefixSortsFirst(p[1..], k[1..]);
      assert p == [p[0]] + p[1..] && k == [k[0]] + k[1..];
    }
  }

  /** Neither string is a prefix of the other. */
  predicate Incomparable(a: Key, b: Key) {
    !(a <= b) && !(b <= a)
  }

  /** Extending two incomparable strings does not change their order. */
  lemma {:induction false} ExtensionKeepsOrder(p: Key, q: Key, a: Key, b: Key)
    requires Incomparable(p, q) && p <= a && q <= b
    ensures Less(p, q) <==> Less(a, b)
  {
    assert p[0] == a[0] && q[0] == b[0];
    if p[0] == q[0] {
      assert p == [p[0]] + p[1..] && q == [q[0]] + q[1..];
      ExtensionKeepsOrder(p[1..], q[1..], a[1..], b[1..]);
    }
  }

  /** The keys under one prefix form one unbroken run of the key order. */
  lemma {:induction false} PrefixBlockIsInterval(p: Key, a: Key, b: Key, c: Key)
    requires p <= a && p <= c
    requires LessEq(a, b) && LessEq(b, c)
    ensures p <= b
  {
    if p != [] {
      assert a[0] == p[0] == c[0];
      assert b[0] == p[0];
      assert p == [p[0]] + p[1..] && b == [b[0]] + b[1..];
      PrefixBlockIsInterval(p[1..], a[1..], b[1..], c[1..]);
    }
  }

  /** Once `s` has passed the prefix `p`, every key under `p` is behind it. */
  lemma PrefixBlockBefore(p: Key, k: Key, s: Key)
    requires p <= k && !(p <= s) && Less(p, s)
    ensures Less(k, s)
  {
    if s <= p {
      PrefixSortsFirst(s, p);
      LessAsymmetric(p, s);
    } else {
      ExtensionKeepsOrder(p, s, k, s);
    }
  }

  /** While `s` has not reached the prefix `p`, every key under `p` is ahead. */
  lemma PrefixBlockAfter(p: Key, k: Key, s: Key)
    requires p <= k && Less(s, p)
    ensures Less(s, k)
  {
    PrefixSortsFirst(p, k);
    if p != k { LessTransitive(s, p, k); }
  }

  // ---------------------------------------------------------------- slashes

  /** The first position at or after `from` holding a slash, or |s|. */
  function SlashAt(s: string, from: nat): (i: nat)
    requires from <= |s|
    ensures from <= i <= |s|
    ensures SLASH !in s[from..i]
    ensures i < |s| ==> s[i] == SLASH
    decreases |s| - from
  {
    if from == |s| || s[from] == SLASH then from else SlashAt(s, from + 1)
  }

  /** Python's `s.rstrip("/")`. */
  function RStripSlash(s: string): (r: string)
    ensures r <= s
    ensures r != [] ==> r[|r| - 1] != SLASH
    ensures |r| < |s| ==> s[|r|] == SLASH && s[|s| - 1] == SLASH
  {
    if s != [] && s[|s| - 1] == SLASH then RStripSlash(s[..|s| - 1]) else s
  }

  /** Python's `s.lstrip("/")`. */
  function LStripSlash(s: string): (r: string)
    ensures |r| <= |s|
    ensures r != [] ==> r[0] != SLASH
    ensures s != [] && s[0] != SLASH ==> r == s
  {
    if s != [] && s[0] == SLASH then LStripSlash(s[1..]) else s
  }

  /** Python's `s.strip("/")`. */
  function StripSlash(s: string): (r: string)
    ensures r != [] ==> r[0] != SLASH && r[|r| - 1] != SLASH
  {
    RStripSlash(LStripSlash(s))
  }

  lemma {:induction false} RStripSlashIsExact(s: string)
    ensures forall i :: |RStripSlash(s)| <= i < |s| ==> s[i] == SLASH
  {
    if s != [] && s[|s| - 1] == SLASH { RStripSlashIsExact(s[..|s| - 1]); }
  }

  lemma {:induction false} LStripSlashIsExact(s: string)
    ensures s[|s| - |LStripSlash(s)|..] == LStripSlash(s)
    ensures forall i :: 0 <= i < |s| - |LStripSlash(s)| ==> s[i] == SLASH
  {
    if s != [] && s[0] == SLASH {
      LStripSlashIsExact(s[1..]);
      var n := |s| - |LStripSlash(s)|;
      assert s[n..] == s[1..][n - 1..];
      forall i | 0 <= i < n ensures s[i] == SLASH { if i > 0 { assert s[i] == s[1..][i - 1]; } }
    }
  }

  /** What the order is: the first character that differs decides, and a prefix comes first. */
  lemma {:induction false} LessByFirstDifference(p: string, a: string, b: string)
    requires a == [] || b == [] || a[0] != b[0]
    ensures Less(p + a, p + b) <==> (a == [] && b != []) || (a != [] && b != [] && a[0] as int < b[0] as int)
  {
    if p == [] {
      assert p + a == a && p + b == b;
    } else {
      LessByFirstDifference(p[1..], a, b);
      assert (p + a)[0] == (p + b)[0] == p[0];
      assert (p + a)[1..] == p[1..] + a && (p + b)[1..] == p[1..] + b;
    }
  }
}
