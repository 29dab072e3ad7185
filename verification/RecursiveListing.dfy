/**
 * The flat recursive pager of the MCP tools: every key under a prefix, up to
 * `max_keys` a call, resumed by continuation token.
 */
module RecursiveListing {
  import opened Keys
  import opened ObjectStore
  import opened Wrappers

  const S3_PAGE_SIZE := 1000

  /** The caller's max_keys after the ceiling and the floors of 1. */
  function Limit(maxKeys: int, maxPageSize: int): (m: nat)
    ensures m >= 1
    ensures 1 <= maxKeys <= maxPageSize ==> m == maxKeys
    ensures 1 <= maxPageSize <= maxKeys ==> m == maxPageSize
    ensures maxKeys < 1 || maxPageSize < 1 ==> m == 1
  {
    var ceiling := if maxPageSize < 1 then 1 else maxPageSize;
    var m := if maxKeys < ceiling then maxKeys else ceiling;
    if m < 1 then 1 else m
  }

  /** Whether whole S3 pages add up to the limit. */
  predicate Aligned(limit: nat) {
    limit <= S3_PAGE_SIZE || limit % S3_PAGE_SIZE == 0
  }

  /** The inner loop: copy real keys until the limit is reached. */
  method TakeKeys(files: seq<Obj>, page: seq<Obj>, limit: nat) returns (files': seq<Obj>, ghost taken: nat)
    requires |files| < limit
    ensures taken <= |page| && files' == files + Real(page[..taken])
    ensures |files'| <= limit && (taken < |page| ==> |files'| == limit)
    ensures NoMarkers(page) ==> taken == Min(limit - |files|, |page|) && |files'| == |files| + taken
  {
    hide Real;
    files' := files;
    taken := 0;
    var i := 0;
    while i < |page|
      invariant 0 <= i <= |page| && taken == i
      invariant files' == files + Real(page[..i]) && |files'| < limit
      invariant NoMarkers(page) ==> |files'| == |files| + i
    {
      RealStep(page, i);
      assert files + (Real(page[..i]) + [page[i]]) == (files + Real(page[..i])) + [page[i]];
      if !IsMarker(page[i]) {
        files' := files' + [page[i]];
      }
      i := i + 1;
      taken := i;
      if |files'| >= limit { break; }
    }
  }

  /** The limit in whole pages: what must be there for a call to find its last page full. */
  function WholePages(limit: nat): nat {
    if limit <= S3_PAGE_SIZE then limit else (limit + S3_PAGE_SIZE - 1) / S3_PAGE_SIZE * S3_PAGE_SIZE
  }

  /** Where a call ends, where it resumes and what it reports when pages are full and there are no markers. */
  predicate PlainOutcome(limit: nat, start: nat, total: nat, stop: nat, resume: nat, isTruncated: bool)
    requires start <= total
  {
    && stop == Min(start + limit, total)
    && resume == Min(start + WholePages(limit), total)
    && (isTruncated <==> WholePages(limit) <= total - start)
  }

  /**
   * With full pages and no markers: a call leaves keys out without saying so,
   * neither truncated nor with a token, exactly when what it faces exceeds the
   * limit and does not fill the limit's whole pages.
   */
  lemma QuietLossExactly(limit: nat, start: nat, total: nat, stop: nat, resume: nat, isTruncated: bool)
    requires limit >= 1 && start <= total && PlainOutcome(limit, start, total, stop, resume, isTruncated)
    ensures !isTruncated && stop < total <==> limit < total - start < WholePages(limit)
    ensures limit < total - start < WholePages(limit) ==> resume == total
    ensures Aligned(limit) ==> (isTruncated ==> limit <= total - start) && (!isTruncated ==> stop == total)
  {
    WholePagesFit(limit);
  }

  lemma WholePagesFit(limit: nat)
    ensures limit <= WholePages(limit) < limit + S3_PAGE_SIZE
    ensures Aligned(limit) <==> WholePages(limit) == limit
  {
  }

  /** A limit of 1500 on 1700 plain keys: 200 keys are left out, with no token and no sign of it. */
  lemma QuietLoss(stop: nat, resume: nat, isTruncated: bool)
    requires PlainOutcome(1500, 0, 1700, stop, resume, isTruncated)
    ensures stop == 1500 && resume == 1700 && !isTruncated
  {
  }

  lemma PlainPage(limit: nat, start: nat, total: nat, pages: nat, resume: nat, taken: nat)
    requires limit >= 1 && start + pages * S3_PAGE_SIZE <= total && pages * S3_PAGE_SIZE < limit
    requires limit <= S3_PAGE_SIZE ==> pages == 0
    requires var token := start + pages * S3_PAGE_SIZE;
             && resume == Min(token + Min(limit, S3_PAGE_SIZE), total)
             && taken == Min(limit - pages * S3_PAGE_SIZE, resume - token)
    ensures var token := start + pages * S3_PAGE_SIZE;
            && (pages * S3_PAGE_SIZE + taken >= limit ==>
                  PlainOutcome(limit, start, total, token + taken, resume,
                               resume < total || resume - token >= Min(limit, S3_PAGE_SIZE)))
            && (pages * S3_PAGE_SIZE + taken < limit && resume == total ==>
                  PlainOutcome(limit, start, total, token + taken, resume, false))
    ensures pages * S3_PAGE_SIZE + taken < limit ==> taken == resume - start - pages * S3_PAGE_SIZE
    ensures pages * S3_PAGE_SIZE + taken < limit && resume < total ==>
              limit > S3_PAGE_SIZE && resume == start + (pages + 1) * S3_PAGE_SIZE
  {
    if pages * S3_PAGE_SIZE + taken >= limit && limit > S3_PAGE_SIZE {
      assert WholePages(limit) == (pages + 1) * S3_PAGE_SIZE;
    }
    WholePagesFit(limit);
  }

  lemma PartOfPage(listing: seq<Obj>, token: nat, next: nat, taken: nat)
    requires token + taken <= next <= |listing|
    ensures listing[token..next][..taken] == listing[token..token + taken]
  {
  }

  lemma PageTaken(listing: seq<Obj>, start: nat, token: nat, taken: nat, next: nat)
    requires start <= token <= token + taken <= next <= |listing|
    ensures Real(listing[start..token]) + Real(listing[token..next][..taken]) == Real(listing[start..token + taken])
    ensures |Real(listing[token..next][..taken])| <= |Real(listing[token..next])|
    ensures token + taken == next ==> Real(listing[token..next][..taken]) == Real(listing[token..next])
  {
    hide Real;
    PartOfPage(listing, token, next, taken);
    RealSlice(listing, start, token, token + taken);
    RealSlice(listing, token, token + taken, next);
  }

  lemma PlainPart(listing: seq<Obj>, token: nat, next: nat)
    requires token <= next <= |listing|
    ensures NoMarkers(listing) ==> NoMarkers(listing[token..next])
  {
  }

  // ------------------------------------------------- full pages, any markers

  /**
   * The page boundary a call stops at when pages are full: the first one by
   * which it has met the limit, counting `got` real keys so far, or the end.
   */
  function CallEnd(listing: seq<Obj>, token: nat, limit: nat, got: nat): (e: nat)
    requires token <= |listing| && limit >= 1
    ensures token <= e <= |listing| && (token < |listing| ==> token < e)
    decreases |listing| - token
  {
    var next := Min(token + Min(limit, S3_PAGE_SIZE), |listing|);
    var got' := got + |Real(listing[token..next])|;
    if next == |listing| || got' >= limit then next else CallEnd(listing, next, limit, got')
  }

  /** Whenever a call meets the limit, it meets it at the end of a page: no real key of its pages is over. */
  predicate NoOverrun(listing: seq<Obj>, at: nat, limit: nat)
    requires at <= |listing| && limit >= 1
    decreases |listing| - at
  {
    var e := CallEnd(listing, at, limit, 0);
    |Real(listing[at..e])| <= limit && (at < e < |listing| ==> NoOverrun(listing, e, limit))
  }

  lemma CallEndStep(listing: seq<Obj>, token: nat, limit: nat, got: nat)
    requires token <= |listing| && limit >= 1
    ensures var next := Min(token + Min(limit, S3_PAGE_SIZE), |listing|);
            var got' := got + |Real(listing[token..next])|;
            CallEnd(listing, token, limit, got)
            == if next == |listing| || got' >= limit then next else CallEnd(listing, next, limit, got')
  {
  }

  /** One marker is enough: under a limit of 2 it shifts the calls against the pages, and the last key is lost. */
  lemma MarkerCutsAPage(listing: seq<Obj>)
    requires |listing| == 4 && IsMarker(listing[0]) && NoMarkers(listing[1..])
    ensures !NoOverrun(listing, 0, 2)
  {
    hide IsMarker;
    assert listing[1..][0] == listing[1] && listing[1..][1] == listing[2] && listing[1..][2] == listing[3];
    RealStep(listing, 0);
    RealStep(listing, 1);
    RealStep(listing, 2);
    RealStep(listing, 3);
    hide Real;
    assert listing[0..2] == listing[..2] && listing[0..4] == listing[..4] == listing;
    RealSlice(listing, 0, 2, 4);
    CallEndStep(listing, 0, 2, 0);
    CallEndStep(listing, 2, 2, 1);
  }

  lemma RealOfNothing(listing: seq<Obj>, at: nat)
    requires at <= |listing|
    ensures Real(listing[at..at]) == []
  {
  }

  // ------------------------------------------------- the loops over pages

  /**
   * One call.  The ghost results say how far it looked: the keys returned are
   * the real ones of [start, stop), the last page began at `last`, and the next
   * call resumes at `resume`.
   */
  method ListRecursive(bucket: map<Key, Meta>, prefix: Key, maxKeys: int, maxPageSize: int, start: nat, full: bool)
    returns (files: seq<Obj>, isTruncated: bool, next: Option<nat>, ghost stop: nat, ghost resume: nat, ghost last: nat)
    requires start <= |Under(Enumerate(bucket), prefix)|
    ensures start <= last <= stop <= resume <= |Under(Enumerate(bucket), prefix)|
    ensures files == Real(Under(Enumerate(bucket), prefix)[start..stop])
    ensures |files| <= Limit(maxKeys, maxPageSize)
    ensures resume - last <= Min(Limit(maxKeys, maxPageSize), S3_PAGE_SIZE)
    ensures next == if resume < |Under(Enumerate(bucket), prefix)| then Some(resume) else None
    ensures next.Some? ==> isTruncated && start < resume
    ensures isTruncated <==>
              && |files| == Limit(maxKeys, maxPageSize)
              && (next.Some? || resume - last == Min(Limit(maxKeys, maxPageSize), S3_PAGE_SIZE))
    ensures stop < resume ==> |files| == Limit(maxKeys, maxPageSize) > 1
    ensures |files| + |Real(Under(Enumerate(bucket), prefix)[stop..resume])|
         == |Real(Under(Enumerate(bucket), prefix)[start..resume])|
    ensures Real(Under(Enumerate(bucket), prefix)[stop..resume]) == []
       <==> |Real(Under(Enumerate(bucket), prefix)[start..resume])| <= Limit(maxKeys, maxPageSize)
    ensures full ==> resume == CallEnd(Under(Enumerate(bucket), prefix), start, Limit(maxKeys, maxPageSize), 0)
    ensures full && NoMarkers(Under(Enumerate(bucket), prefix)) ==>
              PlainOutcome(Limit(maxKeys, maxPageSize), start, |Under(Enumerate(bucket), prefix)|,
                           stop, resume, isTruncated)
  {
    hide Real, Under, Enumerate, NoMarkers, PlainOutcome, CallEnd, Less, IsMarker, SortedKeys, NoOverrun;
    var listing := Under(Enumerate(bucket), prefix);
    ghost var plain := full && NoMarkers(listing);
    var limit := Limit(maxKeys, maxPageSize);
    var pageSize := Min(limit, S3_PAGE_SIZE);
    var token: nat := start;
    files, isTruncated, next, stop, resume, last := [], false, None, start, start, start;
    var more := true;
    ghost var pages: nat := 0;
    while more
      invariant start <= last <= token <= |listing| && |files| < limit
      invariant files == Real(listing[start..token])
      invariant more ==> token == start || token < |listing|
      invariant !more ==> token == |listing| == stop == resume && resume - last <= pageSize
      invariant next == None && !isTruncated
      invariant full ==>
                  CallEnd(listing, start, limit, 0) == if more then CallEnd(listing, token, limit, |files|) else token
      invariant plain ==> |files| == token - start
      invariant plain && more ==> token == start + pages * S3_PAGE_SIZE && (limit <= S3_PAGE_SIZE ==> pages == 0)
      invariant plain && !more ==> PlainOutcome(limit, start, |listing|, stop, resume, isTruncated)
      decreases more, |listing| - token
    {
      var page, respTruncated, respNext := ListPage(listing, token, pageSize, full);
      ghost var taken, got := 0, |files|;
      PlainPart(listing, token, respNext);
      files, taken := TakeKeys(files, page, limit);
      last, stop, resume := token, token + taken, respNext;
      PageTaken(listing, start, token, taken, respNext);
      if full { CallEndStep(listing, token, limit, got); }
      if plain { PlainPage(limit, start, |listing|, pages, resume, taken); }
      pages := pages + 1;
      if |files| >= limit {
        isTruncated := respTruncated || |page| >= pageSize;
        next := if isTruncated && respTruncated then Some(respNext) else None;
        break;
      }
      token := respNext;
      more := respTruncated;
    }
    LostOfCall(listing, start, stop, resume, limit);
  }

  lemma LostOfCall(listing: seq<Obj>, start: nat, stop: nat, resume: nat, limit: nat)
    requires start <= stop <= resume <= |listing| && |Real(listing[start..stop])| <= limit
    requires stop < resume ==> |Real(listing[start..stop])| == limit
    ensures |Real(listing[start..stop])| + |Real(listing[stop..resume])| == |Real(listing[start..resume])|
    ensures Real(listing[stop..resume]) == [] <==> |Real(listing[start..resume])| <= limit
  {
    RealOfNothing(listing, resume);
    hide Real;
    RealSlice(listing, start, stop, resume);
  }

  lemma NoOverrunStep(listing: seq<Obj>, at: nat, limit: nat)
    requires at <= |listing| && limit >= 1
    ensures var e := CallEnd(listing, at, limit, 0);
            NoOverrun(listing, at, limit)
            <==> |Real(listing[at..e])| <= limit && (at < e < |listing| ==> NoOverrun(listing, e, limit))
  {
  }

  /**
   * A client following the tokens until there is none.  No key comes twice and
   * keys come in order; what is lost is what lay between a call's last key and
   * the end of its last page.  Nothing is lost, however pages fall and whatever
   * markers there are, when the real keys fit in one call or the limit is 1.
   * With full pages, nothing is lost exactly when no call overruns its limit
   * within a page; without markers, that is when whole pages add up to the limit
   * or one call is enough.
   */
  method DrainRecursive(bucket: map<Key, Meta>, prefix: Key, maxKeys: int, maxPageSize: int, full: bool)
    returns (all: seq<Obj>, ghost lost: nat)
    ensures SortedKeys(all)
    ensures forall o :: o in all ==> o.key in bucket && bucket[o.key] == Meta(o.size, o.modified)
                                     && prefix <= o.key && !(o.size == 0 && o.key != [] && o.key[|o.key| - 1] == '/')
    ensures |all| + lost == |Real(Under(Enumerate(bucket), prefix))|
    ensures lost == 0 <==> all == Real(Under(Enumerate(bucket), prefix))
    ensures |Real(Under(Enumerate(bucket), prefix))| <= Limit(maxKeys, maxPageSize) ==> lost == 0
    ensures Limit(maxKeys, maxPageSize) == 1 ==> lost == 0
    ensures full ==> (lost == 0 <==> NoOverrun(Under(Enumerate(bucket), prefix), 0, Limit(maxKeys, maxPageSize)))
    ensures full && NoMarkers(Under(Enumerate(bucket), prefix)) ==>
              (all == Under(Enumerate(bucket), prefix)
               <==> Aligned(Limit(maxKeys, maxPageSize))
                    || |Under(Enumerate(bucket), prefix)| <= Limit(maxKeys, maxPageSize))
  {
    hide Real, Under, Enumerate, IsMarker, NoOverrun, CallEnd;
    ghost var listing := Under(Enumerate(bucket), prefix);
    UnderIsSorted(Enumerate(bucket), prefix);
    ghost var limit := Limit(maxKeys, maxPageSize);
    ghost var plain := full && NoMarkers(listing);
    ghost var lossless := Aligned(limit) || |listing| <= limit;
    WholePagesFit(limit);
    all, lost := [], 0;
    var token: Option<nat> := Some(0);
    ghost var at := 0;
    while token.Some?
      invariant 0 <= at <= |listing|
      invariant token == (if at < |listing| || (at == 0 && token.Some?) then Some(at) else None)
      invariant Collected(listing, at, all, lost)
      invariant lost > 0 ==> |all| >= limit > 1
      invariant full ==> (NoOverrun(listing, 0, limit)
                          <==> lost == 0 && (token.Some? ==> NoOverrun(listing, at, limit)))
      invariant plain && lossless ==> lost == 0
      invariant plain && !lossless && at > 0 ==> lost > 0
      decreases token.Some?, |listing| - at
    {
      var files, isTruncated, next;
      ghost var stop, resume, last;
      files, isTruncated, next, stop, resume, last :=
        ListRecursive(bucket, prefix, maxKeys, maxPageSize, token.value, full);
      CollectMore(listing, at, stop, resume, all, lost);
      if full { NoOverrunStep(listing, at, limit); }
      all := all + files;
      lost := lost + |Real(listing[stop..resume])|;
      at := resume;
      token := next;
    }
    assert listing[..at] == listing;
    if plain { RealOfPlain(listing); }
    forall o | o in all ensures o.key in bucket && bucket[o.key] == Meta(o.size, o.modified)
                                && prefix <= o.key && !(o.size == 0 && o.key != [] && o.key[|o.key| - 1] == '/')
    {
      RealMembers(listing, o);
      UnderMembers(Enumerate(bucket), prefix, o);
    }
  }

  /** Keys collected from the first `at` entries of the listing, in order, `lost` of them missing. */
  ghost predicate Collected(listing: seq<Obj>, at: nat, all: seq<Obj>, lost: nat)
    requires at <= |listing|
  {
    && SortedKeys(all)
    && (forall o :: o in all ==> o in Real(listing[..at]))
    && |all| + lost == |Real(listing[..at])|
    && (lost == 0 ==> all == Real(listing[..at]))
  }

  /** A later call only brings later keys. */
  lemma CollectMore(listing: seq<Obj>, at: nat, stop: nat, resume: nat, all: seq<Obj>, lost: nat)
    requires SortedKeys(listing) && at <= stop <= resume <= |listing|
    requires Collected(listing, at, all, lost)
    ensures Collected(listing, resume, all + Real(listing[at..stop]), lost + |Real(listing[stop..resume])|)
    ensures stop == resume ==> Real(listing[stop..resume]) == []
    ensures NoMarkers(listing) ==> |Real(listing[stop..resume])| == resume - stop
  {
    hide Real;
    var more, gap := Real(listing[at..stop]), Real(listing[stop..resume]);
    assert listing[..resume] == listing[..at] + listing[at..resume];
    RealConcat(listing[..at], listing[at..resume]);
    RealSlice(listing, at, stop, resume);
    RealIsSorted(listing[at..stop]);
    forall i, j | 0 <= i < |all| && 0 <= j < |more| ensures Less(all[i].key, more[j].key) {
      RealMembers(listing[..at], all[i]);
      RealMembers(listing[at..stop], more[j]);
    }
    if NoMarkers(listing) { RealOfPlain(listing[stop..resume]); }
    assert Real(listing[..resume]) == Real(listing[..at]) + more + gap;
  }
}
