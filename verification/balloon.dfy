/**
 * balloon: plan which donors give up how much memory so that `memsize` bytes
 * become free, e.g. to start a new domain (dom0/qmemman/qmemman_algo.py).
 */
module Balloon {
  import opened PyBuiltins
  import opened Domains

  /** `REQ_SAFETY_NET_FACTOR`: ask for 5% more, so that a donor yielding slightly less does not leave the caller stuck. */
  const REQ_SAFETY_NET_FACTOR: real := 1.05

  /** One entry of the donor list: key, memory_actual, and how much the donor can spare (-need). */
  datatype Donor = Donor(key: string, actual: int, avail: real)

  /** A domain may donate when it has a report, has not stalled before, and is above its preference. */
  predicate CanDonate(d: DomainState)
    requires d.Usable()
  {
    d.meminfo.Some? && !d.noProgress && MemoryNeeded(d) < 0.0
  }

  /** The donors of a dictionary, in order. */
  function BalloonDonors(s: Dict): (ds: seq<Donor>)
    requires AllUsable(s)
    ensures forall d | d in ds :: d.avail > 0.0
  {
    if s == [] then []
    else
      var e := s[|s| - 1];
      var init := BalloonDonors(s[..|s| - 1]);
      if CanDonate(e.1) then init + [Donor(e.0, e.1.memoryActual, -MemoryNeeded(e.1))] else init
  }

  /** `available`: the total the donors can spare. */
  function TotalAvail(ds: seq<Donor>): (total: real)
    ensures (forall d | d in ds :: d.avail > 0.0) ==> (total > 0.0 <==> ds != [])
  {
    if ds == [] then 0.0
    else
      assert forall d | d in ds[..|ds| - 1] :: d in ds;
      TotalAvail(ds[..|ds| - 1]) + ds[|ds| - 1].avail
  }

  /** `memborrowed`: the donor's share of the request, with the safety margin. */
  function Borrowed(d: Donor, scale: real): real {
    d.avail * scale * REQ_SAFETY_NET_FACTOR
  }

  /** The total borrowed from a list of donors. */
  function TotalBorrowed(ds: seq<Donor>, scale: real): real {
    if ds == [] then 0.0 else TotalBorrowed(ds[..|ds| - 1], scale) + Borrowed(ds[|ds| - 1], scale)
  }

  /** One request per donor, in donor order: memory_actual minus what is borrowed, truncated. */
  function BorrowRequests(ds: seq<Donor>, scale: real): (rq: seq<Request>)
    ensures |rq| == |ds|
  {
    if ds == [] then []
    else
      var d := ds[|ds| - 1];
      BorrowRequests(ds[..|ds| - 1], scale) + [Request(d.key, Trunc(d.actual as real - Borrowed(d, scale)) as real)]
  }

  /**
   * balloon divides by no zero and lacks no usage figure: every reporting domain has one, and
   * `scale = memsize / available` is reached only with `available` non-zero.
   */
  predicate BalloonDefined(memsize: int, s: Dict) {
    && AllUsable(s)
    && (TotalAvail(BalloonDonors(s)) >= memsize as real ==> TotalAvail(BalloonDonors(s)) > 0.0)
  }

  /** The plan balloon returns: empty when the donors cannot spare `memsize`, else a share from each donor. */
  function BalloonPlan(memsize: int, s: Dict): seq<Request>
    requires BalloonDefined(memsize, s)
  {
    var ds := BalloonDonors(s);
    var available := TotalAvail(ds);
    if available < memsize as real then [] else BorrowRequests(ds, memsize as real / available)
  }

  lemma DonorsStep(s: Dict, i: nat)
    requires AllUsable(s) && i < |s|
    ensures BalloonDonors(s[..i + 1])
         == BalloonDonors(s[..i]) + if CanDonate(s[i].1) then [Donor(s[i].0, s[i].1.memoryActual, -MemoryNeeded(s[i].1))] else []
  {
    assert s[..i + 1][..i] == s[..i];
  }

  lemma TotalAvailAppend(ds: seq<Donor>, d: Donor)
    ensures TotalAvail(ds + [d]) == TotalAvail(ds) + d.avail
  {
    assert (ds + [d])[..|ds|] == ds;
  }

  /** One step of the second loop, with the loop's own intermediate values. */
  lemma BorrowStep(ds: seq<Donor>, scale: real, j: nat, memborrowed: real, memtarget: int)
    requires j < |ds|
    requires memborrowed == Borrowed(ds[j], scale) && memtarget == Trunc(ds[j].actual as real - memborrowed)
    ensures BorrowRequests(ds[..j + 1], scale) == BorrowRequests(ds[..j], scale) + [Request(ds[j].key, memtarget as real)]
  {
    assert ds[..j + 1][..j] == ds[..j];
  }

  /** balloon, over the domain dictionary. */
  method Balloon(memsize: int, domainDictionary: DomainDict) returns (request: seq<Request>)
    requires BalloonDefined(memsize, Snapshot(domainDictionary))
    // the first conjunct restates the precondition so that the plan is well defined here
    ensures BalloonDefined(memsize, Snapshot(domainDictionary)) && request == BalloonPlan(memsize, Snapshot(domainDictionary))
  {
    ghost var s := Snapshot(domainDictionary);
    var donors: seq<Donor> := [];
    var available: real := 0.0;
    for i := 0 to |domainDictionary|
      invariant Snapshot(domainDictionary) == s
      invariant donors == BalloonDonors(s[..i])
      invariant available == TotalAvail(donors)
    {
      var key, domain := domainDictionary[i].0, domainDictionary[i].1;
      ghost var e := s[i];
      assert e == (key, domain.State());
      DonorsStep(s, i);
      if domain.meminfo.None? {
        continue;
      }
      if domain.noProgress {
        continue;
      }
      var need := MemoryNeeded(domain.State());
      if need < 0.0 {
        var donor := Donor(key, domain.memoryActual, -need);
        assert CanDonate(e.1) && donor == Donor(e.0, e.1.memoryActual, -MemoryNeeded(e.1));
        TotalAvailAppend(donors, donor);
        donors := donors + [donor];
        available := available - need;
      } else {
        assert !CanDonate(e.1);
      }
    }
    assert s[..|s|] == s;
    assert Snapshot(domainDictionary) == s;
    assert donors == BalloonDonors(s) && available == TotalAvail(donors);
    if available < memsize as real {
      return [];
    }
    var scale := memsize as real / available;
    request := [];
    for j := 0 to |donors|
      invariant Snapshot(domainDictionary) == s
      invariant request == BorrowRequests(donors[..j], scale)
    {
      var memborrowed := Borrowed(donors[j], scale);
      var memtarget := Trunc(donors[j].actual as real - memborrowed);
      BorrowStep(donors, scale, j, memborrowed, memtarget);
      request := request + [Request(donors[j].key, memtarget as real)];
    }
    assert donors[..|donors|] == donors;
    assert Snapshot(domainDictionary) == s;
  }

  // ---------------------------------------------------------------------------
  // What the plan promises

  /** Every entry of the donor list comes from a domain that may donate, with what it can spare. */
  lemma {:induction false} BalloonDonorsSound(s: Dict)
    requires AllUsable(s)
    ensures forall d | d in BalloonDonors(s) ::
      exists e | e in s :: CanDonate(e.1) && d == Donor(e.0, e.1.memoryActual, -MemoryNeeded(e.1))
  {
    if s != [] {
      var init := s[..|s| - 1];
      BalloonDonorsSound(init);
      forall d | d in BalloonDonors(s)
        ensures exists e | e in s :: CanDonate(e.1) && d == Donor(e.0, e.1.memoryActual, -MemoryNeeded(e.1))
      {
        if d in BalloonDonors(init) {
          var e :| e in init && CanDonate(e.1) && d == Donor(e.0, e.1.memoryActual, -MemoryNeeded(e.1));
          assert e in s;
        } else {
          assert s[|s| - 1] in s;
        }
      }
    }
  }

  /**
   * Every domain that has a report, has not stalled and sits above its preference
   * is on the donor list.
   */
  lemma {:induction false} BalloonDonorsComplete(s: Dict, i: nat)
    requires AllUsable(s)
    requires i < |s| && CanDonate(s[i].1)
    ensures Donor(s[i].0, s[i].1.memoryActual, -MemoryNeeded(s[i].1)) in BalloonDonors(s)
  {
    var init := s[..|s| - 1];
    if i < |init| {
      assert init[i] == s[i];
      BalloonDonorsComplete(init, i);
    }
  }

  lemma {:induction false} BorrowRequestsAt(ds: seq<Donor>, scale: real, j: nat)
    requires j < |ds|
    ensures BorrowRequests(ds, scale)[j]
         == Request(ds[j].key, Trunc(ds[j].actual as real - Borrowed(ds[j], scale)) as real)
  {
    if j < |ds| - 1 {
      BorrowRequestsAt(ds[..|ds| - 1], scale, j);
    }
  }

  lemma {:induction false} TotalBorrowedScales(ds: seq<Donor>, scale: real)
    ensures TotalBorrowed(ds, scale) == TotalAvail(ds) * scale * REQ_SAFETY_NET_FACTOR
  {
    if ds != [] {
      TotalBorrowedScales(ds[..|ds| - 1], scale);
    }
  }

  /** The request is infeasible exactly when the donors together cannot spare `memsize`; then the plan is empty. */
  lemma BalloonEmptyIffInfeasible(memsize: int, s: Dict)
    requires BalloonDefined(memsize, s)
    ensures BalloonPlan(memsize, s) == [] <==> TotalAvail(BalloonDonors(s)) < memsize as real
  {
  }

  /** A donor's share is not negative when the request is not. */
  lemma BorrowedNonNegative(d: Donor, memsize: int, available: real)
    requires d.avail > 0.0 && available > 0.0 && memsize >= 0
    ensures Borrowed(d, memsize as real / available) >= 0.0
  {
  }

  /**
   * A feasible plan has one request per donor, in donor order; each target is
   * memory_actual minus the donor's share, truncated toward zero, and for a
   * non-negative request never above memory_actual.
   */
  lemma BalloonPerDonor(memsize: int, s: Dict, j: nat)
    requires AllUsable(s)
    requires TotalAvail(BalloonDonors(s)) >= memsize as real
    requires TotalAvail(BalloonDonors(s)) > 0.0
    requires j < |BalloonDonors(s)|
    ensures var ds := BalloonDonors(s);
      var scale := memsize as real / TotalAvail(ds);
      && |BalloonPlan(memsize, s)| == |ds|
      && BalloonPlan(memsize, s)[j] == Request(ds[j].key, Trunc(ds[j].actual as real - Borrowed(ds[j], scale)) as real)
      && (memsize >= 0 ==> BalloonPlan(memsize, s)[j].target <= ds[j].actual as real)
  {
    var ds := BalloonDonors(s);
    var available := TotalAvail(ds);
    var scale := memsize as real / available;
    BorrowRequestsAt(ds, scale, j);
    if memsize >= 0 {
      assert ds[j] in ds;
      BorrowedNonNegative(ds[j], memsize, available);
      TruncBounds(ds[j].actual as real - Borrowed(ds[j], scale), ds[j].actual);
    }
  }

  /** Before truncation the shares add up to exactly 1.05 times the request. */
  lemma BalloonBorrowedSum(memsize: int, s: Dict)
    requires AllUsable(s)
    requires TotalAvail(BalloonDonors(s)) >= memsize as real
    requires TotalAvail(BalloonDonors(s)) > 0.0
    ensures var ds := BalloonDonors(s);
      TotalBorrowed(ds, memsize as real / TotalAvail(ds)) == REQ_SAFETY_NET_FACTOR * memsize as real
  {
    var ds := BalloonDonors(s);
    var a := TotalAvail(ds);
    TotalBorrowedScales(ds, memsize as real / a);
    assert a * (memsize as real / a) == memsize as real;
  }
}
