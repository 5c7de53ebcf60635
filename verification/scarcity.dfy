/**
 * balance_when_low_on_memory: when free memory cannot bring every domain up to
 * its preference, squeeze each donor down to its prefmem and share what is left
 * among the acceptors in the ratio of their prefmem (dom0/qmemman/qmemman_algo.py).
 */
module Scarcity {
  import opened PyBuiltins
  import opened Domains

  /** A donor with less than 10 MiB to spare is assumed to be squeezed already and is left alone. */
  const SQUEEZE_THRESHOLD: int := 10 * 1024 * 1024

  /** `avail`: how far a domain sits above its preference. */
  function Surplus(d: DomainState): (avail: real)
    requires d.memUsed.Some?
    ensures Prefmem(d) == d.memoryActual as real - avail
  {
    -MemoryNeeded(d)
  }

  /** A donor worth squeezing. */
  predicate Squeezable(d: DomainState)
    requires d.memUsed.Some?
  {
    Surplus(d) >= SQUEEZE_THRESHOLD as real
  }

  /** Every domain of the list has a usage figure, as prefmem and memory_needed demand. */
  predicate Measured(s: Dict) {
    forall i | 0 <= i < |s| :: s[i].1.memUsed.Some?
  }

  /** `donors_rq`: each squeezable donor, in order, is asked to go down to exactly its prefmem. */
  function SqueezeRequests(donors: Dict): seq<Request>
    requires Measured(donors)
  {
    if donors == [] then []
    else
      var e := donors[|donors| - 1];
      SqueezeRequests(donors[..|donors| - 1]) + if Squeezable(e.1) then [Request(e.0, Prefmem(e.1))] else []
  }

  /** What the squeezable donors give up together. */
  function SqueezedSurplus(donors: Dict): real
    requires Measured(donors)
  {
    if donors == [] then 0.0
    else
      var e := donors[|donors| - 1];
      SqueezedSurplus(donors[..|donors| - 1]) + if Squeezable(e.1) then Surplus(e.1) else 0.0
  }

  /** `squeezed_mem`: the free memory less everything the squeezed donors give up. */
  function Squeezed(xenFreeMemory: int, donors: Dict): real
    requires Measured(donors)
  {
    xenFreeMemory as real - SqueezedSurplus(donors)
  }

  /** `target_nonint` of an acceptor: memory_actual plus its share, `prefmem / total_mem_pref_acceptors`, of `squeezed_mem`. */
  function Share(d: DomainState, totalMemPrefAcceptors: real, squeezedMem: real): real
    requires d.memUsed.Some? && totalMemPrefAcceptors != 0.0
  {
    d.memoryActual as real + Prefmem(d) / totalMemPrefAcceptors * squeezedMem
  }

  /** `acceptors_rq`: one request per acceptor, in order, its share truncated toward zero. */
  function ShareRequests(acceptors: Dict, totalMemPrefAcceptors: real, squeezedMem: real): (rq: seq<Request>)
    requires Measured(acceptors) && (acceptors != [] ==> totalMemPrefAcceptors != 0.0)
    ensures |rq| == |acceptors|
  {
    if acceptors == [] then []
    else
      var e := acceptors[|acceptors| - 1];
      ShareRequests(acceptors[..|acceptors| - 1], totalMemPrefAcceptors, squeezedMem)
        + [Request(e.0, Trunc(Share(e.1, totalMemPrefAcceptors, squeezedMem)) as real)]
  }

  /**
   * The regime divides by no zero and lacks no usage figure: every donor and acceptor has one,
   * and the division by `total_mem_pref_acceptors` is reached only when
   * `squeezed_mem` is not negative and there is an acceptor.
   */
  predicate LowDefined(xenFreeMemory: int, totalMemPrefAcceptors: real, donors: Dict, acceptors: Dict) {
    && Measured(donors)
    && Measured(acceptors)
    && (Squeezed(xenFreeMemory, donors) >= 0.0 && acceptors != [] ==> totalMemPrefAcceptors != 0.0)
  }

  /** The plan: the squeezes alone when `squeezed_mem` is negative, else the squeezes followed by the shares. */
  function LowPlan(xenFreeMemory: int, totalMemPrefAcceptors: real, donors: Dict, acceptors: Dict): seq<Request>
    requires LowDefined(xenFreeMemory, totalMemPrefAcceptors, donors, acceptors)
  {
    var squeezedMem := Squeezed(xenFreeMemory, donors);
    if squeezedMem < 0.0 then SqueezeRequests(donors)
    else SqueezeRequests(donors) + ShareRequests(acceptors, totalMemPrefAcceptors, squeezedMem)
  }

  /** One step of the donor loop, with the loop's own intermediate value. */
  lemma SqueezeStep(donors: Dict, i: nat, avail: real)
    requires Measured(donors) && i < |donors|
    requires avail == -MemoryNeeded(donors[i].1)
    ensures Measured(donors[..i]) && Measured(donors[..i + 1])
    ensures SqueezeRequests(donors[..i + 1])
         == SqueezeRequests(donors[..i]) + if avail >= SQUEEZE_THRESHOLD as real then [Request(donors[i].0, Prefmem(donors[i].1))] else []
    ensures SqueezedSurplus(donors[..i + 1])
         == SqueezedSurplus(donors[..i]) + if avail >= SQUEEZE_THRESHOLD as real then avail else 0.0
  {
    assert donors[..i + 1][..i] == donors[..i];
  }

  /** One step of the acceptor loop, with the loop's own intermediate values. */
  lemma ShareStep(acceptors: Dict, totalMemPrefAcceptors: real, squeezedMem: real, j: nat,
                  pref: real, scale: real, targetNonint: real)
    requires Measured(acceptors) && j < |acceptors| && totalMemPrefAcceptors != 0.0
    requires pref == Prefmem(acceptors[j].1) && scale == pref / totalMemPrefAcceptors
    requires targetNonint == acceptors[j].1.memoryActual as real + scale * squeezedMem
    ensures Measured(acceptors[..j]) && Measured(acceptors[..j + 1])
    ensures ShareRequests(acceptors[..j + 1], totalMemPrefAcceptors, squeezedMem)
         == ShareRequests(acceptors[..j], totalMemPrefAcceptors, squeezedMem) + [Request(acceptors[j].0, Trunc(targetNonint) as real)]
  {
    assert acceptors[..j + 1][..j] == acceptors[..j];
    assert targetNonint == Share(acceptors[j].1, totalMemPrefAcceptors, squeezedMem);
  }

  /**
   * balance_when_low_on_memory. The donors and acceptors are passed as the
   * (key, domain) entries of the dictionary rather than as keys into it.
   */
  method BalanceWhenLowOnMemory(xenFreeMemory: int, totalMemPrefAcceptors: real, donors: DomainDict, acceptors: DomainDict)
    returns (request: seq<Request>)
    requires LowDefined(xenFreeMemory, totalMemPrefAcceptors, Snapshot(donors), Snapshot(acceptors))
    // the first conjunct restates the precondition so that the plan is well defined here
    ensures LowDefined(xenFreeMemory, totalMemPrefAcceptors, Snapshot(donors), Snapshot(acceptors))
         && request == LowPlan(xenFreeMemory, totalMemPrefAcceptors, Snapshot(donors), Snapshot(acceptors))
  {
    ghost var sd := Snapshot(donors);
    ghost var sa := Snapshot(acceptors);
    var donorsRq: seq<Request> := [];
    var acceptorsRq: seq<Request> := [];
    var squeezedMem: real := xenFreeMemory as real;
    for i := 0 to |donors|
      invariant Snapshot(donors) == sd && Snapshot(acceptors) == sa
      invariant Measured(sd[..i])
      invariant donorsRq == SqueezeRequests(sd[..i])
      invariant squeezedMem == Squeezed(xenFreeMemory, sd[..i])
    {
      var key, domain := donors[i].0, donors[i].1;
      ghost var e := sd[i];
      assert e == (key, domain.State());
      var avail := -MemoryNeeded(domain.State());
      SqueezeStep(sd, i, avail);
      if avail < SQUEEZE_THRESHOLD as real {
        continue;
      }
      squeezedMem := squeezedMem - avail;
      donorsRq := donorsRq + [Request(key, Prefmem(domain.State()))];
    }
    assert sd[..|sd|] == sd;
    assert Snapshot(donors) == sd && Snapshot(acceptors) == sa;
    if squeezedMem < 0.0 {
      return donorsRq;
    }
    for j := 0 to |acceptors|
      invariant Snapshot(donors) == sd && Snapshot(acceptors) == sa
      invariant Measured(sa[..j])
      invariant acceptorsRq == ShareRequests(sa[..j], totalMemPrefAcceptors, squeezedMem)
    {
      var key, domain := acceptors[j].0, acceptors[j].1;
      ghost var e := sa[j];
      assert e == (key, domain.State());
      var pref := Prefmem(domain.State());
      var scale := pref / totalMemPrefAcceptors;
      var targetNonint := domain.memoryActual as real + scale * squeezedMem;
      ShareStep(sa, totalMemPrefAcceptors, squeezedMem, j, pref, scale, targetNonint);
      acceptorsRq := acceptorsRq + [Request(key, Trunc(targetNonint) as real)];
    }
    assert sa[..|sa|] == sa;
    assert Snapshot(donors) == sd && Snapshot(acceptors) == sa;
    request := donorsRq + acceptorsRq;
  }

  // ---------------------------------------------------------------------------
  // What the plan promises

  /** Every squeeze asks a squeezable donor to go down to exactly its prefmem. */
  lemma {:induction false} SqueezeSound(donors: Dict)
    requires Measured(donors)
    ensures forall r | r in SqueezeRequests(donors) ::
      exists e | e in donors :: e.1.memUsed.Some? && Squeezable(e.1) && r == Request(e.0, Prefmem(e.1))
  {
    if donors != [] {
      var init := donors[..|donors| - 1];
      var e := donors[|donors| - 1];
      SqueezeSound(init);
      assert e in donors;
      assert forall x | x in init :: x in donors;
    }
  }

  /** Every squeezable donor is asked to go down to its prefmem. */
  lemma {:induction false} SqueezeComplete(donors: Dict, i: nat)
    requires Measured(donors) && i < |donors| && Squeezable(donors[i].1)
    ensures Request(donors[i].0, Prefmem(donors[i].1)) in SqueezeRequests(donors)
  {
    var init := donors[..|donors| - 1];
    if i < |init| {
      assert init[i] == donors[i];
      SqueezeComplete(init, i);
    }
  }

  /** With distinct keys, a donor receives a request exactly when it can spare at least the threshold. */
  lemma SqueezeExactly(donors: Dict, i: nat)
    requires Measured(donors) && DistinctKeys(donors) && i < |donors|
    ensures donors[i].0 in Ids(SqueezeRequests(donors)) <==> Squeezable(donors[i].1)
  {
    var rq := SqueezeRequests(donors);
    if Squeezable(donors[i].1) {
      SqueezeComplete(donors, i);
      var k :| 0 <= k < |rq| && rq[k] == Request(donors[i].0, Prefmem(donors[i].1));
      assert Ids(rq)[k] == donors[i].0;
    }
    if donors[i].0 in Ids(rq) {
      var k :| 0 <= k < |rq| && Ids(rq)[k] == donors[i].0;
      assert rq[k] in rq;
      SqueezeSound(donors);
      var e :| e in donors && e.1.memUsed.Some? && Squeezable(e.1) && rq[k] == Request(e.0, Prefmem(e.1));
      var m :| 0 <= m < |donors| && donors[m] == e;
      assert donors[m].0 == donors[i].0;
    }
  }

  /** memory_actual summed over the squeezable donors. */
  function SqueezedActual(donors: Dict): real
    requires Measured(donors)
  {
    if donors == [] then 0.0
    else
      var e := donors[|donors| - 1];
      SqueezedActual(donors[..|donors| - 1]) + if Squeezable(e.1) then e.1.memoryActual as real else 0.0
  }

  /** The squeezed donors' targets add up to what they hold less what they give up. */
  lemma {:induction false} SqueezeSum(donors: Dict)
    requires Measured(donors)
    ensures SumTargets(SqueezeRequests(donors)) == SqueezedActual(donors) - SqueezedSurplus(donors)
  {
    if donors != [] {
      var init := donors[..|donors| - 1];
      var e := donors[|donors| - 1];
      SqueezeSum(init);
      SumTargetsAppend(SqueezeRequests(init), if Squeezable(e.1) then [Request(e.0, Prefmem(e.1))] else []);
    }
  }

  /** The squeezed donors give up a non-negative amount, and hold no more than all the donors. */
  lemma {:induction false} SqueezedBounds(donors: Dict)
    requires Measured(donors) && AllReporting(donors) && ActualsNonNegative(donors)
    ensures 0.0 <= SqueezedSurplus(donors)
    ensures SqueezedActual(donors) <= TotalActual(donors)
  {
    if donors != [] {
      var e := donors[|donors| - 1];
      SqueezedBounds(donors[..|donors| - 1]);
      assert Reporting(e.1) && e.1.memoryActual >= 0;
    }
  }

  /** The acceptors' unrounded targets, summed. */
  function ShareSum(acceptors: Dict, totalMemPrefAcceptors: real, squeezedMem: real): real
    requires Measured(acceptors) && (acceptors != [] ==> totalMemPrefAcceptors != 0.0)
  {
    if acceptors == [] then 0.0
    else
      var e := acceptors[|acceptors| - 1];
      ShareSum(acceptors[..|acceptors| - 1], totalMemPrefAcceptors, squeezedMem) + Share(e.1, totalMemPrefAcceptors, squeezedMem)
  }

  /** Before truncation, the acceptors together gain their prefmem's share of `squeezed_mem`. */
  lemma {:induction false} ShareSumIs(acceptors: Dict, totalMemPrefAcceptors: real, squeezedMem: real)
    requires Measured(acceptors) && AllReporting(acceptors) && totalMemPrefAcceptors != 0.0
    ensures ShareSum(acceptors, totalMemPrefAcceptors, squeezedMem)
         == TotalActual(acceptors) + TotalPref(acceptors) / totalMemPrefAcceptors * squeezedMem
  {
    if acceptors != [] {
      var init := acceptors[..|acceptors| - 1];
      var e := acceptors[|acceptors| - 1];
      ShareSumIs(init, totalMemPrefAcceptors, squeezedMem);
      assert Reporting(e.1);
      ShareAdds(TotalActual(init), e.1.memoryActual as real, TotalPref(init), Prefmem(e.1), totalMemPrefAcceptors, squeezedMem);
    }
  }

  /** The j-th acceptor's request is its share, truncated toward zero. */
  lemma {:induction false} ShareAt(acceptors: Dict, totalMemPrefAcceptors: real, squeezedMem: real, j: nat)
    requires Measured(acceptors) && totalMemPrefAcceptors != 0.0 && j < |acceptors|
    ensures ShareRequests(acceptors, totalMemPrefAcceptors, squeezedMem)[j]
         == Request(acceptors[j].0, Trunc(Share(acceptors[j].1, totalMemPrefAcceptors, squeezedMem)) as real)
  {
    if j < |acceptors| - 1 {
      ShareAt(acceptors[..|acceptors| - 1], totalMemPrefAcceptors, squeezedMem, j);
    }
  }

  /** `squeezed_mem` is shared proportionally to prefmem: any two acceptors' unrounded gains are in the ratio of their prefmem. */
  lemma {:induction false} ShareProportional(d: DomainState, e: DomainState, totalMemPrefAcceptors: real, squeezedMem: real)
    requires d.memUsed.Some? && e.memUsed.Some? && totalMemPrefAcceptors != 0.0
    ensures (Share(d, totalMemPrefAcceptors, squeezedMem) - d.memoryActual as real) * Prefmem(e)
         == (Share(e, totalMemPrefAcceptors, squeezedMem) - e.memoryActual as real) * Prefmem(d)
  {
    var f := squeezedMem / totalMemPrefAcceptors;
    assert Prefmem(d) / totalMemPrefAcceptors * squeezedMem == Prefmem(d) * f;
    assert Prefmem(e) / totalMemPrefAcceptors * squeezedMem == Prefmem(e) * f;
    assert Prefmem(d) * f * Prefmem(e) == Prefmem(e) * f * Prefmem(d);
  }

  lemma ShareAtLeastActual(d: DomainState, totalMemPrefAcceptors: real, squeezedMem: real)
    requires d.memUsed.Some? && d.memUsed.value >= 0 && totalMemPrefAcceptors > 0.0 && squeezedMem >= 0.0
    ensures d.memoryActual as real <= Share(d, totalMemPrefAcceptors, squeezedMem)
  {
  }

  /** With `squeezed_mem` not negative, no acceptor is asked to shrink. */
  lemma ShareNotBelowActual(acceptors: Dict, totalMemPrefAcceptors: real, squeezedMem: real, j: nat)
    requires Measured(acceptors) && j < |acceptors| && acceptors[j].1.memUsed.value >= 0
    requires totalMemPrefAcceptors > 0.0 && squeezedMem >= 0.0
    ensures acceptors[j].1.memoryActual as real <= ShareRequests(acceptors, totalMemPrefAcceptors, squeezedMem)[j].target
  {
    ShareAt(acceptors, totalMemPrefAcceptors, squeezedMem, j);
    var d := acceptors[j].1;
    ShareAtLeastActual(d, totalMemPrefAcceptors, squeezedMem);
    TruncBounds(Share(d, totalMemPrefAcceptors, squeezedMem), d.memoryActual);
  }

  /**
   * With `squeezed_mem` not negative, no acceptor is asked to shrink, and none
   * is given more than its unrounded share.
   */
  lemma ShareGrows(acceptors: Dict, totalMemPrefAcceptors: real, squeezedMem: real, j: nat)
    requires Measured(acceptors) && j < |acceptors|
    requires acceptors[j].1.memUsed.value >= 0 && acceptors[j].1.memoryActual >= 0
    requires totalMemPrefAcceptors > 0.0 && squeezedMem >= 0.0
    ensures var target := ShareRequests(acceptors, totalMemPrefAcceptors, squeezedMem)[j].target;
      acceptors[j].1.memoryActual as real <= target <= Share(acceptors[j].1, totalMemPrefAcceptors, squeezedMem)
  {
    ShareNotBelowActual(acceptors, totalMemPrefAcceptors, squeezedMem, j);
    ShareAt(acceptors, totalMemPrefAcceptors, squeezedMem, j);
    ShareAtLeastActual(acceptors[j].1, totalMemPrefAcceptors, squeezedMem);
  }

  /** Truncating the shares never adds memory. */
  lemma {:induction false} ShareRoundsDown(acceptors: Dict, totalMemPrefAcceptors: real, squeezedMem: real)
    requires Measured(acceptors) && WellMeasured(acceptors) && ActualsNonNegative(acceptors)
    requires totalMemPrefAcceptors > 0.0 && squeezedMem >= 0.0
    ensures SumTargets(ShareRequests(acceptors, totalMemPrefAcceptors, squeezedMem))
         <= ShareSum(acceptors, totalMemPrefAcceptors, squeezedMem)
  {
    if acceptors != [] {
      var init := acceptors[..|acceptors| - 1];
      var e := acceptors[|acceptors| - 1];
      ShareRoundsDown(init, totalMemPrefAcceptors, squeezedMem);
      var x := Share(e.1, totalMemPrefAcceptors, squeezedMem);
      SumTargetsAppend(ShareRequests(init, totalMemPrefAcceptors, squeezedMem), [Request(e.0, Trunc(x) as real)]);
      assert e.1.memUsed.value >= 0 && e.1.memoryActual >= 0;
      ShareAtLeastActual(e.1, totalMemPrefAcceptors, squeezedMem);
      assert Trunc(x) as real <= x;
    }
  }

  /**
   * With `total_mem_pref_acceptors` as balance computes it, the acceptors' unrounded
   * increments over memory_actual add up to exactly `squeezed_mem`.
   */
  lemma SharesAddUp(acceptors: Dict, squeezedMem: real)
    requires Measured(acceptors) && AllReporting(acceptors) && TotalPref(acceptors) != 0.0
    ensures ShareSum(acceptors, TotalPref(acceptors), squeezedMem) == TotalActual(acceptors) + squeezedMem
  {
    ShareSumIs(acceptors, TotalPref(acceptors), squeezedMem);
    WholeShare(TotalPref(acceptors), squeezedMem);
  }

  /** With `total_mem_pref_acceptors` their total prefmem, the acceptors are given at most `squeezed_mem` between them. */
  lemma SharesBound(acceptors: Dict, totalMemPrefAcceptors: real, squeezedMem: real)
    requires Measured(acceptors) && AllReporting(acceptors) && WellMeasured(acceptors) && ActualsNonNegative(acceptors)
    requires acceptors != [] && totalMemPrefAcceptors == TotalPref(acceptors) != 0.0 && squeezedMem >= 0.0
    ensures SumTargets(ShareRequests(acceptors, totalMemPrefAcceptors, squeezedMem))
         <= TotalActual(acceptors) + squeezedMem
  {
    TotalPrefNonNegative(acceptors);
    ShareRoundsDown(acceptors, totalMemPrefAcceptors, squeezedMem);
    SharesAddUp(acceptors, squeezedMem);
  }

  /**
   * With `total_mem_pref_acceptors` as balance computes it, the plan's targets add
   * up to at most the free memory plus what the donors and acceptors hold now.
   */
  lemma LowConserves(xenFreeMemory: int, totalMemPrefAcceptors: real, donors: Dict, acceptors: Dict)
    requires LowDefined(xenFreeMemory, totalMemPrefAcceptors, donors, acceptors)
    requires AllReporting(donors) && AllReporting(acceptors) && WellMeasured(acceptors)
    requires ActualsNonNegative(donors) && ActualsNonNegative(acceptors)
    requires xenFreeMemory >= 0 && totalMemPrefAcceptors == TotalPref(acceptors)
    ensures SumTargets(LowPlan(xenFreeMemory, totalMemPrefAcceptors, donors, acceptors))
         <= xenFreeMemory as real + TotalActual(donors) + TotalActual(acceptors)
  {
    var squeezedMem := Squeezed(xenFreeMemory, donors);
    var squeezes := SqueezeRequests(donors);
    assert SumTargets(squeezes) <= TotalActual(donors) - SqueezedSurplus(donors) by {
      SqueezeSum(donors);
      SqueezedBounds(donors);
    }
    assert 0.0 <= SqueezedSurplus(donors) by {
      SqueezedBounds(donors);
    }
    TotalActualNonNegative(acceptors);
    if squeezedMem >= 0.0 {
      var shares := ShareRequests(acceptors, totalMemPrefAcceptors, squeezedMem);
      SumTargetsAppend(squeezes, shares);
      assert SumTargets(shares) <= TotalActual(acceptors) + squeezedMem by {
        if acceptors != [] {
          SharesBound(acceptors, totalMemPrefAcceptors, squeezedMem);
        }
      }
    }
  }
}
