/**
 * balance_when_enough_memory: when free memory exceeds what the domains below
 * their preference need, every reporting domain is set to its prefmem plus a
 * share of the remainder proportional to its prefmem (dom0/qmemman/qmemman_algo.py).
 */
module Surplus {
  import opened PyBuiltins
  import opened Domains

  /** Targets are scaled by 0.999 so that rounding never hands out more than is there. */
  const ROUNDING_MARGIN: real := 0.999

  /** `target_nonint`: prefmem plus the domain's share, `prefmem / total_mem_pref`, of the available memory. */
  function Unrounded(d: DomainState, totalMemPref: real, totalAvailable: real): real
    requires d.memUsed.Some? && totalMemPref != 0.0
  {
    Prefmem(d) + Prefmem(d) / totalMemPref * totalAvailable
  }

  /** `target`: the unrounded target with the margin, truncated toward zero. */
  function EnoughTarget(d: DomainState, totalMemPref: real, totalAvailable: real): int
    requires d.memUsed.Some? && totalMemPref != 0.0
  {
    Trunc(ROUNDING_MARGIN * Unrounded(d, totalMemPref, totalAvailable))
  }

  /**
   * The regime divides by no zero and lacks no usage figure: every reporting domain has one,
   * and the division by `total_mem_pref` happens only if some domain reports.
   */
  predicate EnoughDefined(s: Dict, totalMemPref: real) {
    AllUsable(s) && (Live(s) != [] ==> totalMemPref != 0.0)
  }

  /** The prefix of a dictionary satisfies the regime's condition when the whole does. */
  lemma EnoughDefinedPrefix(s: Dict, totalMemPref: real, n: nat)
    requires EnoughDefined(s, totalMemPref) && n <= |s|
    ensures EnoughDefined(s[..n], totalMemPref)
  {
    LivePrefix(s, n);
  }

  /** A reporting entry of a dictionary satisfying the condition makes the division defined. */
  lemma EnoughDefinedAt(s: Dict, totalMemPref: real, i: nat)
    requires EnoughDefined(s, totalMemPref) && i < |s|
    ensures s[i].1.Usable() && (s[i].1.meminfo.Some? ==> totalMemPref != 0.0)
  {
    if s[i].1.meminfo.Some? {
      LiveComplete(s, i);
    }
  }

  /** A reporting domain together with the target the regime computes for it. */
  datatype Proposal = Proposal(key: string, actual: int, target: int)

  /** The reporting domains of a dictionary with their targets, in order. */
  function Proposals(s: Dict, totalMemPref: real, totalAvailable: real): seq<Proposal>
    requires EnoughDefined(s, totalMemPref)
  {
    if s == [] then []
    else
      EnoughDefinedPrefix(s, totalMemPref, |s| - 1);
      EnoughDefinedAt(s, totalMemPref, |s| - 1);
      var e := s[|s| - 1];
      Proposals(s[..|s| - 1], totalMemPref, totalAvailable)
        + if e.1.meminfo.Some? then [Proposal(e.0, e.1.memoryActual, EnoughTarget(e.1, totalMemPref, totalAvailable))] else []
  }

  /** `donors_rq`: a request for each proposal whose target is below memory_actual, in order. */
  function Shrinking(ps: seq<Proposal>): seq<Request> {
    if ps == [] then []
    else
      var p := ps[|ps| - 1];
      Shrinking(ps[..|ps| - 1]) + if p.target < p.actual then [Request(p.key, p.target as real)] else []
  }

  /** `acceptors_rq`: a request for each of the other proposals, in order. */
  function Growing(ps: seq<Proposal>): seq<Request> {
    if ps == [] then []
    else
      var p := ps[|ps| - 1];
      Growing(ps[..|ps| - 1]) + if p.target >= p.actual then [Request(p.key, p.target as real)] else []
  }

  /** The plan: the shrinking requests first, then the growing ones. */
  function EnoughPlan(s: Dict, totalMemPref: real, totalAvailable: real): seq<Request>
    requires EnoughDefined(s, totalMemPref)
  {
    var ps := Proposals(s, totalMemPref, totalAvailable);
    Shrinking(ps) + Growing(ps)
  }

  lemma ProposalsStep(s: Dict, totalMemPref: real, totalAvailable: real, i: nat)
    requires EnoughDefined(s, totalMemPref) && i < |s|
    ensures EnoughDefined(s[..i], totalMemPref) && EnoughDefined(s[..i + 1], totalMemPref)
    ensures s[i].1.Usable() && (s[i].1.meminfo.Some? ==> totalMemPref != 0.0)
    ensures Proposals(s[..i + 1], totalMemPref, totalAvailable)
         == Proposals(s[..i], totalMemPref, totalAvailable)
            + if s[i].1.meminfo.Some?
              then [Proposal(s[i].0, s[i].1.memoryActual, EnoughTarget(s[i].1, totalMemPref, totalAvailable))]
              else []
  {
    EnoughDefinedPrefix(s, totalMemPref, i);
    EnoughDefinedPrefix(s, totalMemPref, i + 1);
    EnoughDefinedAt(s, totalMemPref, i);
    assert s[..i + 1][..i] == s[..i];
  }

  lemma SplitStep(ps: seq<Proposal>, p: Proposal)
    ensures Shrinking(ps + [p]) == Shrinking(ps) + if p.target < p.actual then [Request(p.key, p.target as real)] else []
    ensures Growing(ps + [p]) == Growing(ps) + if p.target >= p.actual then [Request(p.key, p.target as real)] else []
  {
    assert (ps + [p])[..|ps|] == ps;
  }

  /** The target as the loop computes it, step by step, is the one the plan specifies. */
  lemma TargetAsComputed(d: DomainState, totalMemPref: real, totalAvailable: real, pref: real, scale: real, targetNonint: real)
    requires d.memUsed.Some? && totalMemPref != 0.0
    requires pref == Prefmem(d) && scale == pref / totalMemPref && targetNonint == pref + scale * totalAvailable
    ensures Trunc(ROUNDING_MARGIN * targetNonint) == EnoughTarget(d, totalMemPref, totalAvailable)
  {
  }

  /** balance_when_enough_memory, over the domain dictionary; `xenFreeMemory` only feeds a diagnostic. */
  method BalanceWhenEnoughMemory(domainDictionary: DomainDict, xenFreeMemory: int, totalMemPref: real, totalAvailableMemory: real)
    returns (request: seq<Request>)
    requires EnoughDefined(Snapshot(domainDictionary), totalMemPref)
    // the first conjunct restates the precondition so that the plan is well defined here
    ensures EnoughDefined(Snapshot(domainDictionary), totalMemPref)
         && request == EnoughPlan(Snapshot(domainDictionary), totalMemPref, totalAvailableMemory)
  {
    ghost var s := Snapshot(domainDictionary);
    var donorsRq: seq<Request> := [];
    var acceptorsRq: seq<Request> := [];
    for i := 0 to |domainDictionary|
      invariant Snapshot(domainDictionary) == s
      invariant EnoughDefined(s[..i], totalMemPref)
      invariant donorsRq == Shrinking(Proposals(s[..i], totalMemPref, totalAvailableMemory))
      invariant acceptorsRq == Growing(Proposals(s[..i], totalMemPref, totalAvailableMemory))
    {
      var key, domain := domainDictionary[i].0, domainDictionary[i].1;
      ghost var e := s[i];
      assert e == (key, domain.State());
      ProposalsStep(s, totalMemPref, totalAvailableMemory, i);
      ghost var ps := Proposals(s[..i], totalMemPref, totalAvailableMemory);
      if domain.meminfo.None? {
        assert Proposals(s[..i + 1], totalMemPref, totalAvailableMemory) == ps;
        continue;
      }
      var pref := Prefmem(domain.State());
      var scale := pref / totalMemPref;
      var targetNonint := pref + scale * totalAvailableMemory;
      var target := Trunc(ROUNDING_MARGIN * targetNonint);
      ghost var p := Proposal(key, domain.memoryActual, target);
      assert e.1 == domain.State();
      TargetAsComputed(e.1, totalMemPref, totalAvailableMemory, pref, scale, targetNonint);
      assert p == Proposal(e.0, e.1.memoryActual, EnoughTarget(e.1, totalMemPref, totalAvailableMemory));
      assert Proposals(s[..i + 1], totalMemPref, totalAvailableMemory) == ps + [p];
      SplitStep(ps, p);
      if target < domain.memoryActual {
        donorsRq := donorsRq + [Request(key, target as real)];
      } else {
        acceptorsRq := acceptorsRq + [Request(key, target as real)];
      }
    }
    assert s[..|s|] == s;
    assert Snapshot(domainDictionary) == s;
    request := donorsRq + acceptorsRq;
  }

  // ---------------------------------------------------------------------------
  // What the plan promises

  function ProposalKeys(ps: seq<Proposal>): (keys: seq<string>)
    ensures |keys| == |ps| && forall i | 0 <= i < |ps| :: keys[i] == ps[i].key
  {
    seq(|ps|, i requires 0 <= i < |ps| => ps[i].key)
  }

  /** The proposals are those of the reporting domains, in order. */
  lemma {:induction false} ProposalsKeys(s: Dict, totalMemPref: real, totalAvailable: real)
    requires EnoughDefined(s, totalMemPref)
    ensures ProposalKeys(Proposals(s, totalMemPref, totalAvailable)) == Keys(Live(s))
  {
    if s != [] {
      var init := s[..|s| - 1];
      var e := s[|s| - 1];
      ProposalsStep(s, totalMemPref, totalAvailable, |s| - 1);
      assert s[..|s|] == s;
      ProposalsKeys(init, totalMemPref, totalAvailable);
      var live := if e.1.meminfo.Some? then [e] else [];
      assert Live(s) == Live(init) + live;
      KeysAppend(Live(init), live);
      ProposalKeysAppend(Proposals(init, totalMemPref, totalAvailable),
        if e.1.meminfo.Some? then [Proposal(e.0, e.1.memoryActual, EnoughTarget(e.1, totalMemPref, totalAvailable))] else []);
    }
  }

  lemma ProposalKeysAppend(a: seq<Proposal>, b: seq<Proposal>)
    ensures ProposalKeys(a + b) == ProposalKeys(a) + ProposalKeys(b)
  {
  }

  /** Splitting proposals into shrinking and growing requests loses and duplicates none. */
  lemma {:induction false} SplitKeys(ps: seq<Proposal>)
    ensures multiset(Ids(Shrinking(ps) + Growing(ps))) == multiset(ProposalKeys(ps))
  {
    if ps != [] {
      var init := ps[..|ps| - 1];
      var p := ps[|ps| - 1];
      assert init + [p] == ps;
      SplitStep(init, p);
      SplitKeys(init);
      var sh, gr := Shrinking(init), Growing(init);
      var sh1 := if p.target < p.actual then [Request(p.key, p.target as real)] else [];
      var gr1 := if p.target >= p.actual then [Request(p.key, p.target as real)] else [];
      IdsAppend(sh + sh1, gr + gr1);
      IdsAppend(sh, sh1);
      IdsAppend(gr, gr1);
      IdsAppend(sh, gr);
      assert ProposalKeys(ps) == ProposalKeys(init) + [p.key];
    }
  }

  /** Every reporting domain gets exactly one request, and no other key appears in the plan. */
  lemma EnoughPlanKeys(s: Dict, totalMemPref: real, totalAvailable: real)
    requires EnoughDefined(s, totalMemPref)
    ensures multiset(Ids(EnoughPlan(s, totalMemPref, totalAvailable))) == multiset(Keys(Live(s)))
  {
    SplitKeys(Proposals(s, totalMemPref, totalAvailable));
    ProposalsKeys(s, totalMemPref, totalAvailable);
  }

  /** A proposal lands among the shrinking requests exactly when its target is below memory_actual, else among the growing ones. */
  lemma {:induction false} SplitComplete(ps: seq<Proposal>, i: nat)
    requires i < |ps|
    ensures if ps[i].target < ps[i].actual
      then Request(ps[i].key, ps[i].target as real) in Shrinking(ps)
      else Request(ps[i].key, ps[i].target as real) in Growing(ps)
  {
    var init := ps[..|ps| - 1];
    assert init + [ps[|ps| - 1]] == ps;
    SplitStep(init, ps[|ps| - 1]);
    if i < |init| {
      assert init[i] == ps[i];
      SplitComplete(init, i);
    }
  }

  /** Every shrinking request comes from a proposal below memory_actual, every growing one from a proposal that is not. */
  lemma {:induction false} SplitSound(ps: seq<Proposal>)
    ensures forall r | r in Shrinking(ps) :: exists p | p in ps :: r == Request(p.key, p.target as real) && p.target < p.actual
    ensures forall r | r in Growing(ps) :: exists p | p in ps :: r == Request(p.key, p.target as real) && p.target >= p.actual
  {
    if ps != [] {
      var init := ps[..|ps| - 1];
      var p := ps[|ps| - 1];
      assert init + [p] == ps;
      SplitStep(init, p);
      SplitSound(init);
      assert p in ps;
      assert forall q | q in init :: q in ps;
    }
  }

  /** Each reporting domain is proposed with its target. */
  lemma {:induction false} ProposalsComplete(s: Dict, totalMemPref: real, totalAvailable: real, i: nat)
    requires EnoughDefined(s, totalMemPref) && i < |s| && s[i].1.meminfo.Some?
    ensures totalMemPref != 0.0
    ensures Proposal(s[i].0, s[i].1.memoryActual, EnoughTarget(s[i].1, totalMemPref, totalAvailable))
         in Proposals(s, totalMemPref, totalAvailable)
  {
    ProposalsStep(s, totalMemPref, totalAvailable, |s| - 1);
    assert s[..|s|] == s;
    var init := s[..|s| - 1];
    if i < |init| {
      assert init[i] == s[i];
      ProposalsComplete(init, totalMemPref, totalAvailable, i);
    }
  }

  /** Each proposal is a reporting domain of the dictionary with its target. */
  lemma {:induction false} ProposalsSound(s: Dict, totalMemPref: real, totalAvailable: real)
    requires EnoughDefined(s, totalMemPref)
    ensures forall p | p in Proposals(s, totalMemPref, totalAvailable) ::
      exists e | e in s && e.1.meminfo.Some? ::
        totalMemPref != 0.0 && p == Proposal(e.0, e.1.memoryActual, EnoughTarget(e.1, totalMemPref, totalAvailable))
  {
    if s != [] {
      var init := s[..|s| - 1];
      var e := s[|s| - 1];
      ProposalsStep(s, totalMemPref, totalAvailable, |s| - 1);
      assert s[..|s|] == s;
      ProposalsSound(init, totalMemPref, totalAvailable);
      assert e in s;
      assert forall x | x in init :: x in s;
    }
  }

  /**
   * A reporting domain's request carries its target; it is among the shrinking
   * requests exactly when that target is below memory_actual, and among the
   * growing ones otherwise.
   */
  lemma EnoughPlanComplete(s: Dict, totalMemPref: real, totalAvailable: real, i: nat)
    requires EnoughDefined(s, totalMemPref) && i < |s| && s[i].1.meminfo.Some?
    ensures totalMemPref != 0.0
    ensures var ps := Proposals(s, totalMemPref, totalAvailable);
      var target := EnoughTarget(s[i].1, totalMemPref, totalAvailable);
      if target < s[i].1.memoryActual
      then Request(s[i].0, target as real) in Shrinking(ps)
      else Request(s[i].0, target as real) in Growing(ps)
  {
    var ps := Proposals(s, totalMemPref, totalAvailable);
    ProposalsComplete(s, totalMemPref, totalAvailable, i);
    var j :| 0 <= j < |ps| && ps[j] == Proposal(s[i].0, s[i].1.memoryActual, EnoughTarget(s[i].1, totalMemPref, totalAvailable));
    SplitComplete(ps, j);
  }

  /**
   * Every shrinking request comes from a reporting domain whose target is below
   * its memory_actual, every growing one from a reporting domain whose target is not.
   */
  lemma EnoughPlanSound(s: Dict, totalMemPref: real, totalAvailable: real)
    requires EnoughDefined(s, totalMemPref)
    ensures var ps := Proposals(s, totalMemPref, totalAvailable);
      forall r | r in Shrinking(ps) ::
        exists e | e in s && e.1.meminfo.Some? ::
          totalMemPref != 0.0
          && r == Request(e.0, EnoughTarget(e.1, totalMemPref, totalAvailable) as real)
          && EnoughTarget(e.1, totalMemPref, totalAvailable) < e.1.memoryActual
    ensures var ps := Proposals(s, totalMemPref, totalAvailable);
      forall r | r in Growing(ps) ::
        exists e | e in s && e.1.meminfo.Some? ::
          totalMemPref != 0.0
          && r == Request(e.0, EnoughTarget(e.1, totalMemPref, totalAvailable) as real)
          && EnoughTarget(e.1, totalMemPref, totalAvailable) >= e.1.memoryActual
  {
    var ps := Proposals(s, totalMemPref, totalAvailable);
    SplitSound(ps);
    ProposalsSound(s, totalMemPref, totalAvailable);
  }

  /** Every request of the plan goes to a domain of the dictionary that has a report. */
  lemma EnoughPlanReporting(s: Dict, totalMemPref: real, totalAvailable: real)
    requires EnoughDefined(s, totalMemPref)
    ensures forall r | r in EnoughPlan(s, totalMemPref, totalAvailable) ::
      exists e | e in s :: e.0 == r.id && e.1.meminfo.Some?
  {
    var ps := Proposals(s, totalMemPref, totalAvailable);
    SplitSound(ps);
    ProposalsSound(s, totalMemPref, totalAvailable);
  }

  // ---------------------------------------------------------------------------
  // Conservation

  /** The targets of a list of proposals, summed. */
  function SumProposed(ps: seq<Proposal>): real {
    if ps == [] then 0.0 else SumProposed(ps[..|ps| - 1]) + ps[|ps| - 1].target as real
  }

  /** Splitting keeps every target. */
  lemma {:induction false} SplitSum(ps: seq<Proposal>)
    ensures SumTargets(Shrinking(ps)) + SumTargets(Growing(ps)) == SumProposed(ps)
  {
    if ps != [] {
      var init := ps[..|ps| - 1];
      var p := ps[|ps| - 1];
      assert init + [p] == ps;
      SplitStep(init, p);
      SplitSum(init);
      SumTargetsAppend(Shrinking(init), if p.target < p.actual then [Request(p.key, p.target as real)] else []);
      SumTargetsAppend(Growing(init), if p.target >= p.actual then [Request(p.key, p.target as real)] else []);
    }
  }

  /** The unrounded targets summed over the reporting domains. */
  function UnroundedSum(s: Dict, totalMemPref: real, totalAvailable: real): real
    requires EnoughDefined(s, totalMemPref)
  {
    if s == [] then 0.0
    else
      EnoughDefinedPrefix(s, totalMemPref, |s| - 1);
      EnoughDefinedAt(s, totalMemPref, |s| - 1);
      var e := s[|s| - 1];
      UnroundedSum(s[..|s| - 1], totalMemPref, totalAvailable)
        + if e.1.meminfo.Some? then Unrounded(e.1, totalMemPref, totalAvailable) else 0.0
  }

  /** Before rounding, the shares split the available memory exactly in the ratio of prefmem. */
  lemma {:induction false} UnroundedSumIs(s: Dict, totalMemPref: real, totalAvailable: real)
    requires EnoughDefined(s, totalMemPref) && totalMemPref != 0.0
    ensures UnroundedSum(s, totalMemPref, totalAvailable)
         == TotalPref(s) + TotalPref(s) / totalMemPref * totalAvailable
  {
    if s != [] {
      var e := s[|s| - 1];
      EnoughDefinedPrefix(s, totalMemPref, |s| - 1);
      UnroundedSumIs(s[..|s| - 1], totalMemPref, totalAvailable);
      if e.1.meminfo.Some? {
        var a, b := TotalPref(s[..|s| - 1]), Prefmem(e.1);
        ShareAdds(a, b, a, b, totalMemPref, totalAvailable);
      }
    }
  }

  lemma UnroundedNonNegative(d: DomainState, totalMemPref: real, totalAvailable: real)
    requires d.memUsed.Some? && d.memUsed.value >= 0 && totalMemPref > 0.0 && totalAvailable > 0.0
    ensures Unrounded(d, totalMemPref, totalAvailable) >= 0.0
  {
  }

  /** `target_nonint` is prefmem scaled by one factor common to all domains, `(total_mem_pref + total_available_memory) / total_mem_pref`. */
  lemma UnroundedScales(d: DomainState, totalMemPref: real, totalAvailable: real)
    requires d.memUsed.Some? && totalMemPref != 0.0
    ensures Unrounded(d, totalMemPref, totalAvailable) == Prefmem(d) * ((totalMemPref + totalAvailable) / totalMemPref)
  {
    var p, tmp, ta := Prefmem(d), totalMemPref, totalAvailable;
    assert (tmp + ta) / tmp == tmp / tmp + ta / tmp;
    assert tmp / tmp == 1.0;
    assert p / tmp * ta == p * (ta / tmp);
  }

  /** The available memory is distributed proportionally to prefmem: any two domains' unrounded targets are in the ratio of their prefmem. */
  lemma {:induction false} UnroundedProportional(d: DomainState, e: DomainState, totalMemPref: real, totalAvailable: real)
    requires d.memUsed.Some? && e.memUsed.Some? && totalMemPref != 0.0
    ensures Unrounded(d, totalMemPref, totalAvailable) * Prefmem(e) == Unrounded(e, totalMemPref, totalAvailable) * Prefmem(d)
  {
    var f := (totalMemPref + totalAvailable) / totalMemPref;
    UnroundedScales(d, totalMemPref, totalAvailable);
    UnroundedScales(e, totalMemPref, totalAvailable);
    assert Prefmem(d) * f * Prefmem(e) == Prefmem(e) * f * Prefmem(d);
  }

  /** A domain's target depends on nothing but its prefmem: domains with equal prefmem get equal targets. */
  lemma EqualPrefEqualTarget(d: DomainState, e: DomainState, totalMemPref: real, totalAvailable: real)
    requires d.memUsed.Some? && e.memUsed.Some? && totalMemPref != 0.0
    requires Prefmem(d) == Prefmem(e)
    ensures EnoughTarget(d, totalMemPref, totalAvailable) == EnoughTarget(e, totalMemPref, totalAvailable)
  {
  }

  /** Truncating each margin-scaled target never adds memory. */
  lemma {:induction false} ProposalsRoundDown(s: Dict, totalMemPref: real, totalAvailable: real)
    requires WellMeasured(s) && totalMemPref > 0.0 && totalAvailable > 0.0
    ensures EnoughDefined(s, totalMemPref)
    ensures SumProposed(Proposals(s, totalMemPref, totalAvailable))
         <= ROUNDING_MARGIN * UnroundedSum(s, totalMemPref, totalAvailable)
  {
    if s != [] {
      var init := s[..|s| - 1];
      var e := s[|s| - 1];
      ProposalsStep(s, totalMemPref, totalAvailable, |s| - 1);
      assert s[..|s|] == s;
      ProposalsRoundDown(init, totalMemPref, totalAvailable);
      if e.1.meminfo.Some? {
        var ps := Proposals(init, totalMemPref, totalAvailable);
        var p := Proposal(e.0, e.1.memoryActual, EnoughTarget(e.1, totalMemPref, totalAvailable));
        assert (ps + [p])[..|ps|] == ps;
        assert Proposals(s, totalMemPref, totalAvailable) == ps + [p];
        assert SumProposed(ps + [p]) == SumProposed(ps) + p.target as real;
        assert UnroundedSum(s, totalMemPref, totalAvailable)
            == UnroundedSum(init, totalMemPref, totalAvailable) + Unrounded(e.1, totalMemPref, totalAvailable);
        UnroundedNonNegative(e.1, totalMemPref, totalAvailable);
        var x := ROUNDING_MARGIN * Unrounded(e.1, totalMemPref, totalAvailable);
        assert p.target as real <= x;
        assert ROUNDING_MARGIN * UnroundedSum(s, totalMemPref, totalAvailable)
            == ROUNDING_MARGIN * UnroundedSum(init, totalMemPref, totalAvailable) + x;
      } else {
        assert Proposals(s, totalMemPref, totalAvailable) == Proposals(init, totalMemPref, totalAvailable);
        assert UnroundedSum(s, totalMemPref, totalAvailable) == UnroundedSum(init, totalMemPref, totalAvailable);
      }
    } else {
      assert ROUNDING_MARGIN * UnroundedSum(s, totalMemPref, totalAvailable) == 0.0;
    }
  }

  /**
   * With `total_mem_pref` and `total_available_memory` as balance computes them, the
   * unrounded targets add up to exactly the free memory plus what the reporting
   * domains hold now: the surplus regime hands out all of it before the 0.999 margin.
   */
  lemma UnroundedTotal(xenFreeMemory: int, s: Dict)
    requires AllUsable(s) && EnoughDefined(s, TotalPref(s)) && TotalPref(s) != 0.0
    ensures UnroundedSum(s, TotalPref(s), xenFreeMemory as real - TotalNeeded(s))
         == xenFreeMemory as real + TotalActual(s)
  {
    var tp := TotalPref(s);
    var ta := xenFreeMemory as real - TotalNeeded(s);
    UnroundedSumIs(s, tp, ta);
    WholeShare(tp, ta);
    TotalNeededSplit(s);
  }

  /**
   * With `total_mem_pref` and `total_available_memory` as balance computes them,
   * the targets of the plan add up to at most 0.999 times the free memory plus
   * what the reporting domains hold now: the plan never hands out more than there is.
   */
  lemma EnoughConserves(xenFreeMemory: int, s: Dict)
    requires WellMeasured(s)
    requires TotalPref(s) > 0.0
    requires xenFreeMemory as real - TotalNeeded(s) > 0.0
    ensures var ta := xenFreeMemory as real - TotalNeeded(s);
      && EnoughDefined(s, TotalPref(s))
      && SumTargets(EnoughPlan(s, TotalPref(s), ta))
         <= ROUNDING_MARGIN * (xenFreeMemory as real + TotalActual(s))
  {
    var tp := TotalPref(s);
    var ta := xenFreeMemory as real - TotalNeeded(s);
    ProposalsRoundDown(s, tp, ta);
    var ps := Proposals(s, tp, ta);
    var unrounded := UnroundedSum(s, tp, ta);
    assert SumTargets(EnoughPlan(s, tp, ta)) == SumProposed(ps) by {
      SumTargetsAppend(Shrinking(ps), Growing(ps));
      SplitSum(ps);
    }
    UnroundedTotal(xenFreeMemory, s);
  }
}
