/**
 * balance: the entry point run whenever a domain publishes a new meminfo report.
 * A first pass sorts the reporting domains into donors and acceptors and sums
 * their needs and preferences; the sign of the memory left over then picks the
 * surplus or the scarcity regime (dom0/qmemman/qmemman_algo.py).
 */
module Balance {
  import opened Wrappers
  import opened Meminfo
  import opened Domains
  import opened Surplus
  import opened Scarcity

  /** `donors`: the reporting domains above their preference, in order. */
  function Donors(s: Dict): (ds: Dict)
    requires AllUsable(s)
    ensures AllReporting(ds) && Measured(ds)
    ensures forall e | e in ds :: e in s && Reporting(e.1) && MemoryNeeded(e.1) < 0.0
  {
    if s == [] then []
    else
      var e := s[|s| - 1];
      var init := Donors(s[..|s| - 1]);
      assert forall x | x in init :: x in s;
      if e.1.meminfo.Some? && MemoryNeeded(e.1) < 0.0 then init + [e] else init
  }

  /** `acceptors`: the reporting domains at or below their preference, in order. */
  function Acceptors(s: Dict): (acc: Dict)
    requires AllUsable(s)
    ensures AllReporting(acc) && Measured(acc)
    ensures forall e | e in acc :: e in s && Reporting(e.1) && MemoryNeeded(e.1) >= 0.0
  {
    if s == [] then []
    else
      var e := s[|s| - 1];
      var init := Acceptors(s[..|s| - 1]);
      assert forall x | x in init :: x in s;
      if e.1.meminfo.Some? && MemoryNeeded(e.1) >= 0.0 then init + [e] else init
  }

  /** `total_available_memory`: free memory less what the reporting domains need in total. */
  function Available(xenFreeMemory: int, s: Dict): real
    requires AllUsable(s)
  {
    xenFreeMemory as real - TotalNeeded(s)
  }

  /** balance divides by no zero and finds a usage figure wherever it needs one, in the regime it picks. */
  predicate BalanceDefined(xenFreeMemory: int, s: Dict) {
    && AllUsable(s)
    && (Available(xenFreeMemory, s) > 0.0 ==> EnoughDefined(s, TotalPref(s)))
    && (Available(xenFreeMemory, s) <= 0.0 ==> LowDefined(xenFreeMemory, TotalPref(Acceptors(s)), Donors(s), Acceptors(s)))
  }

  /** The plan balance returns. */
  function BalancePlan(xenFreeMemory: int, s: Dict): seq<Request>
    requires BalanceDefined(xenFreeMemory, s)
  {
    if Available(xenFreeMemory, s) > 0.0
    then EnoughPlan(s, TotalPref(s), Available(xenFreeMemory, s))
    else LowPlan(xenFreeMemory, TotalPref(Acceptors(s)), Donors(s), Acceptors(s))
  }

  lemma TotalPrefAppend(s: Dict, e: (string, DomainState))
    requires AllUsable(s) && e.1.Usable()
    ensures AllUsable(s + [e])
    ensures TotalPref(s + [e]) == TotalPref(s) + if e.1.meminfo.Some? then Prefmem(e.1) else 0.0
  {
    assert (s + [e])[..|s|] == s;
  }

  /** One step of the first pass, with the loop's own intermediate values. */
  lemma PassStep(s: Dict, i: nat, need: real, pref: real)
    requires AllUsable(s) && i < |s| && s[i].1.memUsed.Some?
    requires need == MemoryNeeded(s[i].1) && pref == Prefmem(s[i].1)
    ensures AllUsable(s[..i]) && AllUsable(s[..i + 1])
    ensures var live := s[i].1.meminfo.Some?;
      && Donors(s[..i + 1]) == Donors(s[..i]) + (if live && need < 0.0 then [s[i]] else [])
      && Acceptors(s[..i + 1]) == Acceptors(s[..i]) + (if live && need >= 0.0 then [s[i]] else [])
      && TotalNeeded(s[..i + 1]) == TotalNeeded(s[..i]) + (if live then need else 0.0)
      && TotalPref(s[..i + 1]) == TotalPref(s[..i]) + (if live then pref else 0.0)
      && TotalPref(Acceptors(s[..i + 1])) == TotalPref(Acceptors(s[..i])) + (if live && need >= 0.0 then pref else 0.0)
  {
    assert s[..i + 1][..i] == s[..i];
    if s[i].1.meminfo.Some? && need >= 0.0 {
      TotalPrefAppend(Acceptors(s[..i]), s[i]);
    }
  }

  lemma PassStepDead(s: Dict, i: nat)
    requires AllUsable(s) && i < |s| && s[i].1.meminfo.None?
    ensures AllUsable(s[..i]) && AllUsable(s[..i + 1])
    ensures && Donors(s[..i + 1]) == Donors(s[..i])
            && Acceptors(s[..i + 1]) == Acceptors(s[..i])
            && TotalNeeded(s[..i + 1]) == TotalNeeded(s[..i])
            && TotalPref(s[..i + 1]) == TotalPref(s[..i])
  {
    assert s[..i + 1][..i] == s[..i];
  }

  /**
   * Pass 1 of balance: sort the reporting domains into donors and acceptors and
   * sum their needs, their preferences and the acceptors' preferences.
   */
  method FirstPass(domainDictionary: DomainDict)
    returns (totalMemoryNeeded: real, totalMemPref: real, totalMemPrefAcceptors: real,
             donors: DomainDict, acceptors: DomainDict)
    requires AllUsable(Snapshot(domainDictionary))
    ensures var s := Snapshot(domainDictionary);
      && AllUsable(s)
      && Snapshot(donors) == Donors(s) && Snapshot(acceptors) == Acceptors(s)
      && totalMemoryNeeded == TotalNeeded(s)
      && totalMemPref == TotalPref(s)
      && totalMemPrefAcceptors == TotalPref(Acceptors(s))
  {
    ghost var s := Snapshot(domainDictionary);
    totalMemoryNeeded, totalMemPref, totalMemPrefAcceptors := 0.0, 0.0, 0.0;
    donors, acceptors := [], [];
    for i := 0 to |domainDictionary|
      invariant Snapshot(domainDictionary) == s
      invariant AllUsable(s[..i])
      invariant Snapshot(donors) == Donors(s[..i]) && Snapshot(acceptors) == Acceptors(s[..i])
      invariant totalMemoryNeeded == TotalNeeded(s[..i])
      invariant totalMemPref == TotalPref(s[..i])
      invariant totalMemPrefAcceptors == TotalPref(Acceptors(s[..i]))
    {
      var key, domain := domainDictionary[i].0, domainDictionary[i].1;
      ghost var e := s[i];
      assert e == (key, domain.State());
      if domain.meminfo.None? {
        PassStepDead(s, i);
        continue;
      }
      var need := MemoryNeeded(domain.State());
      var pref := Prefmem(domain.State());
      PassStep(s, i, need, pref);
      if need < 0.0 {
        SnapshotAppend(donors, key, domain);
        donors := donors + [(key, domain)];
      } else {
        SnapshotAppend(acceptors, key, domain);
        acceptors := acceptors + [(key, domain)];
        totalMemPrefAcceptors := totalMemPrefAcceptors + pref;
      }
      totalMemoryNeeded := totalMemoryNeeded + need;
      totalMemPref := totalMemPref + pref;
    }
    assert s[..|s|] == s;
    assert Snapshot(domainDictionary) == s;
  }

  /** balance, over the domain dictionary. */
  method Balance(xenFreeMemory: int, domainDictionary: DomainDict) returns (request: seq<Request>)
    requires BalanceDefined(xenFreeMemory, Snapshot(domainDictionary))
    // the first conjunct restates the precondition so that the plan is well defined here
    ensures BalanceDefined(xenFreeMemory, Snapshot(domainDictionary))
         && request == BalancePlan(xenFreeMemory, Snapshot(domainDictionary))
  {
    ghost var s := Snapshot(domainDictionary);
    var totalMemoryNeeded, totalMemPref, totalMemPrefAcceptors, donors, acceptors := FirstPass(domainDictionary);
    assert Snapshot(domainDictionary) == s;
    var totalAvailableMemory := xenFreeMemory as real - totalMemoryNeeded;
    assert totalAvailableMemory == Available(xenFreeMemory, s);
    if totalAvailableMemory > 0.0 {
      assert EnoughDefined(s, totalMemPref);
      request := BalanceWhenEnoughMemory(domainDictionary, xenFreeMemory, totalMemPref, totalAvailableMemory);
      assert Snapshot(domainDictionary) == s;
      assert request == EnoughPlan(s, totalMemPref, totalAvailableMemory);
    } else {
      assert LowDefined(xenFreeMemory, totalMemPrefAcceptors, Snapshot(donors), Snapshot(acceptors));
      request := BalanceWhenLowOnMemory(xenFreeMemory, totalMemPrefAcceptors, donors, acceptors);
      assert Snapshot(domainDictionary) == s;
      assert Snapshot(donors) == Donors(s) && Snapshot(acceptors) == Acceptors(s);
      assert request == LowPlan(xenFreeMemory, totalMemPrefAcceptors, Donors(s), Acceptors(s));
    }
  }

  // ---------------------------------------------------------------------------
  // What balance promises

  /** Every reporting domain is a donor or an acceptor, and not both; no other domain is either. */
  lemma {:induction false} DonorsAcceptorsPartition(s: Dict)
    requires AllUsable(s)
    ensures multiset(Donors(s)) + multiset(Acceptors(s)) == multiset(Live(s))
  {
    if s != [] {
      var init := s[..|s| - 1];
      DonorsAcceptorsPartition(init);
      assert Live(s) == Live(init) + if s[|s| - 1].1.meminfo.Some? then [s[|s| - 1]] else [];
    }
  }

  lemma TotalActualAppend(s: Dict, e: (string, DomainState))
    ensures TotalActual(s + [e]) == TotalActual(s) + if e.1.meminfo.Some? then e.1.memoryActual as real else 0.0
  {
    assert (s + [e])[..|s|] == s;
  }

  /** Donors and acceptors together hold what the reporting domains hold. */
  lemma {:induction false} PartitionActual(s: Dict)
    requires AllUsable(s)
    ensures TotalActual(Donors(s)) + TotalActual(Acceptors(s)) == TotalActual(s)
  {
    if s != [] {
      var init := s[..|s| - 1];
      var e := s[|s| - 1];
      PartitionActual(init);
      TotalActualAppend(Donors(init), e);
      TotalActualAppend(Acceptors(init), e);
    }
  }

  /** Without a reporting domain the surplus regime asks nothing. */
  lemma EnoughNothingLive(s: Dict, totalMemPref: real, totalAvailable: real)
    requires EnoughDefined(s, totalMemPref) && Live(s) == []
    ensures EnoughPlan(s, totalMemPref, totalAvailable) == []
  {
    ProposalsKeys(s, totalMemPref, totalAvailable);
    assert Proposals(s, totalMemPref, totalAvailable) == [];
  }

  /**
   * The plan never hands out more memory than is free plus what the reporting
   * domains hold now, in either regime.
   */
  lemma BalanceConserves(xenFreeMemory: int, s: Dict)
    requires BalanceDefined(xenFreeMemory, s)
    requires AllValid(s) && ActualsNonNegative(s) && xenFreeMemory >= 0
    ensures SumTargets(BalancePlan(xenFreeMemory, s)) <= xenFreeMemory as real + TotalActual(s)
  {
    ValidIsWellMeasured(s);
    TotalActualNonNegative(s);
    var available := Available(xenFreeMemory, s);
    if available > 0.0 {
      if Live(s) == [] {
        EnoughNothingLive(s, TotalPref(s), available);
      } else {
        TotalPrefNonNegative(s);
        EnoughConserves(xenFreeMemory, s);
      }
    } else {
      var donors, acceptors := Donors(s), Acceptors(s);
      SubDict(donors, s);
      SubDict(acceptors, s);
      LowConserves(xenFreeMemory, TotalPref(acceptors), donors, acceptors);
      PartitionActual(s);
    }
  }

  /** Every request of the plan is addressed to a domain of the dictionary that has a report. */
  lemma BalanceRequestsReporting(xenFreeMemory: int, s: Dict)
    requires BalanceDefined(xenFreeMemory, s)
    ensures forall r | r in BalancePlan(xenFreeMemory, s) :: exists e | e in s :: e.0 == r.id && e.1.meminfo.Some?
  {
    var plan := BalancePlan(xenFreeMemory, s);
    var available := Available(xenFreeMemory, s);
    if available > 0.0 {
      EnoughPlanReporting(s, TotalPref(s), available);
    } else {
      var donors, acceptors := Donors(s), Acceptors(s);
      var tpa := TotalPref(acceptors);
      var squeezedMem := Squeezed(xenFreeMemory, donors);
      var squeezes := SqueezeRequests(donors);
      SqueezeSound(donors);
      forall r | r in squeezes ensures exists e | e in s :: e.0 == r.id && e.1.meminfo.Some? {
        var e :| e in donors && e.1.memUsed.Some? && Squeezable(e.1) && r == Request(e.0, Prefmem(e.1));
        assert e in s && Reporting(e.1);
      }
      if squeezedMem >= 0.0 {
        var shares := ShareRequests(acceptors, tpa, squeezedMem);
        forall r | r in shares ensures exists e | e in s :: e.0 == r.id && e.1.meminfo.Some? {
          var k :| 0 <= k < |shares| && shares[k] == r;
          ShareAt(acceptors, tpa, squeezedMem, k);
          assert acceptors[k] in acceptors;
          assert acceptors[k] in s && Reporting(acceptors[k].1);
        }
        assert plan == squeezes + shares;
      } else {
        assert plan == squeezes;
      }
    }
  }

  /** With distinct keys, a domain that has no report never receives a request. */
  lemma BalanceSkipsSilent(xenFreeMemory: int, s: Dict, i: nat)
    requires BalanceDefined(xenFreeMemory, s) && DistinctKeys(s)
    requires i < |s| && s[i].1.meminfo.None?
    ensures s[i].0 !in Ids(BalancePlan(xenFreeMemory, s))
  {
    var plan := BalancePlan(xenFreeMemory, s);
    BalanceRequestsReporting(xenFreeMemory, s);
    forall k | 0 <= k < |plan| ensures plan[k].id != s[i].0 {
      assert plan[k] in plan;
      var e :| e in s && e.0 == plan[k].id && e.1.meminfo.Some?;
      var m :| 0 <= m < |s| && s[m] == e;
      assert m != i;
    }
  }

  // ---------------------------------------------------------------------------
  // A scarce host, worked through

  const MIB: int := 1024 * 1024

  /** A report of 200 MiB in use: all of MemTotal, nothing free, cached, buffered or swapped. */
  const EXAMPLE_MEMINFO: map<string, Value> :=
    map["MemTotal" := Num(200 * MIB), "MemFree" := Num(0), "Buffers" := Num(0),
        "Cached" := Num(0), "SwapTotal" := Num(0), "SwapFree" := Num(0)]

  /** Domain "1": 460 MiB held, a 200 MiB working set, so a 260 MiB preference. */
  const EXAMPLE_DONOR: DomainState := DomainState("1", 460 * MIB, Some(EXAMPLE_MEMINFO), Some(200 * MIB), false)

  /** Domain "2": 60 MiB held, the same 260 MiB preference. */
  const EXAMPLE_ACCEPTOR: DomainState := DomainState("2", 60 * MIB, Some(EXAMPLE_MEMINFO), Some(200 * MIB), false)

  const EXAMPLE_DICT: Dict := [("1", EXAMPLE_DONOR), ("2", EXAMPLE_ACCEPTOR)]

  /** Both example domains are in a state refresh can leave them in: the report is sanitised and mem_used is computed from it. */
  lemma ExampleValid()
    ensures AllValid(EXAMPLE_DICT) && ActualsNonNegative(EXAMPLE_DICT) && DistinctKeys(EXAMPLE_DICT)
  {
    assert Sanitized(EXAMPLE_MEMINFO);
    assert MemUsed(EXAMPLE_MEMINFO) == 200 * MIB;
  }

  /** The first pass over the example: the needs cancel, "1" donates and "2" accepts. */
  lemma ExampleFirstPass()
    ensures AllUsable(EXAMPLE_DICT) && TotalNeeded(EXAMPLE_DICT) == 0.0
    ensures Donors(EXAMPLE_DICT) == [("1", EXAMPLE_DONOR)]
    ensures Acceptors(EXAMPLE_DICT) == [("2", EXAMPLE_ACCEPTOR)]
  {
    var a, b, s := EXAMPLE_DONOR, EXAMPLE_ACCEPTOR, EXAMPLE_DICT;
    assert s[..1] == [("1", a)] && s[..1][..0] == [];
    assert MemoryNeeded(a) == -200.0 * MIB as real && MemoryNeeded(b) == 200.0 * MIB as real;
    assert TotalNeeded(s[..1]) == MemoryNeeded(a);
    assert Donors(s[..1]) == Donors([]) + [("1", a)];
    assert Acceptors(s[..1]) == Acceptors([]);
  }

  /**
   * No free memory, domain "1" 200 MiB over its preference and domain "2" 200 MiB
   * under it. The needs cancel, so the low regime runs. It subtracts the donor's
   * 200 MiB surplus from the free memory, so `squeezed_mem` is negative and domain
   * "2" gets nothing this round; adding the surplus instead would have given it
   * 60 + 200 = 260 MiB.
   */
  lemma ScarceExample()
    ensures BalanceDefined(0, EXAMPLE_DICT)
    ensures Available(0, EXAMPLE_DICT) == 0.0
    ensures Squeezed(0, Donors(EXAMPLE_DICT)) == -200.0 * MIB as real
    ensures BalancePlan(0, EXAMPLE_DICT) == [Request("1", 260.0 * MIB as real)]
  {
    ExampleFirstPass();
    var donors := Donors(EXAMPLE_DICT);
    assert donors[..0] == [];
    assert Squeezable(EXAMPLE_DONOR);
    assert SqueezedSurplus(donors) == 200.0 * MIB as real;
    assert SqueezeRequests(donors) == [Request("1", Prefmem(EXAMPLE_DONOR))];
  }
}
