/**
 * Per-domain state as the memory balancer sees it, the update made when a domain
 * publishes a new meminfo report, and the preference model (prefmem,
 * memory_needed) both balancing entry points are built on.
 */
module Domains {
  import opened Wrappers
  import opened PyBuiltins
  import opened Meminfo

  /** `CACHE_FACTOR`: a domain prefers 1.3 times its working set, the excess serving as page cache. */
  const CACHE_FACTOR: real := 1.3
  /** Extra preferred memory for dom0, which needs a large cache for the virtual block devices it serves. */
  const DOM0_BONUS: int := 350 * 1024 * 1024

  /** The fields of one domain at one moment. */
  datatype DomainState = DomainState(
    id: string,
    memoryActual: int,
    meminfo: Option<map<string, Value>>,
    memUsed: Option<int>,
    noProgress: bool)
  {
    /** What prefmem needs of a domain the balancer looks at: a report implies a usage figure. */
    predicate Usable() {
      meminfo.Some? ==> memUsed.Some?
    }

    /**
     * The invariant refresh keeps: either both the report and the usage figure are
     * absent, or the report is a validated meminfo and the usage figure is derived from it.
     */
    predicate Valid() {
      && (meminfo.Some? <==> memUsed.Some?)
      && (meminfo.Some? ==> Sanitized(meminfo.value) && memUsed.value == MemUsed(meminfo.value))
    }
  }

  /** A domain record; the caller owns it, refresh updates it in place. */
  class Domain {
    var id: string
    var memoryActual: int
    var meminfo: Option<map<string, Value>>
    var memUsed: Option<int>
    var noProgress: bool

    function State(): DomainState
      reads this
    {
      DomainState(id, memoryActual, meminfo, memUsed, noProgress)
    }
  }

  /**
   * refresh_meminfo_for_domain: parse and sanitise the report; an accepted report
   * replaces meminfo and mem_used wholesale, a rejected one clears both.
   */
  method RefreshMeminfoForDomain(domain: Domain, untrustedXenstoreKey: string)
    modifies domain
    ensures domain.State().Valid()
    ensures domain.id == old(domain.id) && domain.memoryActual == old(domain.memoryActual)
    ensures domain.noProgress == old(domain.noProgress)
    ensures var u := Parsed(SplitOn(untrustedXenstoreKey, '\n'));
      if Acceptable(u) then
        && domain.meminfo == Some(Scaled(u))
        && domain.memUsed == Some(MemUsed(Scaled(u)))
      else
        domain.meminfo.None? && domain.memUsed.None?
  {
    var untrustedMeminfo := ParseMeminfo(untrustedXenstoreKey);
    var suspicious, meminfo := IsMeminfoSuspicious(untrustedMeminfo);
    if suspicious {
      domain.meminfo := None;
      domain.memUsed := None;
    } else {
      AcceptedIsSanitized(untrustedMeminfo);
      domain.meminfo := Some(meminfo);
      domain.memUsed := Some(MemUsed(meminfo));
    }
  }

  /** prefmem: 1.3 times the working set, plus the dom0 bonus for the domain whose id is the string "0". */
  function Prefmem(d: DomainState): (pref: real)
    requires d.memUsed.Some?
    ensures pref >= CACHE_FACTOR * d.memUsed.value as real
    ensures pref == CACHE_FACTOR * d.memUsed.value as real <==> d.id != "0"
    ensures d.memUsed.value >= 0 ==> pref >= 0.0
  {
    if d.id == "0" then d.memUsed.value as real * CACHE_FACTOR + DOM0_BONUS as real
    else d.memUsed.value as real * CACHE_FACTOR
  }

  /** memory_needed: positive for a domain below its preference (an acceptor), negative for a donor. */
  function MemoryNeeded(d: DomainState): (need: real)
    requires d.memUsed.Some?
    ensures need < 0.0 <==> Prefmem(d) < d.memoryActual as real
    ensures need + d.memoryActual as real == Prefmem(d)
  {
    Prefmem(d) - d.memoryActual as real
  }

  /** One entry of a plan: the domain's key in the dictionary and the memory target to set. */
  datatype Request = Request(id: string, target: real)

  /** The domain dictionary, in iteration order, as (key, domain) pairs. */
  type DomainDict = seq<(string, Domain)>
  /** Its value: the same keys with each domain's fields at this moment. */
  type Dict = seq<(string, DomainState)>

  function Objects(dd: DomainDict): set<Domain> {
    set i | 0 <= i < |dd| :: dd[i].1
  }

  /** The dictionary's value: keys with the current fields of their domains. */
  function Snapshot(dd: DomainDict): (s: Dict)
    reads Objects(dd)
    ensures |s| == |dd| && forall i | 0 <= i < |dd| :: s[i] == (dd[i].0, dd[i].1.State())
  {
    seq(|dd|, i requires 0 <= i < |dd| reads Objects(dd) => (dd[i].0, dd[i].1.State()))
  }

  /** Every domain with a report has a usage figure. */
  predicate AllUsable(s: Dict) {
    forall i | 0 <= i < |s| :: s[i].1.Usable()
  }

  /** Every domain satisfies the invariant refresh keeps. */
  predicate AllValid(s: Dict) {
    forall i | 0 <= i < |s| :: s[i].1.Valid()
  }

  /** The domains that currently have a report, in order. */
  function Live(s: Dict): (live: Dict)
    ensures forall e | e in live :: e in s && e.1.meminfo.Some?
    ensures |live| <= |s|
  {
    if s == [] then []
    else
      var e := s[|s| - 1];
      Live(s[..|s| - 1]) + (if e.1.meminfo.Some? then [e] else [])
  }

  function Keys(s: Dict): (keys: seq<string>)
    ensures |keys| == |s| && forall i | 0 <= i < |s| :: keys[i] == s[i].0
  {
    seq(|s|, i requires 0 <= i < |s| => s[i].0)
  }

  function Ids(rq: seq<Request>): (ids: seq<string>)
    ensures |ids| == |rq| && forall i | 0 <= i < |rq| :: ids[i] == rq[i].id
  {
    seq(|rq|, i requires 0 <= i < |rq| => rq[i].id)
  }

  /** The sum of the targets of a plan. */
  function SumTargets(rq: seq<Request>): real {
    if rq == [] then 0.0 else SumTargets(rq[..|rq| - 1]) + rq[|rq| - 1].target
  }

  lemma {:induction false} SumTargetsAppend(a: seq<Request>, b: seq<Request>)
    ensures SumTargets(a + b) == SumTargets(a) + SumTargets(b)
  {
    if b != [] {
      assert (a + b)[..|a + b| - 1] == a + b[..|b| - 1];
      SumTargetsAppend(a, b[..|b| - 1]);
    } else {
      assert a + b == a;
    }
  }

  /** A domain with a report and the usage figure prefmem and memory_needed read. */
  predicate Reporting(d: DomainState) {
    d.meminfo.Some? && d.memUsed.Some?
  }

  predicate AllReporting(s: Dict) {
    forall i | 0 <= i < |s| :: Reporting(s[i].1)
  }

  /** `total_mem_pref`: prefmem summed over the domains that have a report. */
  function TotalPref(s: Dict): real
    requires AllUsable(s)
  {
    if s == [] then 0.0
    else
      var e := s[|s| - 1];
      TotalPref(s[..|s| - 1]) + if e.1.meminfo.Some? then Prefmem(e.1) else 0.0
  }

  /** `total_memory_needed`: memory_needed summed over the domains that have a report. */
  function TotalNeeded(s: Dict): real
    requires AllUsable(s)
  {
    if s == [] then 0.0
    else
      var e := s[|s| - 1];
      TotalNeeded(s[..|s| - 1]) + if e.1.meminfo.Some? then MemoryNeeded(e.1) else 0.0
  }

  /** memory_actual summed over the domains that have a report. */
  function TotalActual(s: Dict): real {
    if s == [] then 0.0
    else
      var e := s[|s| - 1];
      TotalActual(s[..|s| - 1]) + if e.1.meminfo.Some? then e.1.memoryActual as real else 0.0
  }

  /** What the reporting domains need in total is what they prefer minus what they hold. */
  lemma {:induction false} TotalNeededSplit(s: Dict)
    requires AllUsable(s)
    ensures TotalNeeded(s) == TotalPref(s) - TotalActual(s)
  {
    if s != [] {
      TotalNeededSplit(s[..|s| - 1]);
    }
  }

  /** Every domain with a report has a usage figure, and no usage figure is negative. */
  predicate WellMeasured(s: Dict) {
    && AllUsable(s)
    && forall i | 0 <= i < |s| :: s[i].1.memUsed.Some? ==> s[i].1.memUsed.value >= 0
  }

  /** No domain holds a negative amount of memory. */
  predicate ActualsNonNegative(s: Dict) {
    forall i | 0 <= i < |s| :: s[i].1.memoryActual >= 0
  }

  /** Summing memory_actual over the reporting domains of a dictionary gives a non-negative total. */
  lemma {:induction false} TotalActualNonNegative(s: Dict)
    requires ActualsNonNegative(s)
    ensures TotalActual(s) >= 0.0
  {
    if s != [] {
      TotalActualNonNegative(s[..|s| - 1]);
    }
  }

  /** Valid domains are well measured: MemUsed of a sanitised report is never negative. */
  lemma ValidIsWellMeasured(s: Dict)
    requires AllValid(s)
    ensures WellMeasured(s)
  {
    forall i | 0 <= i < |s|
      ensures s[i].1.Usable() && (s[i].1.memUsed.Some? ==> s[i].1.memUsed.value >= 0)
    {
      assert s[i].1.Valid();
    }
  }

  /** With every usage figure non-negative, preferences are never negative, and neither is their sum. */
  lemma {:induction false} TotalPrefNonNegative(s: Dict)
    requires WellMeasured(s)
    ensures TotalPref(s) >= 0.0
  {
    if s != [] {
      TotalPrefNonNegative(s[..|s| - 1]);
    }
  }

  /** A domain that has a report is on the live list. */
  lemma {:induction false} LiveComplete(s: Dict, i: nat)
    requires i < |s| && s[i].1.meminfo.Some?
    ensures s[i] in Live(s)
  {
    var init := s[..|s| - 1];
    if i < |init| {
      assert init[i] == s[i];
      LiveComplete(init, i);
    }
  }

  /** A prefix of a dictionary has no more live domains than the whole. */
  lemma {:induction false} LivePrefix(s: Dict, n: nat)
    requires n <= |s|
    ensures |Live(s[..n])| <= |Live(s)|
  {
    if n < |s| {
      var init := s[..|s| - 1];
      assert init[..n] == s[..n];
      LivePrefix(init, n);
    } else {
      assert s[..n] == s;
    }
  }

  /** A share of `t / t` of an amount is the whole amount. */
  lemma WholeShare(t: real, m: real)
    requires t != 0.0
    ensures t / t * m == m
  {
  }

  /** Two shares `p / t` and `q / t` of an amount, each added to a base, add up as one share `(p + q) / t`. */
  lemma ShareAdds(a: real, b: real, p: real, q: real, t: real, m: real)
    requires t != 0.0
    ensures (a + p / t * m) + (b + q / t * m) == (a + b) + (p + q) / t * m
  {
    assert (p + q) / t == p / t + q / t;
  }

  /** Properties every domain of a dictionary has, every sub-list of it has too. */
  lemma SubDict(sub: Dict, s: Dict)
    requires forall e | e in sub :: e in s
    ensures WellMeasured(s) ==> WellMeasured(sub)
    ensures ActualsNonNegative(s) ==> ActualsNonNegative(sub)
  {
    forall i | 0 <= i < |sub| ensures exists k | 0 <= k < |s| :: s[k] == sub[i] {
      assert sub[i] in sub;
    }
  }

  lemma SnapshotAppend(dd: DomainDict, key: string, d: Domain)
    ensures Snapshot(dd + [(key, d)]) == Snapshot(dd) + [(key, d.State())]
  {
  }

  lemma IdsAppend(a: seq<Request>, b: seq<Request>)
    ensures Ids(a + b) == Ids(a) + Ids(b)
  {
  }

  lemma KeysAppend(a: Dict, b: Dict)
    ensures Keys(a + b) == Keys(a) + Keys(b)
  {
  }

  /** Keys of a dictionary are distinct, as those of a Python dict are. */
  predicate DistinctKeys(s: Dict) {
    forall i, j | 0 <= i < j < |s| :: s[i].0 != s[j].0
  }

  /** With distinct keys, the key of a domain that has no report belongs to no live domain. */
  lemma {:induction false} DeadKeyNotLive(s: Dict, i: nat)
    requires DistinctKeys(s) && i < |s| && s[i].1.meminfo.None?
    ensures s[i].0 !in Keys(Live(s))
  {
    if s != [] {
      var init := s[..|s| - 1];
      var e := s[|s| - 1];
      assert Live(s) == Live(init) + (if e.1.meminfo.Some? then [e] else []);
      if i < |init| {
        assert init[i] == s[i];
        DeadKeyNotLive(init, i);
        assert s[i].0 != e.0;
      } else {
        assert s[i].0 !in Keys(Live(init)) by {
          forall j | 0 <= j < |Live(init)| ensures Live(init)[j].0 != s[i].0 {
            var x := Live(init)[j];
            assert x in init;
            var k :| 0 <= k < |init| && init[k] == x;
            assert s[k] == x;
          }
        }
      }
    }
  }
}
