# qmemman balancing algorithm, modelled in Dafny

This project models `dom0/qmemman/qmemman_algo.py`. That file is the memory balancer of the Qubes dom0 memory manager. A domain writes a `meminfo` report into its store key. The balancer:

- parses the report (`parse_meminfo`);
- decides whether to believe it (`is_meminfo_suspicious`);
- records it on the domain (`refresh_meminfo_for_domain`);
- derives each domain's preferred memory (`prefmem`, `memory_needed`).

From those preferences it computes lists of `(domain, memory_target)` requests in three ways:

- `balloon` frees a given amount for a new domain.
- `balance` redistributes memory. It chooses between a surplus regime (`balance_when_enough_memory`) and a scarcity regime (`balance_when_low_on_memory`).

Files, one module each:

- `wrappers.dfy`: `Option`, standing for Python's `None`-or-value.
- `builtins.dfy`: the Python 2 built-ins the code relies on, written out. These are `str.split("\n")`, `str.split()`, `str.rstrip(":")`, `int()` on a string, and `int()` on a float, which truncates toward zero.
- `meminfo.dfy`: `parse_meminfo` and `is_meminfo_suspicious`. Both are methods whose loops are proved against specification functions. `is_meminfo_suspicious` overwrites dictionary entries in place, so the model returns the updated dictionary. Its values are `Str | Num`, because the Python dictionary ends up holding both kinds.
- `domain.dfy`: the `Domain` class and `refresh_meminfo_for_domain`, which updates a domain's fields in place. It also holds `prefmem`, `memory_needed`, and sums over a dictionary. `DomainState` is a value snapshot of a `Domain`. The domain dictionary is a sequence of `(key, Domain)` pairs in iteration order. `Snapshot` reads it as values.
- `balloon.dfy`, `surplus.dfy`, `scarcity.dfy` and `balance.dfy`: the four planners. Each is a method with the source's loops. Each is proved equal to a plan function over the snapshot (`BalloonPlan`, `EnoughPlan`, `LowPlan`, `BalancePlan`). Lemmas about those functions state what the plan means.

The factors 1.3, 0.999 and 1.05 are exact rationals, and all floating-point arithmetic is exact `real` arithmetic.

## Model

| member | source | states |
|---|---|---|
| PyBuiltins.SplitOn | dom0/qmemman/qmemman_algo.py:8 | `split("\n")` yields at least one piece, and no piece contains a newline |
| PyBuiltins.JoinSplitOn | dom0/qmemman/qmemman_algo.py:8 | joining the pieces with newlines gives back the original text, so splitting loses nothing |
| PyBuiltins.Words | dom0/qmemman/qmemman_algo.py:11 | `split()` yields only non-empty runs of non-whitespace; text starting with a non-space character starts the first token |
| PyBuiltins.ConcatWords | dom0/qmemman/qmemman_algo.py:11 | the tokens, concatenated, are exactly the text's non-space characters in order |
| PyBuiltins.WordsBlank | dom0/qmemman/qmemman_algo.py:11-12 | whitespace alone yields no token, so a blank line is no entry |
| PyBuiltins.WordsWord | dom0/qmemman/qmemman_algo.py:11-12 | a run of non-whitespace is one whole token, so tokens are maximal runs |
| PyBuiltins.WordsAppend | dom0/qmemman/qmemman_algo.py:11-12 | text cut at a whitespace character yields the tokens of the left part followed by those of the right part; with the two lemmas above this fixes `split()` on every input |
| PyBuiltins.RStrip | dom0/qmemman/qmemman_algo.py:13 | `rstrip(":")` yields a prefix of the token that does not end in `:`, and only `:` characters were removed |
| PyBuiltins.ParseShowInt | dom0/qmemman/qmemman_algo.py:23 | `int()` reads back the decimal form of every integer, negative ones included |
| PyBuiltins.ParseInt | dom0/qmemman/qmemman_algo.py:23 | `int()` succeeds exactly when the text, stripped of surrounding whitespace, is an optional sign and at least one digit (otherwise ValueError); the value is the digits' decimal value, negated after `-` |
| PyBuiltins.Trunc | dom0/qmemman/qmemman_algo.py:98 | `int(x)` on a float truncates toward zero: at most 1 below a non-negative `x`, at most 1 above a negative `x` |
| PyBuiltins.TruncBounds | dom0/qmemman/qmemman_algo.py:116 | truncation never crosses an integer bound on its argument, in either direction |
| Meminfo.ParseMeminfo | dom0/qmemman/qmemman_algo.py:5-15 | the line loop builds exactly `Parsed` of the text's newline-separated lines |
| Meminfo.ParsedKeys | dom0/qmemman/qmemman_algo.py:9-13 | a key is present if and only if some line with at least two tokens has it as its first token, trailing colons stripped |
| Meminfo.ParsedLastWins | dom0/qmemman/qmemman_algo.py:13 | a key's value is the second token of the last line naming it; later duplicates overwrite earlier ones |
| Meminfo.ParsedNothing | dom0/qmemman/qmemman_algo.py:12-13 | text with no line of two or more tokens parses to the empty dictionary |
| Meminfo.ScaleRequired | dom0/qmemman/qmemman_algo.py:21-28 | the guarded loop: if no exception, each required entry now holds `int(raw)*1024` and the flag says one was negative; an exception means the report is unacceptable; other entries keep their text |
| Meminfo.UnparsableRejected | dom0/qmemman/qmemman_algo.py:21-28 | a missing or non-integer required entry alone makes the report unacceptable |
| Meminfo.FinalChecks | dom0/qmemman/qmemman_algo.py:24-33 | once all six entries parse, acceptance means: none negative, swap free not above swap total, and free + cached + buffers not above total |
| Meminfo.IsMeminfoSuspicious | dom0/qmemman/qmemman_algo.py:17-41 | returns false exactly when the six keys are present and integers, none negative after ×1024, `SwapFree ≤ SwapTotal` and `MemFree+Cached+Buffers ≤ MemTotal`; when it accepts, the six values have been replaced by `int(raw)*1024`; no key is added or lost, and other entries are untouched |
| Meminfo.AcceptedIsSanitized | dom0/qmemman/qmemman_algo.py:22-33 | an accepted report becomes a validated meminfo: required entries hold `int(raw)*1024`, the others keep their text, and the key set is unchanged |
| Meminfo.MemUsed | dom0/qmemman/qmemman_algo.py:57 | `mem_used` of a validated meminfo is non-negative, by the two cross-field checks |
| Domains.RefreshMeminfoForDomain | dom0/qmemman/qmemman_algo.py:44-57 | an acceptable report sets both `meminfo` (the scaled dictionary) and `mem_used` (total − free − cached − buffers + swap total − swap free); a rejected one clears both; the domain stays valid; id, memory_actual and no_progress are unchanged |
| Domains.Prefmem | dom0/qmemman/qmemman_algo.py:59-64 | prefmem is at least 1.3·mem_used, equals it exactly when the id is not the string `"0"`, and is non-negative for non-negative usage |
| Domains.MemoryNeeded | dom0/qmemman/qmemman_algo.py:66-70 | need + memory_actual = prefmem, so need < 0 (a donor) exactly when prefmem < memory_actual |
| Domains.Live | dom0/qmemman/qmemman_algo.py:169-171 | the domains the passes look at are dictionary entries that have a report |
| Domains.LiveComplete | dom0/qmemman/qmemman_algo.py:169-171 | every entry that has a report is looked at |
| Domains.DeadKeyNotLive | dom0/qmemman/qmemman_algo.py:170-171 | with distinct keys, the key of a domain without a report is not among the keys looked at |
| Domains.TotalNeededSplit | dom0/qmemman/qmemman_algo.py:179-180 | total_memory_needed = total_mem_pref − Σ memory_actual over the reporting domains |
| Domains.TotalPrefNonNegative | dom0/qmemman/qmemman_algo.py:180 | total_mem_pref is non-negative when usage figures are |
| Domains.ValidIsWellMeasured | dom0/qmemman/qmemman_algo.py:55-57 | domains kept valid by refresh have non-negative usage figures wherever they report |
| Balloon.TotalAvail | dom0/qmemman/qmemman_algo.py:89 | `available` is positive exactly when there is a donor |
| Balloon.BalloonDonorsSound | dom0/qmemman/qmemman_algo.py:80-89 | every donor is a domain with a report, not marked no_progress and with need < 0; it can spare −need |
| Balloon.BalloonDonorsComplete | dom0/qmemman/qmemman_algo.py:80-89 | every such domain is a donor |
| Balloon.Balloon | dom0/qmemman/qmemman_algo.py:75-100 | the method's result is `BalloonPlan` of the dictionary |
| Balloon.BalloonEmptyIffInfeasible | dom0/qmemman/qmemman_algo.py:91-92 | the plan is empty if and only if the donors together can spare less than `memsize` |
| Balloon.BorrowRequestsAt | dom0/qmemman/qmemman_algo.py:94-99 | the j-th request is the j-th donor's `int(memory_actual − borrowed)` |
| Balloon.BalloonPerDonor | dom0/qmemman/qmemman_algo.py:93-99 | a feasible plan has one request per donor, in donor order, with target `int(memory_actual − avail·scale·1.05)`; for a non-negative request that target is not above memory_actual |
| Balloon.TotalBorrowedScales | dom0/qmemman/qmemman_algo.py:96 | the borrowed amounts add up to available·scale·1.05 |
| Balloon.BalloonBorrowedSum | dom0/qmemman/qmemman_algo.py:93-96 | the untruncated borrowed amounts add up to exactly 1.05·memsize |
| Balloon.BorrowedNonNegative | dom0/qmemman/qmemman_algo.py:96 | for a non-negative memsize, no donor is asked to borrow a negative amount |
| Surplus.BalanceWhenEnoughMemory | dom0/qmemman/qmemman_algo.py:106-122 | the method's result is `EnoughPlan`: the below-actual requests, then the others |
| Surplus.ProposalsKeys | dom0/qmemman/qmemman_algo.py:109-111 | the proposals' keys are exactly the keys of the domains with a report, in dictionary order |
| Surplus.ProposalsComplete | dom0/qmemman/qmemman_algo.py:113-116 | every reporting domain is proposed `int(0.999·(prefmem + prefmem/total_mem_pref·total_available_memory))` |
| Surplus.ProposalsSound | dom0/qmemman/qmemman_algo.py:113-116 | every proposal is that of a reporting domain |
| Surplus.SplitComplete | dom0/qmemman/qmemman_algo.py:117-120 | a proposal below memory_actual goes to the donor list, the others to the acceptor list |
| Surplus.SplitSound | dom0/qmemman/qmemman_algo.py:117-120 | the donor list holds only below-actual targets, the acceptor list only the others |
| Surplus.SplitKeys | dom0/qmemman/qmemman_algo.py:117-122 | splitting loses and duplicates no domain |
| Surplus.EnoughPlanKeys | dom0/qmemman/qmemman_algo.py:109-122 | each reporting domain gets exactly one request, and no other domain gets one |
| Surplus.EnoughPlanComplete | dom0/qmemman/qmemman_algo.py:113-120 | each reporting domain's request, with its target, is in the below-actual part exactly when the target is below memory_actual |
| Surplus.EnoughPlanSound | dom0/qmemman/qmemman_algo.py:113-120 | every request of the first part targets a reporting domain below its memory_actual; every one of the second part targets one at or above it |
| Surplus.EnoughPlanReporting | dom0/qmemman/qmemman_algo.py:110-111 | every request goes to a domain that has a report |
| Surplus.UnroundedSumIs | dom0/qmemman/qmemman_algo.py:113-114 | Σ target_nonint = Σ prefmem + Σ prefmem/total_mem_pref·total_available_memory |
| Surplus.UnroundedTotal | dom0/qmemman/qmemman_algo.py:113-114 | with the totals balance computes, Σ target_nonint = xen_free_memory + Σ memory_actual |
| Surplus.UnroundedNonNegative | dom0/qmemman/qmemman_algo.py:114 | target_nonint is non-negative for a non-negative usage figure |
| Surplus.UnroundedScales | dom0/qmemman/qmemman_algo.py:112-114 | target_nonint = prefmem·(total_mem_pref + total_available_memory)/total_mem_pref, one factor for all domains |
| Surplus.UnroundedProportional | dom0/qmemman/qmemman_algo.py:112-114 | any two domains' target_nonint are exactly in the ratio of their prefmem |
| Surplus.EqualPrefEqualTarget | dom0/qmemman/qmemman_algo.py:112-116 | a target depends on the domain only through its prefmem: equal prefmem, equal target |
| Surplus.ProposalsRoundDown | dom0/qmemman/qmemman_algo.py:116 | Σ targets ≤ 0.999·Σ target_nonint |
| Surplus.EnoughConserves | dom0/qmemman/qmemman_algo.py:106-122 | with the totals balance computes, Σ targets ≤ 0.999·(xen_free_memory + Σ memory_actual) |
| Scarcity.Surplus | dom0/qmemman/qmemman_algo.py:131 | prefmem = memory_actual − avail |
| Scarcity.BalanceWhenLowOnMemory | dom0/qmemman/qmemman_algo.py:126-145 | the method's result is `LowPlan`: only the squeezes when squeezed_mem < 0, otherwise the squeezes followed by the shares |
| Scarcity.SqueezeSound | dom0/qmemman/qmemman_algo.py:130-136 | every squeeze targets a donor whose surplus is at least 10 MiB, at exactly its prefmem |
| Scarcity.SqueezeComplete | dom0/qmemman/qmemman_algo.py:130-136 | every donor with a surplus of at least 10 MiB is squeezed to its prefmem |
| Scarcity.SqueezeExactly | dom0/qmemman/qmemman_algo.py:132-136 | with distinct keys, a donor appears among the squeezes if and only if its surplus is at least 10 MiB |
| Scarcity.SqueezeSum | dom0/qmemman/qmemman_algo.py:135-136 | Σ squeeze targets = Σ memory_actual of the squeezed donors − the surplus subtracted from squeezed_mem |
| Scarcity.SqueezedBounds | dom0/qmemman/qmemman_algo.py:135 | for donors with non-negative memory_actual, the subtracted surplus is non-negative and the squeezed donors hold no more than all donors |
| Scarcity.ShareRequests | dom0/qmemman/qmemman_algo.py:140-143 | one share request per acceptor |
| Scarcity.ShareAt | dom0/qmemman/qmemman_algo.py:140-143 | the j-th share is the j-th acceptor's `int(memory_actual + prefmem/total_mem_pref_acceptors·squeezed_mem)` |
| Scarcity.ShareSumIs | dom0/qmemman/qmemman_algo.py:141-142 | Σ target_nonint = Σ memory_actual + Σ prefmem/total_mem_pref_acceptors·squeezed_mem |
| Scarcity.SharesAddUp | dom0/qmemman/qmemman_algo.py:141-142 | with total_mem_pref_acceptors as balance computes it, the unrounded increments add up to exactly squeezed_mem |
| Scarcity.ShareProportional | dom0/qmemman/qmemman_algo.py:140-142 | any two acceptors' gains target_nonint − memory_actual are exactly in the ratio of their prefmem |
| Scarcity.ShareAtLeastActual | dom0/qmemman/qmemman_algo.py:142 | target_nonint ≥ memory_actual when squeezed_mem ≥ 0 |
| Scarcity.ShareNotBelowActual | dom0/qmemman/qmemman_algo.py:142-143 | when squeezed_mem ≥ 0 no acceptor's target is below its memory_actual, whatever the sign of memory_actual |
| Scarcity.ShareGrows | dom0/qmemman/qmemman_algo.py:142-143 | each acceptor's target lies between its memory_actual and its target_nonint |
| Scarcity.ShareRoundsDown | dom0/qmemman/qmemman_algo.py:143 | for acceptors with non-negative memory_actual and usage and a non-negative squeezed_mem, Σ share targets ≤ Σ target_nonint |
| Scarcity.SharesBound | dom0/qmemman/qmemman_algo.py:140-143 | for acceptors with non-negative memory_actual and usage and a non-negative squeezed_mem, the acceptors are given at most their memory_actual plus squeezed_mem in total |
| Scarcity.LowConserves | dom0/qmemman/qmemman_algo.py:126-145 | for non-negative xen_free_memory, donors and acceptors with non-negative memory_actual and acceptors with non-negative usage, Σ targets ≤ xen_free_memory + Σ memory_actual of donors and acceptors |
| Balance.Donors | dom0/qmemman/qmemman_algo.py:174-175 | every donor is a dictionary entry with a report and need < 0 |
| Balance.Acceptors | dom0/qmemman/qmemman_algo.py:176-178 | every acceptor is a dictionary entry with a report and need ≥ 0 |
| Balance.FirstPass | dom0/qmemman/qmemman_algo.py:158-181 | pass 1 computes the donors, the acceptors, total_memory_needed, total_mem_pref and total_mem_pref_acceptors (Σ prefmem over acceptors) |
| Balance.Balance | dom0/qmemman/qmemman_algo.py:152-186 | the method's result is `BalancePlan`: the surplus regime when xen_free_memory − total_memory_needed > 0, the scarcity regime otherwise |
| Balance.DonorsAcceptorsPartition | dom0/qmemman/qmemman_algo.py:169-177 | every reporting domain is a donor or an acceptor and not both; no other domain is either |
| Balance.PartitionActual | dom0/qmemman/qmemman_algo.py:169-177 | donors and acceptors together hold what the reporting domains hold |
| Balance.EnoughNothingLive | dom0/qmemman/qmemman_algo.py:109-111 | with no reporting domain the surplus regime requests nothing |
| Balance.BalanceConserves | dom0/qmemman/qmemman_algo.py:182-186 | in either regime, Σ targets ≤ xen_free_memory + Σ memory_actual of the reporting domains |
| Balance.BalanceRequestsReporting | dom0/qmemman/qmemman_algo.py:169-171 | every request goes to a dictionary entry that has a report |
| Balance.BalanceSkipsSilent | dom0/qmemman/qmemman_algo.py:170-171 | with distinct keys, a domain whose meminfo is None never receives a request |
| Balance.ExampleValid | dom0/qmemman/qmemman_algo.py:52-57 | the example domains carry a sanitised report and the mem_used refresh computes from it |
| Balance.ExampleFirstPass | dom0/qmemman/qmemman_algo.py:169-181 | in a two-domain example the needs cancel; domain "1" donates and domain "2" accepts |
| Balance.ScarceExample | dom0/qmemman/qmemman_algo.py:129-139 | in that example, squeezed_mem = 0 − 200 MiB, so the plan is only domain "1" squeezed to 260 MiB and domain "2" gets nothing |

## Left out

- The `print` diagnostics (lines 40, 87, 90 and 97) are not modelled. The `domain` parameter of `is_meminfo_suspicious` is used only by its print, so `IsMeminfoSuspicious` does not take it.
- The `untrusted_meminfo is None` branch of `refresh_meminfo_for_domain` (lines 46-48) is not modelled. `parse_meminfo` always returns a dictionary, so the branch is dead.
- Floating point is exact `real` arithmetic: 1.3, 0.999 and 1.05 are exact rationals. IEEE rounding of prefmem's product `mem_used*1.3`, of `scale`, of `target_nonint` and of `memborrowed` is not modelled. Exact reals also drop the range of a float: a guest-chosen value large enough to overflow the int-to-float conversion (OverflowError), or to give an infinite or NaN result, is not modelled, and the validator bounds no value. So `Balloon.BalloonDefined`, `Surplus.EnoughDefined`, `Scarcity.LowDefined` and `Balance.BalanceDefined` rule out only division by zero and missing usage figures, not every exception.
- Dictionary iteration order is unspecified in Python. Here it is the order of the `(key, Domain)` sequence. Where a property depends on keys being unique, the lemma requires `DistinctKeys`.
- Lookups `domain_dictionary[i]` are replaced by carrying the `(key, Domain)` entry itself. The scarcity regime receives the donor and acceptor entries instead of key lists, and the requests carry the key.
- Division by zero is stated as a precondition, not modelled as `ZeroDivisionError`:
  - `BalloonDefined` covers `available` at line 93.
  - `EnoughDefined` covers `total_mem_pref` at line 113.
  - `LowDefined` covers `total_mem_pref_acceptors` at line 141.
  - `BalanceDefined` picks the one that applies.
- `prefmem` and `memory_needed` on a domain without `mem_used` (a `TypeError` in Python) are excluded by preconditions. Every domain a pass looks at has a report, and every domain with a report has a usage figure.
- `balance_when_enough_memory` takes `xen_free_memory` only for a commented-out print. The model keeps the parameter unused.
- Meminfo.IsMeminfoSuspicious: on rejection, the contract fixes the key set and the non-required entries. It does not say which required entries were already scaled when the exception stopped the loop, because the caller discards that dictionary.
- Balloon.BalloonPerDonor: the bound `target ≤ memory_actual` is proved for non-negative `memsize` only. A negative request makes the donors grow.
- Scarcity.ShareGrows: the upper bound (target ≤ target_nonint) is proved only for non-negative memory_actual, where `int()` truncates downward. The lower bound holds for any memory_actual (`Scarcity.ShareNotBelowActual`).
- Scarcity.LowConserves: proved only for non-negative xen_free_memory, non-negative memory_actual and non-negative usage. Outside those, a negative term can make the bound fail.
- Balance.BalanceConserves: proved for dictionaries kept valid by refresh, with non-negative memory_actual and free memory. Outside those, a negative term can make the bound fail.
- Proportionality is proved for the unrounded targets (`Surplus.UnroundedProportional`, `Scarcity.ShareProportional`). For the truncated targets it holds only up to rounding, and the model does not bound that rounding.
- That balancing settles (re-running `balance` after the targets are applied returns the same targets) is not proved. It depends on how domains respond to the targets, which is outside this file.
- PyBuiltins.ParseInt: whitespace between the sign and the digits, which CPython 2 also skips, is rejected. The balancer only converts `split()` tokens, which contain no whitespace.
- The `squeezed_mem` accumulation follows the code: each squeezed donor's surplus is subtracted from `xen_free_memory` (line 135). Read as "memory freed by the donors", the surplus would instead be added, and the acceptors would share more. `ScarceExample` shows a case where the two readings differ.
