/**
 * The untrusted side of the memory balancer: turning the text a domain writes into
 * its `meminfo` store key into a dictionary, and deciding whether that dictionary
 * is believable (dom0/qmemman/qmemman_algo.py, parse_meminfo and
 * is_meminfo_suspicious).
 */
module Meminfo {
  import opened Wrappers
  import opened PyBuiltins

  // ---------------------------------------------------------------------------
  // parse_meminfo

  /** A line contributes an entry only when it has at least two tokens. */
  predicate HasEntry(line: string) {
    |Words(line)| >= 2
  }

  /** The first token with its trailing colons stripped. */
  function KeyOf(line: string): string
    requires HasEntry(line)
  {
    RStrip(Words(line)[0], ':')
  }

  /** The second token, kept as text. */
  function ValueOf(line: string): string
    requires HasEntry(line)
  {
    Words(line)[1]
  }

  /** The dictionary built from `lines` taken in order, a later line overwriting an earlier key. */
  function Parsed(lines: seq<string>): map<string, string> {
    if lines == [] then map[]
    else
      var line := lines[|lines| - 1];
      var m := Parsed(lines[..|lines| - 1]);
      if HasEntry(line) then m[KeyOf(line) := ValueOf(line)] else m
  }

  /** parse_meminfo: split the text into lines, each line into tokens, and keep the first two tokens. */
  method ParseMeminfo(untrustedMeminfo: string) returns (untrustedDict: map<string, string>)
    ensures untrustedDict == Parsed(SplitOn(untrustedMeminfo, '\n'))
  {
    untrustedDict := map[];
    var untrustedLines := SplitOn(untrustedMeminfo, '\n');
    for i := 0 to |untrustedLines|
      invariant untrustedDict == Parsed(untrustedLines[..i])
    {
      assert untrustedLines[..i + 1][..i] == untrustedLines[..i];
      var untrustedWords := Words(untrustedLines[i]);
      if |untrustedWords| >= 2 {
        untrustedDict := untrustedDict[RStrip(untrustedWords[0], ':') := untrustedWords[1]];
      }
    }
    assert untrustedLines[..|untrustedLines|] == untrustedLines;
  }

  /** A key is present exactly when some line with two or more tokens names it. */
  lemma {:induction false} ParsedKeys(lines: seq<string>, k: string)
    ensures k in Parsed(lines) <==> exists i | 0 <= i < |lines| :: HasEntry(lines[i]) && KeyOf(lines[i]) == k
  {
    if lines != [] {
      var init := lines[..|lines| - 1];
      ParsedKeys(init, k);
      assert forall i | 0 <= i < |init| :: init[i] == lines[i];
      if k in Parsed(init) {
        var i :| 0 <= i < |init| && HasEntry(init[i]) && KeyOf(init[i]) == k;
        assert HasEntry(lines[i]) && KeyOf(lines[i]) == k;
      }
    }
  }

  /** The value kept for a key is the second token of the last line naming that key. */
  lemma {:induction false} ParsedLastWins(lines: seq<string>, i: nat)
    requires i < |lines| && HasEntry(lines[i])
    requires forall j | i < j < |lines| :: !(HasEntry(lines[j]) && KeyOf(lines[j]) == KeyOf(lines[i]))
    ensures KeyOf(lines[i]) in Parsed(lines) && Parsed(lines)[KeyOf(lines[i])] == ValueOf(lines[i])
  {
    var init := lines[..|lines| - 1];
    if i < |lines| - 1 {
      assert init[i] == lines[i];
      forall j | i < j < |init| ensures !(HasEntry(init[j]) && KeyOf(init[j]) == KeyOf(init[i])) {
        assert init[j] == lines[j];
      }
      ParsedLastWins(init, i);
    }
  }

  /** Text with no line of two or more tokens parses to the empty dictionary. */
  lemma {:induction false} ParsedNothing(lines: seq<string>)
    requires forall i | 0 <= i < |lines| :: !HasEntry(lines[i])
    ensures Parsed(lines) == map[]
  {
    if lines != [] {
      ParsedNothing(lines[..|lines| - 1]);
    }
  }

  // ---------------------------------------------------------------------------
  // is_meminfo_suspicious

  /** The six entries the balancer needs, in the order they are checked. */
  const REQUIRED_KEYS: seq<string> := ["MemTotal", "MemFree", "Buffers", "Cached", "SwapTotal", "SwapFree"]

  /**
   * A dictionary value. The parsed dictionary holds text; sanitising replaces the
   * six required entries with byte counts, so the dictionary ends up mixed.
   */
  datatype Value = Str(s: string) | Num(n: int)

  /** `int(u[k]) * 1024`, or None where that raises (missing key, not an integer). */
  function ScaledField(u: map<string, string>, k: string): Option<int> {
    if k in u && ParseInt(u[k]).Some? then Some(ParseInt(u[k]).value * 1024) else None
  }

  /** The byte count of an entry that parses; 0 stands in for one that does not. */
  function Bytes(u: map<string, string>, k: string): int {
    if ScaledField(u, k).Some? then ScaledField(u, k).value else 0
  }

  /** The first `n` required keys are present and parse as integers. */
  predicate ParsesUpTo(u: map<string, string>, n: nat)
    requires n <= |REQUIRED_KEYS|
  {
    forall k | k in REQUIRED_KEYS[..n] :: ScaledField(u, k).Some?
  }

  /** One of the first `n` required entries is negative once scaled to bytes. */
  predicate NegativeUpTo(u: map<string, string>, n: nat)
    requires n <= |REQUIRED_KEYS|
  {
    exists k | k in REQUIRED_KEYS[..n] :: Bytes(u, k) < 0
  }

  /**
   * What is_meminfo_suspicious lets through: all six keys present, each an integer
   * that is non-negative once scaled to bytes, swap free within swap total, and free,
   * cached and buffers memory within total memory.
   */
  predicate Acceptable(u: map<string, string>) {
    && (forall k | k in REQUIRED_KEYS :: ScaledField(u, k).Some? && Bytes(u, k) >= 0)
    && Bytes(u, "SwapFree") <= Bytes(u, "SwapTotal")
    && Bytes(u, "MemFree") + Bytes(u, "Cached") + Bytes(u, "Buffers") <= Bytes(u, "MemTotal")
  }

  /** The dictionary after the first `n` required entries have been replaced by their byte counts. */
  function ScaledUpTo(u: map<string, string>, n: nat): map<string, Value>
    requires n <= |REQUIRED_KEYS| && ParsesUpTo(u, n)
  {
    map k | k in u :: if k in REQUIRED_KEYS[..n] then Num(Bytes(u, k)) else Str(u[k])
  }

  /** The dictionary an accepted report leaves behind. */
  function Scaled(u: map<string, string>): map<string, Value>
    requires ParsesUpTo(u, |REQUIRED_KEYS|)
  {
    ScaledUpTo(u, |REQUIRED_KEYS|)
  }

  /**
   * A validated meminfo: the six required entries are non-negative byte counts with
   * swap free within swap total and free + cached + buffers within total memory.
   */
  predicate Sanitized(m: map<string, Value>) {
    && (forall k | k in REQUIRED_KEYS :: k in m && m[k].Num? && m[k].n >= 0)
    && m["SwapFree"].n <= m["SwapTotal"].n
    && m["MemFree"].n + m["Cached"].n + m["Buffers"].n <= m["MemTotal"].n
  }

  /** The working-set estimate; the two cross-field checks are what keep it non-negative. */
  function MemUsed(m: map<string, Value>): (used: int)
    requires Sanitized(m)
    ensures used >= 0
  {
    m["MemTotal"].n - m["MemFree"].n - m["Cached"].n - m["Buffers"].n + m["SwapTotal"].n - m["SwapFree"].n
  }

  /**
   * An accepted report becomes a validated meminfo: each required entry holds
   * `int(raw) * 1024`, every other entry keeps its text, and no key is added or lost.
   */
  lemma AcceptedIsSanitized(u: map<string, string>)
    requires Acceptable(u)
    ensures ParsesUpTo(u, |REQUIRED_KEYS|)
    ensures Sanitized(Scaled(u))
    ensures Scaled(u).Keys == u.Keys
    ensures forall k | k in REQUIRED_KEYS :: Scaled(u)[k] == Num(ParseInt(u[k]).value * 1024)
    ensures forall k | k in u && k !in REQUIRED_KEYS :: Scaled(u)[k] == Str(u[k])
  {
    assert REQUIRED_KEYS[..|REQUIRED_KEYS|] == REQUIRED_KEYS;
  }

  /** The six required keys are distinct, so scaling one leaves the others as text. */
  lemma RequiredKeyFresh(i: nat)
    requires i < |REQUIRED_KEYS|
    ensures REQUIRED_KEYS[i] !in REQUIRED_KEYS[..i]
  {
  }

  /** Before its turn, a required entry is still the text it was received as, if it was received at all. */
  lemma PendingEntry(u: map<string, string>, i: nat)
    requires i < |REQUIRED_KEYS| && ParsesUpTo(u, i)
    ensures REQUIRED_KEYS[i] in ScaledUpTo(u, i) <==> REQUIRED_KEYS[i] in u
    ensures REQUIRED_KEYS[i] in u ==> ScaledUpTo(u, i)[REQUIRED_KEYS[i]] == Str(u[REQUIRED_KEYS[i]])
  {
    RequiredKeyFresh(i);
  }

  /** Scaling a prefix of the required entries adds no key, loses none, and leaves the other entries as text. */
  lemma ScaledUpToFrame(u: map<string, string>, n: nat)
    requires n <= |REQUIRED_KEYS| && ParsesUpTo(u, n)
    ensures ScaledUpTo(u, n).Keys == u.Keys
    ensures forall k | k in u && k !in REQUIRED_KEYS :: ScaledUpTo(u, n)[k] == Str(u[k])
  {
    assert forall k | k in REQUIRED_KEYS[..n] :: k in REQUIRED_KEYS;
  }

  /** Replacing the next required entry by its byte count extends the scaled prefix by one key. */
  lemma ScaleStep(u: map<string, string>, i: nat)
    requires i < |REQUIRED_KEYS| && ParsesUpTo(u, i) && ScaledField(u, REQUIRED_KEYS[i]).Some?
    ensures ParsesUpTo(u, i + 1)
    ensures ScaledUpTo(u, i)[REQUIRED_KEYS[i] := Num(Bytes(u, REQUIRED_KEYS[i]))] == ScaledUpTo(u, i + 1)
    ensures NegativeUpTo(u, i + 1) <==> NegativeUpTo(u, i) || Bytes(u, REQUIRED_KEYS[i]) < 0
  {
    RequiredKeyFresh(i);
    assert REQUIRED_KEYS[..i + 1] == REQUIRED_KEYS[..i] + [REQUIRED_KEYS[i]];
  }

  /** A missing or non-integer required entry alone makes the report unacceptable. */
  lemma UnparsableRejected(u: map<string, string>, i: nat)
    requires i < |REQUIRED_KEYS| && ScaledField(u, REQUIRED_KEYS[i]).None?
    ensures !Acceptable(u)
  {
    assert REQUIRED_KEYS[i] in REQUIRED_KEYS;
  }

  /** Once all six entries parse, every one of them holds its byte count. */
  lemma FullyScaled(u: map<string, string>)
    requires ParsesUpTo(u, |REQUIRED_KEYS|)
    ensures var m := ScaledUpTo(u, |REQUIRED_KEYS|);
      forall k | k in REQUIRED_KEYS :: k in m && m[k] == Num(Bytes(u, k))
  {
    assert REQUIRED_KEYS[..|REQUIRED_KEYS|] == REQUIRED_KEYS;
  }

  /** Once all six entries parse, acceptance is: none negative, and the two cross-field checks. */
  lemma FinalChecks(u: map<string, string>)
    requires ParsesUpTo(u, |REQUIRED_KEYS|)
    ensures Acceptable(u) <==>
      && !NegativeUpTo(u, |REQUIRED_KEYS|)
      && !(Bytes(u, "SwapTotal") < Bytes(u, "SwapFree"))
      && !(Bytes(u, "MemTotal") < Bytes(u, "MemFree") + Bytes(u, "Cached") + Bytes(u, "Buffers"))
  {
    assert REQUIRED_KEYS[..|REQUIRED_KEYS|] == REQUIRED_KEYS;
  }

  /**
   * The guarded loop of is_meminfo_suspicious: replace each required entry, in order,
   * by its byte count, noting a negative one in `ret`. `raised` says the loop stopped
   * at a missing or non-integer entry (the KeyError or ValueError the bare `except`
   * catches), in which case `ret` is set as well.
   */
  method ScaleRequired(u: map<string, string>) returns (ret: bool, raised: bool, meminfo: map<string, Value>)
    ensures meminfo.Keys == u.Keys
    ensures forall k | k in u && k !in REQUIRED_KEYS :: meminfo[k] == Str(u[k])
    ensures raised ==> ret && !Acceptable(u)
    ensures !raised ==> ParsesUpTo(u, |REQUIRED_KEYS|) && meminfo == Scaled(u)
    ensures !raised ==> (ret <==> NegativeUpTo(u, |REQUIRED_KEYS|))
  {
    meminfo := map k | k in u :: Str(u[k]);
    assert meminfo == ScaledUpTo(u, 0);
    ret, raised := false, false;
    var i := 0;
    while i < |REQUIRED_KEYS|
      invariant 0 <= i <= |REQUIRED_KEYS|
      invariant ParsesUpTo(u, i) && meminfo == ScaledUpTo(u, i)
      invariant ret <==> NegativeUpTo(u, i)
    {
      var k := REQUIRED_KEYS[i];
      PendingEntry(u, i);
      if k !in meminfo {
        // KeyError
        UnparsableRejected(u, i);
        ScaledUpToFrame(u, i);
        return true, true, meminfo;
      }
      var parsed := match meminfo[k] case Str(s) => ParseInt(s) case Num(n) => Some(n);
      if parsed.None? {
        // ValueError
        UnparsableRejected(u, i);
        ScaledUpToFrame(u, i);
        return true, true, meminfo;
      }
      ScaleStep(u, i);
      var val := parsed.value * 1024;
      if val < 0 {
        ret := true;
      }
      meminfo := meminfo[k := Num(val)];
      i := i + 1;
    }
    ScaledUpToFrame(u, i);
  }

  /**
   * is_meminfo_suspicious: scale the six required entries to bytes in place, then
   * run the two cross-field checks. The result says whether the report is rejected;
   * `meminfo` is the dictionary as the call leaves it.
   */
  method IsMeminfoSuspicious(untrustedMeminfo: map<string, string>) returns (ret: bool, meminfo: map<string, Value>)
    ensures ret <==> !Acceptable(untrustedMeminfo)
    ensures !ret ==> meminfo == Scaled(untrustedMeminfo)
    ensures meminfo.Keys == untrustedMeminfo.Keys
    ensures forall k | k in untrustedMeminfo && k !in REQUIRED_KEYS :: meminfo[k] == Str(untrustedMeminfo[k])
  {
    var u := untrustedMeminfo;
    var raised;
    ret, raised, meminfo := ScaleRequired(u);
    if !raised {
      FullyScaled(u);
      FinalChecks(u);
      assert REQUIRED_KEYS[..|REQUIRED_KEYS|] == REQUIRED_KEYS;
      assert "SwapTotal" in REQUIRED_KEYS && "SwapFree" in REQUIRED_KEYS && "MemTotal" in REQUIRED_KEYS;
      assert "MemFree" in REQUIRED_KEYS && "Cached" in REQUIRED_KEYS && "Buffers" in REQUIRED_KEYS;
    }
    if !ret && meminfo["SwapTotal"].n < meminfo["SwapFree"].n {
      ret := true;
    }
    if !ret && meminfo["MemTotal"].n < meminfo["MemFree"].n + meminfo["Cached"].n + meminfo["Buffers"].n {
      ret := true;
    }
  }
}
