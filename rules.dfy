/**
 * A compiled rule set and its scan driver: the per-slot state of rules,
 * namespaces and strings, the slot mask shared by concurrent scans, the
 * external variables the host may define, and the scan of a list of memory
 * blocks with its single cleanup path.
 */
module Rules {
  import opened Types
  import opened AhoCorasick
  import opened SlotMask
  import opened Externals
  import opened Verdicts

  /** `SCAN_FLAGS_PROCESS_MEMORY`: the blocks are a process's address space. */
  const SCAN_FLAGS_PROCESS_MEMORY: bv32 := 0x02

  /** What one `yr_scan_verify_match` call appended to the string's lists for this slot. */
  datatype MatchEffect = MatchEffect(confirmed: seq<int>, unconfirmed: seq<int>)

  /**
   * What the condition code (`yr_execute_code`) leaves behind in the scan's
   * slot: its result, the rules it flagged as matching, and the namespaces
   * in which a global rule failed.
   */
  datatype VmOutcome = VmOutcome(err: ErrorCode, ruleMatched: nat -> bool, nsUnsatisfied: nat -> bool)

  /**
   * The collaborators of a scan that are not part of this model, each as
   * the answers it gives:
   * `create(n)` the result of creating the matches arena (0), the
   * matching-strings arena (1) and the objects table (2);
   * `bind(e)` the result of materialising external `e` and adding it to the
   * objects table; `entryPoint(b, processMemory)` the entry point found in
   * block `b`, None when there is none or the protected call faulted;
   * `faults(k)` whether walking block `k` raises a memory fault;
   * `expired(k)(i, j)` whether the deadline has passed when the walk of
   * block `k` checks it at cursor `i` before the `j`-th match record of the
   * current state; `verify(k)(m, offset)` and `effect(k, report)` the result
   * and the recorded matches of a match verification in block `k`; `vm` the condition code given
   * the entry point (it also reads the slot's match lists, which the walks
   * of the same call determine); `callback` the user callback.
   */
  datatype Host = Host(
    create: nat -> ErrorCode,
    bind: External -> ErrorCode,
    entryPoint: (Block, bool) -> Option<int>,
    faults: nat -> bool,
    expired: nat -> (nat, nat) -> bool,
    verify: nat -> (AcMatch, nat) -> ErrorCode,
    effect: (nat, Report) -> MatchEffect,
    vm: Option<int> -> VmOutcome,
    callback: Callback)

  /** What a scan returns and every callback call it made, in order. */
  datatype ScanReport = ScanReport(result: ErrorCode, calls: seq<Call>)

  /** One of the first `j` rules belongs to namespace `n`. */
  predicate HasRuleBelow(rules: seq<Rule>, n: nat, j: nat)
    requires j <= |rules|
  {
    j > 0 && (rules[j - 1].ns == n || HasRuleBelow(rules, n, j - 1))
  }

  /** Every rule's own namespace is one that holds a rule. */
  lemma {:induction false} HasRuleBelowOwn(rules: seq<Rule>, r: nat, j: nat)
    requires r < j <= |rules|
    ensures HasRuleBelow(rules, rules[r].ns, j)
    decreases j
  {
    if r < j - 1 {
      HasRuleBelowOwn(rules, r, j - 1);
    }
  }

  /**
   * What the verifier calls of `log` appended to string `s`'s confirmed (or
   * unconfirmed) list, in call order.
   */
  function Recorded(effect: (nat, Report) -> MatchEffect, b: nat, log: seq<Report>, s: nat, confirmed: bool): seq<int>
  {
    if log == [] then []
    else
      var rep := log[|log| - 1];
      var e := effect(b, rep);
      Recorded(effect, b, log[..|log| - 1], s, confirmed)
        + (if rep.m.str != s then [] else if confirmed then e.confirmed else e.unconfirmed)
  }

  /** Recording one more call of `log` extends only the lists of that call's string. */
  lemma RecordedStep(effect: (nat, Report) -> MatchEffect, b: nat, log: seq<Report>, j: nat, s: nat)
    requires j < |log|
    ensures forall confirmed: bool {:trigger Recorded(effect, b, log[..j + 1], s, confirmed)} ::
              Recorded(effect, b, log[..j + 1], s, confirmed)
                == Recorded(effect, b, log[..j], s, confirmed)
                   + (if log[j].m.str != s then []
                      else if confirmed then effect(b, log[j]).confirmed else effect(b, log[j]).unconfirmed)
  {
    assert log[..j + 1][..j] == log[..j];
  }

  /** A string that no call of `log` is about gets nothing recorded. */
  lemma {:induction false} RecordedOnlyItsOwn(effect: (nat, Report) -> MatchEffect, b: nat, log: seq<Report>, s: nat, confirmed: bool)
    requires forall k :: 0 <= k < |log| ==> log[k].m.str != s
    ensures Recorded(effect, b, log, s, confirmed) == []
    decreases |log|
  {
    if log != [] {
      RecordedOnlyItsOwn(effect, b, log[..|log| - 1], s, confirmed);
    }
  }

  /** The message of rule `r` when the condition code's flags are all the slot holds. */
  function VmMessages(rules: seq<Rule>, vm: VmOutcome): (msgs: seq<Message>)
    ensures |msgs| == |rules|
  {
    seq(|rules|, r requires 0 <= r < |rules| =>
      if vm.ruleMatched(r) && !vm.nsUnsatisfied(rules[r].ns) then RuleMatching else RuleNotMatching)
  }

  /**
   * Setting the flags the condition code reports on clear flags gives the
   * message the condition code's outcome calls for.
   */
  lemma VerdictOfFreshFlags(f: bv32, g: bv32, matched: bool, unsatisfied: bool)
    requires !HasFlag(f, RULE_TFLAGS_MATCH) && !HasFlag(g, NAMESPACE_TFLAGS_UNSATISFIED_GLOBAL)
    ensures VerdictMessage(if matched then SetFlag(f, RULE_TFLAGS_MATCH) else f,
                           if unsatisfied then SetFlag(g, NAMESPACE_TFLAGS_UNSATISFIED_GLOBAL) else g)
            == if matched && !unsatisfied then RuleMatching else RuleNotMatching
  {
  }

  /** The message of every rule from a slot's rule and namespace flags, in rule order. */
  function RowMessages(rules: seq<Rule>, rf: seq<bv32>, nf: seq<bv32>): (msgs: seq<Message>)
    requires |rf| == |rules| && forall r :: 0 <= r < |rules| ==> rules[r].ns < |nf|
    ensures |msgs| == |rules|
    ensures forall r :: 0 <= r < |rules| ==>
              (msgs[r] == RuleMatching <==>
                 HasFlag(rf[r], RULE_TFLAGS_MATCH) && !HasFlag(nf[rules[r].ns], NAMESPACE_TFLAGS_UNSATISFIED_GLOBAL))
  {
    seq(|rules|, r requires 0 <= r < |rules| => VerdictMessage(rf[r], nf[rules[r].ns]))
  }

  /** A row of flags with `bit` set on the entries `on` selects, every other entry as it was. */
  function Raise(row: seq<bv32>, bit: bv32, on: nat -> bool): (raised: seq<bv32>)
    ensures |raised| == |row|
  {
    seq(|row|, i requires 0 <= i < |row| => if on(i) then SetFlag(row[i], bit) else row[i])
  }

  /** Raising nothing leaves a row as it was. */
  lemma RaiseNothing(row: seq<bv32>, bit: bv32)
    ensures Raise(row, bit, _ => false) == row
  {
  }

  /**
   * On a slot holding no flags, the messages after the condition code has
   * raised its flags are exactly the ones its outcome calls for.
   */
  lemma FreshFlagsMessages(rules: seq<Rule>, rf: seq<bv32>, nf: seq<bv32>, vm: VmOutcome)
    requires |rf| == |rules| && forall r :: 0 <= r < |rules| ==> rules[r].ns < |nf|
    requires FlagRowsClean(rules, rf, nf)
    ensures RowMessages(rules, Raise(rf, RULE_TFLAGS_MATCH, vm.ruleMatched), Raise(nf, NAMESPACE_TFLAGS_UNSATISFIED_GLOBAL, vm.nsUnsatisfied))
            == VmMessages(rules, vm)
  {
    var rf', nf' := Raise(rf, RULE_TFLAGS_MATCH, vm.ruleMatched), Raise(nf, NAMESPACE_TFLAGS_UNSATISFIED_GLOBAL, vm.nsUnsatisfied);
    forall r | 0 <= r < |rules|
      ensures RowMessages(rules, rf', nf')[r] == VmMessages(rules, vm)[r]
    {
      VerdictOfFreshFlags(rf[r], nf[rules[r].ns], vm.ruleMatched(r), vm.nsUnsatisfied(rules[r].ns));
    }
  }

  /**
   * Clearing the cleanup's flags after the condition code raised its own
   * gives the same flags as clearing them on the rows it started from.
   */
  lemma RaisedThenCleared(rules: seq<Rule>, rf0: seq<bv32>, nf0: seq<bv32>, on: nat -> bool, onNs: nat -> bool, rf: seq<bv32>, nf: seq<bv32>)
    requires FlagsCleared(rules, Raise(rf0, RULE_TFLAGS_MATCH, on), Raise(nf0, NAMESPACE_TFLAGS_UNSATISFIED_GLOBAL, onNs), rf, nf, |rules|)
    ensures forall r :: 0 <= r < |rules| ==> rf[r] == ClearFlag(rf0[r], RULE_TFLAGS_MATCH)
    ensures forall n :: 0 <= n < |nf| && HasRuleBelow(rules, n, |rules|) ==>
              nf[n] == ClearFlag(nf0[n], NAMESPACE_TFLAGS_UNSATISFIED_GLOBAL)
  {
    forall r | 0 <= r < |rules|
      ensures rf[r] == ClearFlag(rf0[r], RULE_TFLAGS_MATCH)
    {
      ClearUndoesSet(rf0[r], RULE_TFLAGS_MATCH);
    }
    forall n | 0 <= n < |nf| && HasRuleBelow(rules, n, |rules|)
      ensures nf[n] == ClearFlag(nf0[n], NAMESPACE_TFLAGS_UNSATISFIED_GLOBAL)
    {
      ClearUndoesSet(nf0[n], NAMESPACE_TFLAGS_UNSATISFIED_GLOBAL);
    }
  }

  /** The walk environment of block `k`: its data, the timeout, the clock during that block, the verifier. */
  function BlockEnv(blocks: seq<Block>, k: nat, host: Host, timeout: int): WalkEnv
    requires k < |blocks|
  {
    WalkEnv(blocks[k], timeout, host.expired(k), host.verify(k))
  }

  /**
   * The entry point once the first `n` blocks have been visited: it is
   * looked for in each block while it is still undefined.
   */
  function EntryBefore(blocks: seq<Block>, processMemory: bool, host: Host, n: nat): Option<int>
    requires n <= |blocks|
  {
    if n == 0 then None
    else
      var e := EntryBefore(blocks, processMemory, host, n - 1);
      if e.Some? then e else host.entryPoint(blocks[n - 1], processMemory)
  }

  /**
   * The entry point of a scan is the one found in the first block that has
   * one; it is undefined exactly when no visited block has one.
   */
  lemma {:induction false} EntryIsFirstFound(blocks: seq<Block>, processMemory: bool, host: Host, n: nat)
    requires n <= |blocks|
    ensures EntryBefore(blocks, processMemory, host, n).None? <==>
              forall j :: 0 <= j < n ==> host.entryPoint(blocks[j], processMemory).None?
    ensures EntryBefore(blocks, processMemory, host, n).Some? ==>
              exists j :: 0 <= j < n && host.entryPoint(blocks[j], processMemory) == EntryBefore(blocks, processMemory, host, n)
                && forall i :: 0 <= i < j ==> host.entryPoint(blocks[i], processMemory).None?
    decreases n
  {
    if n > 0 {
      EntryIsFirstFound(blocks, processMemory, host, n - 1);
      if EntryBefore(blocks, processMemory, host, n - 1).None? {
        assert forall i :: 0 <= i < n - 1 ==> host.entryPoint(blocks[i], processMemory).None?;
      }
    }
  }

  /** `flags & SCAN_FLAGS_PROCESS_MEMORY`: the entry point is looked up as an address, not a file offset. */
  predicate ProcessMemory(flags: bv32)
  {
    flags & SCAN_FLAGS_PROCESS_MEMORY != 0
  }

  /**
   * Every string's lists in `cm` and `um` are its lists in `cm0` and `um0`
   * followed by what the calls of `log` recorded for it.
   */
  ghost predicate ListsExtended(cm0: seq<seq<int>>, um0: seq<seq<int>>, cm: seq<seq<int>>, um: seq<seq<int>>,
                                effect: (nat, Report) -> MatchEffect, b: nat, log: seq<Report>)
  {
    && |cm0| == |um0| == |cm| == |um|
    && forall s :: 0 <= s < |cm| ==>
         && cm[s] == cm0[s] + Recorded(effect, b, log, s, true)
         && um[s] == um0[s] + Recorded(effect, b, log, s, false)
  }

  /** Every string with a non-empty list is listed in `arena`. */
  ghost predicate ListedIn(cm: seq<seq<int>>, um: seq<seq<int>>, arena: seq<nat>)
  {
    |cm| == |um| && forall s :: 0 <= s < |cm| && (cm[s] != [] || um[s] != []) ==> s in arena
  }

  /** Every string listed in `arena` is one of the `n` strings of the rule set. */
  predicate ArenaBelow(arena: seq<nat>, n: nat)
  {
    forall s :: s in arena ==> s < n
  }

  /**
   * The recording of one block walk's calls on the lists of one slot: each
   * call appends its matches to its string's lists, and a string whose lists
   * were both empty is listed in the arena when it gets its first match.
   */
  method RecordLog(cm0: seq<seq<int>>, um0: seq<seq<int>>, b: nat, log: seq<Report>,
                   effect: (nat, Report) -> MatchEffect, arena0: seq<nat>)
    returns (cm: seq<seq<int>>, um: seq<seq<int>>, arena: seq<nat>)
    requires |cm0| == |um0|
    requires forall k :: 0 <= k < |log| ==> log[k].m.str < |cm0|
    requires forall s :: s in arena0 ==> s < |cm0|
    ensures ListsExtended(cm0, um0, cm, um, effect, b, log)
    ensures arena0 <= arena && forall s :: s in arena ==> s < |cm0|
    ensures ListedIn(cm0, um0, arena0) ==> ListedIn(cm, um, arena)
  {
    ghost var listed := ListedIn(cm0, um0, arena0);
    cm, um, arena := cm0, um0, arena0;
    assert log[..0] == [];
    for j := 0 to |log|
      invariant ListsExtended(cm0, um0, cm, um, effect, b, log[..j])
      invariant arena0 <= arena && forall s :: s in arena ==> s < |cm0|
      invariant listed ==> ListedIn(cm, um, arena)
    {
      var str := log[j].m.str;
      var e := effect(b, log[j]);
      var arena' := arena;
      if (e.confirmed != [] || e.unconfirmed != []) && cm[str] == [] && um[str] == [] {
        arena' := arena + [str];
      }
      RecordOne(cm0, um0, cm, um, effect, b, log, j);
      if listed {
        ListedAfterOne(cm, um, arena, arena', str, e);
      }
      cm, um, arena := cm[str := cm[str] + e.confirmed], um[str := um[str] + e.unconfirmed], arena';
    }
    assert log[..|log|] == log;
  }

  /** Appending one call's matches to its string's lists records one more call of `log`. */
  lemma RecordOne(cm0: seq<seq<int>>, um0: seq<seq<int>>, cm: seq<seq<int>>, um: seq<seq<int>>,
                  effect: (nat, Report) -> MatchEffect, b: nat, log: seq<Report>, j: nat)
    requires j < |log| && log[j].m.str < |cm0|
    requires ListsExtended(cm0, um0, cm, um, effect, b, log[..j])
    ensures var str, e := log[j].m.str, effect(b, log[j]);
            ListsExtended(cm0, um0, cm[str := cm[str] + e.confirmed], um[str := um[str] + e.unconfirmed], effect, b, log[..j + 1])
  {
    var str, e := log[j].m.str, effect(b, log[j]);
    var cm', um' := cm[str := cm[str] + e.confirmed], um[str := um[str] + e.unconfirmed];
    forall s | 0 <= s < |cm'|
      ensures cm'[s] == cm0[s] + Recorded(effect, b, log[..j + 1], s, true)
      ensures um'[s] == um0[s] + Recorded(effect, b, log[..j + 1], s, false)
    {
      RecordedStep(effect, b, log, j, s);
    }
  }

  /** Listing a string when it gets its first match keeps every string with a match listed. */
  lemma ListedAfterOne(cm: seq<seq<int>>, um: seq<seq<int>>, arena: seq<nat>, arena': seq<nat>, str: nat, e: MatchEffect)
    requires str < |cm| == |um|
    requires arena' == if (e.confirmed != [] || e.unconfirmed != []) && cm[str] == [] && um[str] == [] then arena + [str] else arena
    requires ListedIn(cm, um, arena)
    ensures ListedIn(cm[str := cm[str] + e.confirmed], um[str := um[str] + e.unconfirmed], arena')
  {
  }

  /** No rule carries MATCH and no rule's namespace carries UNSATISFIED_GLOBAL. */
  ghost predicate FlagRowsClean(rules: seq<Rule>, rf: seq<bv32>, nf: seq<bv32>)
  {
    forall r :: 0 <= r < |rules| ==>
      && r < |rf| && rules[r].ns < |nf|
      && !HasFlag(rf[r], RULE_TFLAGS_MATCH) && !HasFlag(nf[rules[r].ns], NAMESPACE_TFLAGS_UNSATISFIED_GLOBAL)
  }

  /** Every string's lists are empty. */
  ghost predicate ListRowsClean(cm: seq<seq<int>>, um: seq<seq<int>>)
  {
    |cm| == |um| && forall s :: 0 <= s < |cm| ==> cm[s] == [] && um[s] == []
  }

  /**
   * `rf` and `nf` are `rf0` and `nf0` after the rule loop of the cleanup has
   * visited the first `k` rules: MATCH cleared on those rules and
   * UNSATISFIED_GLOBAL cleared on their namespaces, every other flag as it was.
   */
  ghost predicate FlagsCleared(rules: seq<Rule>, rf0: seq<bv32>, nf0: seq<bv32>, rf: seq<bv32>, nf: seq<bv32>, k: nat)
  {
    && k <= |rules| && |rf| == |rf0| == |rules| && |nf| == |nf0|
    && (forall r :: 0 <= r < |rules| ==> rf[r] == if r < k then ClearFlag(rf0[r], RULE_TFLAGS_MATCH) else rf0[r])
    && (forall n :: 0 <= n < |nf| ==>
          nf[n] == if HasRuleBelow(rules, n, k) then ClearFlag(nf0[n], NAMESPACE_TFLAGS_UNSATISFIED_GLOBAL) else nf0[n])
  }

  /**
   * `cm` and `um` are `cm0` and `um0` after the arena loop of the cleanup has
   * visited the first `k` registered strings: their lists emptied, every
   * other list as it was.
   */
  ghost predicate ListsCleared(arena: seq<nat>, cm0: seq<seq<int>>, um0: seq<seq<int>>, cm: seq<seq<int>>, um: seq<seq<int>>, k: nat)
  {
    && k <= |arena| && |cm| == |cm0| == |um0| == |um|
    && forall s :: 0 <= s < |cm| ==>
         && cm[s] == (if s in arena[..k] then [] else cm0[s])
         && um[s] == (if s in arena[..k] then [] else um0[s])
  }

  /** The rule loop of `_yr_rules_clean_matches` on one slot's flags. */
  method ClearFlagRows(rules: seq<Rule>, rf0: seq<bv32>, nf0: seq<bv32>) returns (rf: seq<bv32>, nf: seq<bv32>)
    requires |rf0| == |rules| && forall r :: 0 <= r < |rules| ==> rules[r].ns < |nf0|
    ensures FlagsCleared(rules, rf0, nf0, rf, nf, |rules|)
  {
    rf, nf := rf0, nf0;
    for r := 0 to |rules|
      invariant FlagsCleared(rules, rf0, nf0, rf, nf, r)
    {
      FlagsClearedStep(rules, rf0, nf0, rf, nf, r);
      var n := rules[r].ns;
      rf := rf[r := ClearFlag(rf[r], RULE_TFLAGS_MATCH)];
      nf := nf[n := ClearFlag(nf[n], NAMESPACE_TFLAGS_UNSATISFIED_GLOBAL)];
    }
  }

  /** Visiting rule `k` clears its MATCH flag and its namespace's UNSATISFIED_GLOBAL flag. */
  lemma FlagsClearedStep(rules: seq<Rule>, rf0: seq<bv32>, nf0: seq<bv32>, rf: seq<bv32>, nf: seq<bv32>, k: nat)
    requires k < |rules| && rules[k].ns < |nf|
    requires FlagsCleared(rules, rf0, nf0, rf, nf, k)
    ensures FlagsCleared(rules, rf0, nf0, rf[k := ClearFlag(rf[k], RULE_TFLAGS_MATCH)],
                         nf[rules[k].ns := ClearFlag(nf[rules[k].ns], NAMESPACE_TFLAGS_UNSATISFIED_GLOBAL)], k + 1)
  {
    ClearFlagClears(nf0[rules[k].ns], NAMESPACE_TFLAGS_UNSATISFIED_GLOBAL);
  }

  /** The arena loop of `_yr_rules_clean_matches` on one slot's lists. */
  method ClearListRows(arena: seq<nat>, cm0: seq<seq<int>>, um0: seq<seq<int>>) returns (cm: seq<seq<int>>, um: seq<seq<int>>)
    requires |cm0| == |um0| && forall s :: s in arena ==> s < |cm0|
    ensures ListsCleared(arena, cm0, um0, cm, um, |arena|)
  {
    cm, um := cm0, um0;
    for j := 0 to |arena|
      invariant ListsCleared(arena, cm0, um0, cm, um, j)
    {
      assert arena[..j + 1] == arena[..j] + [arena[j]];
      var s := arena[j];
      assert s in arena;
      cm := cm[s := []];
      um := um[s := []];
    }
  }

  /**
   * When every string with a match is registered, the cleanup leaves no
   * flag set on any rule or rule namespace and every list empty.
   */
  lemma ClearedRowsAreClean(rules: seq<Rule>, arena: seq<nat>,
                            rf0: seq<bv32>, nf0: seq<bv32>, cm0: seq<seq<int>>, um0: seq<seq<int>>,
                            rf: seq<bv32>, nf: seq<bv32>, cm: seq<seq<int>>, um: seq<seq<int>>)
    requires FlagsCleared(rules, rf0, nf0, rf, nf, |rules|)
    requires forall r :: 0 <= r < |rules| ==> rules[r].ns < |nf|
    requires ListsCleared(arena, cm0, um0, cm, um, |arena|)
    requires ListedIn(cm0, um0, arena)
    ensures FlagRowsClean(rules, rf, nf)
    ensures ListRowsClean(cm, um)
  {
    assert arena[..|arena|] == arena;
    forall r | 0 <= r < |rules|
      ensures !HasFlag(rf[r], RULE_TFLAGS_MATCH) && !HasFlag(nf[rules[r].ns], NAMESPACE_TFLAGS_UNSATISFIED_GLOBAL)
    {
      ClearFlagClears(rf0[r], RULE_TFLAGS_MATCH);
      ClearFlagClears(nf0[rules[r].ns], NAMESPACE_TFLAGS_UNSATISFIED_GLOBAL);
      HasRuleBelowOwn(rules, r, |rules|);
    }
  }

  /**
   * The trace of the walk of block `k`: no verifier call and
   * ERROR_COULD_NOT_MAP_FILE when the walk faults, the walk's own trace
   * otherwise.
   */
  ghost function BlockTrace(a: Automaton, depth: map<nat, nat>, blocks: seq<Block>, k: nat, host: Host, timeout: int): Trace
    requires WellFormed(a, depth) && k < |blocks|
  {
    if host.faults(k) then Trace([], CouldNotMapFile)
    else Walk(a, depth, BlockEnv(blocks, k, host, timeout), 0, ROOT_STATE)
  }

  /** `traces` holds the trace of the walk of every block, in block order. */
  ghost predicate WalkedAs(a: Automaton, depth: map<nat, nat>, blocks: seq<Block>, host: Host, timeout: int, traces: seq<Trace>)
    requires WellFormed(a, depth)
  {
    && |traces| == |blocks|
    && forall k {:trigger BlockTrace(a, depth, blocks, k, host, timeout)} :: 0 <= k < |blocks| ==>
         traces[k] == BlockTrace(a, depth, blocks, k, host, timeout)
  }

  /** The traces of the walks of all blocks. */
  ghost function BlockTraces(a: Automaton, depth: map<nat, nat>, blocks: seq<Block>, host: Host, timeout: int): (traces: seq<Trace>)
    requires WellFormed(a, depth)
    ensures WalkedAs(a, depth, blocks, host, timeout, traces)
  {
    seq(|blocks|, k requires 0 <= k < |blocks| => BlockTrace(a, depth, blocks, k, host, timeout))
  }

  /** The block loop from block `k` on: the result of the first block that fails, or success. */
  function BlocksFrom(traces: seq<Trace>, k: nat): ErrorCode
    requires k <= |traces|
    decreases |traces| - k
  {
    if k == |traces| then Success
    else if traces[k].err != Success then traces[k].err
    else BlocksFrom(traces, k + 1)
  }

  /**
   * The block loop succeeds exactly when every block from `k` on does, and
   * otherwise fails with the result of the first block that fails.
   */
  lemma {:induction false} BlocksFromIsFirstFailure(traces: seq<Trace>, k: nat)
    requires k <= |traces|
    ensures BlocksFrom(traces, k) == Success <==> forall j :: k <= j < |traces| ==> traces[j].err == Success
    ensures BlocksFrom(traces, k) != Success ==>
              exists j :: k <= j < |traces| && BlocksFrom(traces, k) == traces[j].err
                && forall i :: k <= i < j ==> traces[i].err == Success
    decreases |traces| - k
  {
    if k < |traces| {
      BlocksFromIsFirstFailure(traces, k + 1);
      var rest := BlocksFrom(traces, k + 1);
      if traces[k].err == Success && rest != Success {
        var j :| k + 1 <= j < |traces| && rest == traces[j].err
                 && forall i :: k + 1 <= i < j ==> traces[i].err == Success;
        assert forall i :: k <= i < j ==> traces[i].err == Success;
      }
    }
  }

  /**
   * What the block loop from block `k` on appends to string `s`'s confirmed
   * (or unconfirmed) list: each walked block's calls in turn, up to and
   * including the first block that fails.
   */
  function BlocksRecorded(effect: (nat, Report) -> MatchEffect, traces: seq<Trace>, k: nat, s: nat, confirmed: bool): seq<int>
    requires k <= |traces|
    decreases |traces| - k
  {
    if k == |traces| then []
    else
      Recorded(effect, k, traces[k].log, s, confirmed)
        + (if traces[k].err != Success then [] else BlocksRecorded(effect, traces, k + 1, s, confirmed))
  }

  /**
   * Every string's lists in `cm` and `um` are its lists in `cm0` and `um0`
   * followed by what the whole block loop records for it.
   */
  ghost predicate BlocksRecordedIn(effect: (nat, Report) -> MatchEffect, traces: seq<Trace>,
                                   cm0: seq<seq<int>>, um0: seq<seq<int>>, cm: seq<seq<int>>, um: seq<seq<int>>)
  {
    && |cm0| == |um0| == |cm| == |um|
    && forall s :: 0 <= s < |cm| ==>
         && cm[s] == cm0[s] + BlocksRecorded(effect, traces, 0, s, true)
         && um[s] == um0[s] + BlocksRecorded(effect, traces, 0, s, false)
  }

  /**
   * `cm` and `um` are `cm0` and `um0` after the block loop has visited the
   * blocks before `k`: what the loop still records from `k` on completes them.
   */
  ghost predicate BlocksUpTo(effect: (nat, Report) -> MatchEffect, traces: seq<Trace>,
                             cm0: seq<seq<int>>, um0: seq<seq<int>>, cm: seq<seq<int>>, um: seq<seq<int>>, k: nat)
    requires k <= |traces|
  {
    && |cm0| == |um0| == |cm| == |um|
    && forall s {:trigger BlocksRecorded(effect, traces, k, s, true)} :: 0 <= s < |cm| ==>
         && cm0[s] + BlocksRecorded(effect, traces, 0, s, true) == cm[s] + BlocksRecorded(effect, traces, k, s, true)
         && um0[s] + BlocksRecorded(effect, traces, 0, s, false) == um[s] + BlocksRecorded(effect, traces, k, s, false)
  }

  /**
   * Recording block `k`'s calls moves the loop on to block `k + 1` when the
   * block succeeds, and completes the loop's lists when it fails.
   */
  lemma BlocksUpToStep(effect: (nat, Report) -> MatchEffect, traces: seq<Trace>,
                       cm0: seq<seq<int>>, um0: seq<seq<int>>, cm: seq<seq<int>>, um: seq<seq<int>>,
                       cm': seq<seq<int>>, um': seq<seq<int>>, k: nat)
    requires k < |traces|
    requires BlocksUpTo(effect, traces, cm0, um0, cm, um, k)
    requires ListsExtended(cm, um, cm', um', effect, k, traces[k].log)
    ensures traces[k].err == Success ==> BlocksUpTo(effect, traces, cm0, um0, cm', um', k + 1)
    ensures traces[k].err != Success ==> BlocksRecordedIn(effect, traces, cm0, um0, cm', um')
  {
    var ok := traces[k].err == Success;
    forall s | 0 <= s < |cm|
      ensures cm0[s] + BlocksRecorded(effect, traces, 0, s, true)
                == cm'[s] + (if ok then BlocksRecorded(effect, traces, k + 1, s, true) else [])
      ensures um0[s] + BlocksRecorded(effect, traces, 0, s, false)
                == um'[s] + (if ok then BlocksRecorded(effect, traces, k + 1, s, false) else [])
    {
      BlocksRecordedOne(effect, traces, cm0[s], cm[s], cm'[s], k, s, true);
      BlocksRecordedOne(effect, traces, um0[s], um[s], um'[s], k, s, false);
    }
  }

  /** The step of `BlocksUpToStep` for one list of one string. */
  lemma BlocksRecordedOne(effect: (nat, Report) -> MatchEffect, traces: seq<Trace>,
                          l0: seq<int>, l: seq<int>, l': seq<int>, k: nat, s: nat, confirmed: bool)
    requires k < |traces|
    requires l0 + BlocksRecorded(effect, traces, 0, s, confirmed) == l + BlocksRecorded(effect, traces, k, s, confirmed)
    requires l' == l + Recorded(effect, k, traces[k].log, s, confirmed)
    ensures l0 + BlocksRecorded(effect, traces, 0, s, confirmed)
              == l' + (if traces[k].err == Success then BlocksRecorded(effect, traces, k + 1, s, confirmed) else [])
  {
    var rest := if traces[k].err == Success then BlocksRecorded(effect, traces, k + 1, s, confirmed) else [];
    assert l + (Recorded(effect, k, traces[k].log, s, confirmed) + rest) == l' + rest;
  }

  /** Once the block loop has visited every block, its lists are complete. */
  lemma BlocksUpToEnd(effect: (nat, Report) -> MatchEffect, traces: seq<Trace>,
                      cm0: seq<seq<int>>, um0: seq<seq<int>>, cm: seq<seq<int>>, um: seq<seq<int>>)
    requires BlocksUpTo(effect, traces, cm0, um0, cm, um, |traces|)
    ensures BlocksRecordedIn(effect, traces, cm0, um0, cm, um)
  {
    forall s | 0 <= s < |cm|
      ensures cm[s] == cm0[s] + BlocksRecorded(effect, traces, 0, s, true)
      ensures um[s] == um0[s] + BlocksRecorded(effect, traces, 0, s, false)
    {
      assert BlocksRecorded(effect, traces, |traces|, s, true) == [];
      assert cm[s] + [] == cm[s] && um[s] + [] == um[s];
    }
  }

  /**
   * One pass of the block loop on the match lists of a slot: walk block `k`
   * unless it faults and record the walk's verifier calls.
   */
  method ScanOneBlock(a: Automaton, ghost depth: map<nat, nat>, n: nat, blocks: seq<Block>, k: nat, host: Host, timeout: int,
                      ghost traces: seq<Trace>, cm0: seq<seq<int>>, um0: seq<seq<int>>, arena0: seq<nat>)
    returns (err: ErrorCode, cm: seq<seq<int>>, um: seq<seq<int>>, arena: seq<nat>)
    requires WellFormed(a, depth) && StringsBelow(a, depth, n) && k < |blocks|
    requires WalkedAs(a, depth, blocks, host, timeout, traces)
    requires |cm0| == |um0| == n && ArenaBelow(arena0, n)
    ensures err == traces[k].err
    ensures ListsExtended(cm0, um0, cm, um, host.effect, k, traces[k].log)
    ensures ArenaBelow(arena, n)
    ensures ListedIn(cm0, um0, arena0) ==> ListedIn(cm, um, arena)
  {
    assert traces[k] == BlockTrace(a, depth, blocks, k, host, timeout);
    if host.faults(k) {
      return CouldNotMapFile, cm0, um0, arena0;
    }
    var env := BlockEnv(blocks, k, host, timeout);
    var log;
    err, log := ScanMemBlock(a, depth, env);
    WalkStringsBelow(a, depth, env, n);
    cm, um, arena := RecordLog(cm0, um0, k, log, host.effect, arena0);
  }

  /**
   * The block loop of a scan on the match lists of its slot: the entry point
   * is looked for in each block until one has it, each block is walked and
   * its verifier calls recorded, and the first failing block ends the loop.
   * `traces` are the walks' traces.
   */
  method ScanBlockRows(a: Automaton, ghost depth: map<nat, nat>, n: nat, blocks: seq<Block>, flags: bv32, host: Host, timeout: int,
                       ghost traces: seq<Trace>, cm0: seq<seq<int>>, um0: seq<seq<int>>, arena0: seq<nat>)
    returns (err: ErrorCode, entry: Option<int>, cm: seq<seq<int>>, um: seq<seq<int>>, arena: seq<nat>)
    requires WellFormed(a, depth) && StringsBelow(a, depth, n)
    requires WalkedAs(a, depth, blocks, host, timeout, traces)
    requires |cm0| == |um0| == n && ArenaBelow(arena0, n)
    ensures err == BlocksFrom(traces, 0)
    ensures BlocksRecordedIn(host.effect, traces, cm0, um0, cm, um)
    ensures err == Success ==> entry == EntryBefore(blocks, ProcessMemory(flags), host, |blocks|)
    ensures ArenaBelow(arena, n)
    ensures ListedIn(cm0, um0, arena0) ==> ListedIn(cm, um, arena)
  {
    ghost var listed := ListedIn(cm0, um0, arena0);
    var processMemory := ProcessMemory(flags);
    entry, cm, um, arena := None, cm0, um0, arena0;
    var k := 0;
    while k < |blocks|
      invariant k <= |blocks| && |cm| == |um| == n
      invariant BlocksFrom(traces, k) == BlocksFrom(traces, 0)
      invariant BlocksUpTo(host.effect, traces, cm0, um0, cm, um, k)
      invariant entry == EntryBefore(blocks, processMemory, host, k)
      invariant ArenaBelow(arena, n)
      invariant listed ==> ListedIn(cm, um, arena)
    {
      if entry.None? {
        entry := host.entryPoint(blocks[k], processMemory);
      }
      var arena', cm', um';
      err, cm', um', arena' := ScanOneBlock(a, depth, n, blocks, k, host, timeout, traces, cm, um, arena);
      BlocksUpToStep(host.effect, traces, cm0, um0, cm, um, cm', um', k);
      cm, um, arena := cm', um', arena';
      if err != Success {
        return;
      }
      k := k + 1;
    }
    BlocksUpToEnd(host.effect, traces, cm0, um0, cm, um);
    err := Success;
  }

  /**
   * What a scan leaves in its slot, given what the slot held when it began
   * (`rf0`, `nf0`, and whether its lists were empty): the scan returned and
   * reported what was `expected`, every rule's MATCH flag and every rule
   * namespace's UNSATISFIED_GLOBAL flag ended cleared, and a slot whose lists
   * were empty is clean again.
   */
  ghost predicate SlotScanned(rules: seq<Rule>, expected: ScanReport, rf0: seq<bv32>, nf0: seq<bv32>, listsClean0: bool,
                              rf: seq<bv32>, nf: seq<bv32>, cm: seq<seq<int>>, um: seq<seq<int>>, result: ErrorCode, calls: seq<Call>)
  {
    && ScanReport(result, calls) == expected
    && |rf0| == |rf| == |rules| && |nf0| == |nf|
    && (forall r :: 0 <= r < |rules| ==> rf[r] == ClearFlag(rf0[r], RULE_TFLAGS_MATCH))
    && (forall n :: 0 <= n < |nf| && HasRuleBelow(rules, n, |rules|) ==> nf[n] == ClearFlag(nf0[n], NAMESPACE_TFLAGS_UNSATISFIED_GLOBAL))
    && (listsClean0 ==> FlagRowsClean(rules, rf, nf) && ListRowsClean(cm, um))
  }

  class RuleSet {
    /** The Aho-Corasick transition and match tables. */
    const automaton: Automaton
    /** The depth of every automaton state; witnesses that failure links reach the root. */
    ghost const depth: map<nat, nat>
    const rules: seq<Rule>
    const namespaceCount: nat
    const stringCount: nat
    /** The external variables, ended by a record of kind Null. */
    const externals: array<External>
    /** `tidx_mask`: bit `t` is set while slot `t` is in use. */
    var tidxMask: bv32
    /** `ruleFlags[t][r]` is `t_flags[t]` of rule `r`. */
    const ruleFlags: array<seq<bv32>>
    /** `nsFlags[t][n]` is `t_flags[t]` of namespace `n`. */
    const nsFlags: array<seq<bv32>>
    /** `matches[t][s]` is the match list `matches[t]` of string `s`, as its offsets. */
    const matches: array<seq<seq<int>>>
    /** `unconfirmed[t][s]` is the list `unconfirmed_matches[t]` of string `s`. */
    const unconfirmed: array<seq<seq<int>>>
    /** Every string value handed to `yr_free` by the define operations, in order. */
    ghost var freed: seq<Payload>

    /** One row per slot in each per-slot table; every rule's namespace exists. */
    predicate Shaped()
    {
      && (forall r :: 0 <= r < |rules| ==> rules[r].ns < namespaceCount)
      && ruleFlags.Length == MAX_THREADS && nsFlags.Length == MAX_THREADS
      && matches.Length == MAX_THREADS && unconfirmed.Length == MAX_THREADS
      && ruleFlags != nsFlags && matches != unconfirmed
      && ruleFlags as object != matches && ruleFlags as object != unconfirmed
      && nsFlags as object != matches && nsFlags as object != unconfirmed
    }

    /** The compiled tables are as the compiler leaves them; none of this changes after loading. */
    ghost predicate Valid()
    {
      && Shaped()
      && WellFormed(automaton, depth)
      && StringsBelow(automaton, depth, stringCount)
    }

    /** Every row has one entry per rule, namespace or string. */
    ghost predicate RowsShaped()
      reads ruleFlags, nsFlags, matches, unconfirmed
    {
      && Shaped()
      && forall u :: 0 <= u < MAX_THREADS ==>
           && |ruleFlags[u]| == |rules| && |nsFlags[u]| == namespaceCount
           && |matches[u]| == stringCount && |unconfirmed[u]| == stringCount
    }

    /** The external variables are ended by a record of kind Null. */
    ghost predicate ExternalsEnded()
      reads externals
    {
      Terminated(externals[..])
    }

    /** In slot `t` no rule is flagged as matching and no rule's namespace as unsatisfied. */
    ghost predicate FlagsClean(t: int)
      requires RowsShaped() && 0 <= t < MAX_THREADS
      reads ruleFlags, nsFlags, matches, unconfirmed
    {
      FlagRowsClean(rules, ruleFlags[t], nsFlags[t])
    }

    /** In slot `t` every string's match lists are empty. */
    ghost predicate ListsClean(t: int)
      requires RowsShaped() && 0 <= t < MAX_THREADS
      reads ruleFlags, nsFlags, matches, unconfirmed
    {
      ListRowsClean(matches[t], unconfirmed[t])
    }

    /** Slot `t` holds no scan results. */
    ghost predicate SlotClean(t: int)
      requires RowsShaped() && 0 <= t < MAX_THREADS
      reads ruleFlags, nsFlags, matches, unconfirmed
    {
      FlagsClean(t) && ListsClean(t)
    }

    /** Every string with a non-empty list in slot `t` is registered in `arena`. */
    ghost predicate Registered(t: int, arena: seq<nat>)
      requires RowsShaped() && 0 <= t < MAX_THREADS
      reads ruleFlags, nsFlags, matches, unconfirmed
    {
      ListedIn(matches[t], unconfirmed[t], arena)
    }

    /** Between the two states, no slot other than `t` changed (with `t == MAX_THREADS`, none did). */
    twostate predicate OnlySlotChanged(t: int)
      requires Shaped()
      reads ruleFlags, nsFlags, matches, unconfirmed
    {
      forall u :: 0 <= u < MAX_THREADS && u != t ==>
        && ruleFlags[u] == old(ruleFlags[u]) && nsFlags[u] == old(nsFlags[u])
        && matches[u] == old(matches[u]) && unconfirmed[u] == old(unconfirmed[u])
    }

    /** The message every rule gets from the flags of slot `t`, in rule order. */
    ghost function SlotMessages(t: int): (msgs: seq<Message>)
      requires RowsShaped() && 0 <= t < MAX_THREADS
      reads ruleFlags, nsFlags, matches, unconfirmed
      ensures |msgs| == |rules|
    {
      RowMessages(rules, ruleFlags[t], nsFlags[t])
    }

    /**
     * Loading a rule set: the tables come from the compiled file, every
     * per-slot flag and list starts out empty and no slot is in use.
     */
    constructor (a: Automaton, ghost d: map<nat, nat>, rs: seq<Rule>, nsCount: nat, strCount: nat, ext: seq<External>)
      requires WellFormed(a, d) && StringsBelow(a, d, strCount) && Terminated(ext)
      requires forall r :: 0 <= r < |rs| ==> rs[r].ns < nsCount
      ensures Valid() && RowsShaped() && ExternalsEnded() && fresh(externals)
      ensures automaton == a && rules == rs && externals[..] == ext
      ensures tidxMask == 0 && freed == []
      ensures forall t :: 0 <= t < MAX_THREADS ==> SlotClean(t)
    {
      automaton, depth, rules := a, d, rs;
      namespaceCount, stringCount := nsCount, strCount;
      externals := new External[|ext|](i requires 0 <= i < |ext| => ext[i]);
      tidxMask := 0;
      var noFlags: seq<bv32> := seq(|rs|, _ => 0);
      var noNsFlags: seq<bv32> := seq(nsCount, _ => 0);
      var noLists: seq<seq<int>> := seq(strCount, _ => []);
      ruleFlags := new seq<bv32>[MAX_THREADS](_ => noFlags);
      nsFlags := new seq<bv32>[MAX_THREADS](_ => noNsFlags);
      matches := new seq<seq<int>>[MAX_THREADS](_ => noLists);
      unconfirmed := new seq<seq<int>>[MAX_THREADS](_ => noLists);
      freed := [];
      new;
      assert externals[..] == ext;
      forall t | 0 <= t < MAX_THREADS
        ensures SlotClean(t)
      {
        assert ruleFlags[t] == noFlags && nsFlags[t] == noNsFlags;
        assert matches[t] == noLists && unconfirmed[t] == noLists;
      }
    }

    // -------------------------------------------------------------------------
    // External variables
    // -------------------------------------------------------------------------

    /** The search loop shared by the define operations: walk the list up to the end marker. */
    method FindExternal(identifier: string) returns (found: Option<nat>)
      requires ExternalsEnded()
      ensures found == Lookup(externals[..], identifier)
    {
      ghost var s := externals[..];
      var k := 0;
      while externals[k].kind != Null
        invariant 0 <= k <= End(s) && TerminatedFrom(s, k)
        invariant LookupFrom(s, identifier, k) == Lookup(s, identifier)
        decreases End(s) - k
      {
        if externals[k].identifier == identifier {
          return Some(k);
        }
        assert s[End(s)].kind == Null;
        k := k + 1;
      }
      return None;
    }

    /** `yr_rules_define_integer_variable`. */
    method DefineIntegerVariable(identifier: string, value: int64) returns (r: ErrorCode)
      requires ExternalsEnded()
      modifies externals
      ensures ExternalsEnded() && freed == old(freed)
      ensures match Lookup(old(externals[..]), identifier)
              case None => r == InvalidArgument && externals[..] == old(externals[..])
              case Some(k) =>
                && r == Success
                && externals[..] == old(externals[..])[k := old(externals[k]).(value := IntValue(value as int))]
      ensures forall id :: Lookup(externals[..], id) == Lookup(old(externals[..]), id)
    {
      var found := FindExternal(identifier);
      if found.None? {
        return InvalidArgument;
      }
      var k := found.value;
      SetExternal(k, externals[k].(value := IntValue(value as int)));
      r := Success;
    }

    /** `yr_rules_define_boolean_variable`: the C `int` is stored in the integer member. */
    method DefineBooleanVariable(identifier: string, value: int32) returns (r: ErrorCode)
      requires ExternalsEnded()
      modifies externals
      ensures ExternalsEnded() && freed == old(freed)
      ensures match Lookup(old(externals[..]), identifier)
              case None => r == InvalidArgument && externals[..] == old(externals[..])
              case Some(k) =>
                && r == Success
                && externals[..] == old(externals[..])[k := old(externals[k]).(value := IntValue(value as int))]
      ensures forall id :: Lookup(externals[..], id) == Lookup(old(externals[..]), id)
    {
      var found := FindExternal(identifier);
      if found.None? {
        return InvalidArgument;
      }
      var k := found.value;
      SetExternal(k, externals[k].(value := IntValue(value as int)));
      r := Success;
    }

    /** `yr_rules_define_float_variable`: the double is stored as its bit pattern. */
    method DefineFloatVariable(identifier: string, value: bv64) returns (r: ErrorCode)
      requires ExternalsEnded()
      modifies externals
      ensures ExternalsEnded() && freed == old(freed)
      ensures match Lookup(old(externals[..]), identifier)
              case None => r == InvalidArgument && externals[..] == old(externals[..])
              case Some(k) =>
                && r == Success
                && externals[..] == old(externals[..])[k := old(externals[k]).(value := FloatValue(value))]
      ensures forall id :: Lookup(externals[..], id) == Lookup(old(externals[..]), id)
    {
      var found := FindExternal(identifier);
      if found.None? {
        return InvalidArgument;
      }
      var k := found.value;
      SetExternal(k, externals[k].(value := FloatValue(value)));
      r := Success;
    }

    /**
     * `yr_rules_define_string_variable`. The old value is freed only when the
     * external already owned a heap string and its pointer is not NULL; the
     * external then owns a copy of `value`. `duplicated` is whether
     * `yr_strdup` could allocate the copy: when it could not, the external is
     * left owning NULL and the result is ERROR_INSUFICIENT_MEMORY.
     */
    method DefineStringVariable(identifier: string, value: string, duplicated: bool) returns (r: ErrorCode)
      requires ExternalsEnded()
      modifies externals, this`freed
      ensures ExternalsEnded()
      ensures match Lookup(old(externals[..]), identifier)
              case None => r == InvalidArgument && externals[..] == old(externals[..]) && freed == old(freed)
              case Some(k) =>
                var e := old(externals[k]);
                && freed == old(freed) + (if e.kind == MallocString && !PointerIsNull(e.value) then [e.value] else [])
                && externals[..] == old(externals[..])[k := External(MallocString, e.identifier, StrValue(if duplicated then Some(value) else None))]
                && r == (if duplicated then Success else InsufficientMemory)
      ensures forall id :: Lookup(externals[..], id) == Lookup(old(externals[..]), id)
    {
      var found := FindExternal(identifier);
      if found.None? {
        return InvalidArgument;
      }
      var k := found.value;
      var e := externals[k];
      if e.kind == MallocString && !PointerIsNull(e.value) {
        freed := freed + [e.value];
      }
      var copy := if duplicated then Some(value) else None;
      SetExternal(k, External(MallocString, e.identifier, StrValue(copy)));
      if copy.None? {
        r := InsufficientMemory;
      } else {
        r := Success;
      }
    }

    /** Overwrite live external `k` with a record of the same identifier. */
    method SetExternal(k: nat, e: External)
      requires ExternalsEnded() && k < End(externals[..])
      requires e.identifier == externals[k].identifier && e.kind != Null
      modifies externals
      ensures ExternalsEnded()
      ensures externals[..] == old(externals[..])[k := e]
      ensures forall id :: Lookup(externals[..], id) == Lookup(old(externals[..]), id)
    {
      ghost var s := externals[..];
      externals[k] := e;
      assert externals[..] == s[k := e];
      UpdateKeepsLookup(s, k, e, e.identifier);
      forall id
        ensures Lookup(externals[..], id) == Lookup(s, id)
      {
        UpdateKeepsLookup(s, k, e, id);
      }
    }


    // -------------------------------------------------------------------------
    // One scan's slot
    // -------------------------------------------------------------------------

    /**
     * The binding loop of a scan: every live external, in list order, is
     * turned into an object and added to the objects table; the first failure
     * ends the loop with its error.
     */
    method BindExternals(bind: External -> ErrorCode) returns (err: ErrorCode)
      requires ExternalsEnded()
      ensures err == BindFrom(externals[..], bind, 0)
    {
      ghost var s := externals[..];
      var k := 0;
      while externals[k].kind != Null
        invariant 0 <= k <= End(s) && TerminatedFrom(s, k)
        invariant BindFrom(s, bind, k) == BindFrom(s, bind, 0)
        decreases End(s) - k
      {
        err := bind(externals[k]);
        if err != Success {
          return;
        }
        assert s[End(s)].kind == Null;
        k := k + 1;
      }
      return Success;
    }

    /**
     * The verdict loop over slot `t`: every rule's message is built from its
     * flags and its namespace's flags, public rules are reported in rule
     * order, and CALLBACK_ABORT or CALLBACK_ERROR ends the loop.
     */
    method ReportVerdicts(t: nat, callback: Callback) returns (stop: Stop, calls: seq<Call>)
      requires RowsShaped() && t < MAX_THREADS
      ensures Outcome(calls, stop) == DispatchFrom(rules, SlotMessages(t), callback, 0)
    {
      ghost var msgs := SlotMessages(t);
      calls := [];
      var r := 0;
      while r < |rules|
        invariant r <= |rules|
        invariant DispatchFrom(rules, msgs, callback, 0) == Prepend(calls, DispatchFrom(rules, msgs, callback, r))
      {
        var message := VerdictMessage(ruleFlags[t][r], nsFlags[t][rules[r].ns]);
        assert message == msgs[r];
        DispatchStep(rules, msgs, callback, r, calls);
        if !rules[r].isPrivate {
          var answer := callback(message, Some(r));
          calls := calls + [Call(message, Some(r))];
          if answer == Abort {
            return Aborted, calls;
          } else if answer == Error {
            return Failed, calls;
          }
        }
        r := r + 1;
      }
      assert calls + [] == calls;
      stop := Finished;
    }

    /** The flags the condition code sets in slot `t`: MATCH on matching rules, UNSATISFIED_GLOBAL on namespaces. */
    method RunVm(t: nat, vm: VmOutcome)
      requires RowsShaped() && t < MAX_THREADS
      modifies ruleFlags, nsFlags
      ensures RowsShaped() && OnlySlotChanged(t)
      ensures ruleFlags[t] == Raise(old(ruleFlags[t]), RULE_TFLAGS_MATCH, vm.ruleMatched)
      ensures nsFlags[t] == Raise(old(nsFlags[t]), NAMESPACE_TFLAGS_UNSATISFIED_GLOBAL, vm.nsUnsatisfied)
      ensures old(FlagsClean(t)) ==> SlotMessages(t) == VmMessages(rules, vm)
    {
      ghost var clean := FlagsClean(t);
      var rf, nf := ruleFlags[t], nsFlags[t];
      if clean {
        FreshFlagsMessages(rules, rf, nf, vm);
      }
      ruleFlags[t] := seq(|rf|, r requires 0 <= r < |rf| =>
        if vm.ruleMatched(r) then SetFlag(rf[r], RULE_TFLAGS_MATCH) else rf[r]);
      nsFlags[t] := seq(|nf|, n requires 0 <= n < |nf| =>
        if vm.nsUnsatisfied(n) then SetFlag(nf[n], NAMESPACE_TFLAGS_UNSATISFIED_GLOBAL) else nf[n]);
    }

    /**
     * `_yr_rules_clean_matches`: clear MATCH on every rule and
     * UNSATISFIED_GLOBAL on every rule's namespace in slot `t`, and empty the
     * lists of every string registered in the matching-strings arena. No
     * other slot is touched. When every string with a match was registered,
     * the slot is left clean.
     */
    method CleanMatches(t: nat, arena: seq<nat>)
      requires RowsShaped() && t < MAX_THREADS
      requires ArenaBelow(arena, stringCount)
      modifies ruleFlags, nsFlags, matches, unconfirmed
      ensures RowsShaped() && OnlySlotChanged(t)
      ensures FlagsCleared(rules, old(ruleFlags[t]), old(nsFlags[t]), ruleFlags[t], nsFlags[t], |rules|)
      ensures ListsCleared(arena, old(matches[t]), old(unconfirmed[t]), matches[t], unconfirmed[t], |arena|)
      ensures old(Registered(t, arena)) ==> SlotClean(t)
    {
      var rf, nf := ClearFlagRows(rules, ruleFlags[t], nsFlags[t]);
      var cm, um := ClearListRows(arena, matches[t], unconfirmed[t]);
      ghost var listed := ListedIn(matches[t], unconfirmed[t], arena);
      if listed {
        ClearedRowsAreClean(rules, arena, ruleFlags[t], nsFlags[t], matches[t], unconfirmed[t], rf, nf, cm, um);
      }
      ruleFlags[t] := rf;
      nsFlags[t] := nf;
      matches[t] := cm;
      unconfirmed[t] := um;
      assert ruleFlags[t] == rf && nsFlags[t] == nf;
    }

    // -------------------------------------------------------------------------
    // The scan driver
    // -------------------------------------------------------------------------

    /**
     * The setup of a scan: create the matches arena, the matching-strings
     * arena and the objects table, then bind every external; the first
     * failure is the result.
     */
    ghost function SetupResult(host: Host): ErrorCode
      requires ExternalsEnded()
      reads externals
    {
      if host.create(0) != Success then host.create(0)
      else if host.create(1) != Success then host.create(1)
      else if host.create(2) != Success then host.create(2)
      else BindFrom(externals[..], host.bind, 0)
    }

    /**
     * What a scan of `blocks` in slot `t` returns and reports, from the state
     * it starts in: the setup, then the blocks in order, then the condition
     * code run with the entry point of the first block that has one, then
     * the verdict loop on the flags the condition code raised, followed by
     * SCAN_FINISHED when the loop ran to the end. The first failing phase
     * ends the scan with its error and no callback call.
     */
    ghost function ExpectedScan(t: nat, blocks: seq<Block>, flags: bv32, host: Host, timeout: int): ScanReport
      requires Valid() && RowsShaped() && ExternalsEnded() && t < MAX_THREADS
      reads externals, ruleFlags, nsFlags, matches, unconfirmed
    {
      var vm := host.vm(EntryBefore(blocks, ProcessMemory(flags), host, |blocks|));
      if SetupResult(host) != Success then ScanReport(SetupResult(host), [])
      else if BlocksFrom(BlockTraces(automaton, depth, blocks, host, timeout), 0) != Success then ScanReport(BlocksFrom(BlockTraces(automaton, depth, blocks, host, timeout), 0), [])
      else if vm.err != Success then ScanReport(vm.err, [])
      else
        var msgs := RowMessages(rules, Raise(ruleFlags[t], RULE_TFLAGS_MATCH, vm.ruleMatched),
                                Raise(nsFlags[t], NAMESPACE_TFLAGS_UNSATISFIED_GLOBAL, vm.nsUnsatisfied));
        var d := DispatchFrom(rules, msgs, host.callback, 0);
        ScanReport(PhaseResult(d), Reported(d))
    }

    /**
     * The block loop of a scan in slot `t`: the entry point is looked for in
     * each block until one has it, each block is walked (a fault in the walk
     * gives ERROR_COULD_NOT_MAP_FILE), the verifier calls of the walk are
     * recorded in the slot, and the first failing block ends the loop.
     */
    method ScanBlocks(t: nat, blocks: seq<Block>, flags: bv32, host: Host, timeout: int, arena0: seq<nat>)
      returns (err: ErrorCode, entry: Option<int>, arena: seq<nat>)
      requires Valid() && RowsShaped() && t < MAX_THREADS
      requires ArenaBelow(arena0, stringCount)
      modifies matches, unconfirmed
      ensures RowsShaped() && OnlySlotChanged(t)
      ensures err == BlocksFrom(BlockTraces(automaton, depth, blocks, host, timeout), 0)
      ensures BlocksRecordedIn(host.effect, BlockTraces(automaton, depth, blocks, host, timeout), old(matches[t]), old(unconfirmed[t]), matches[t], unconfirmed[t])
      ensures err == Success ==> entry == EntryBefore(blocks, ProcessMemory(flags), host, |blocks|)
      ensures ArenaBelow(arena, stringCount)
      ensures old(Registered(t, arena0)) ==> Registered(t, arena)
    {
      var cm, um;
      err, entry, cm, um, arena := ScanBlockRows(automaton, depth, stringCount, blocks, flags, host, timeout,
                                                 BlockTraces(automaton, depth, blocks, host, timeout), matches[t], unconfirmed[t], arena0);
      matches[t] := cm;
      unconfirmed[t] := um;
    }

    /**
     * Everything a scan does in slot `tidx` between reserving and releasing it:
     * the setup, the block loop, the condition code and the verdict loop.
     * `matched` and `unsatisfied` are the flags the condition code raised
     * (none when it did not run).
     */
    method RunPhases(t: nat, blocks: seq<Block>, flags: bv32, host: Host, timeout: int)
      returns (result: ErrorCode, calls: seq<Call>, arena: seq<nat>, ghost matched: nat -> bool, ghost unsatisfied: nat -> bool)
      requires Valid() && RowsShaped() && ExternalsEnded() && t < MAX_THREADS
      modifies ruleFlags, nsFlags, matches, unconfirmed
      ensures RowsShaped() && ExternalsEnded() && OnlySlotChanged(t)
      ensures ScanReport(result, calls) == old(ExpectedScan(t, blocks, flags, host, timeout))
      ensures ruleFlags[t] == Raise(old(ruleFlags[t]), RULE_TFLAGS_MATCH, matched)
      ensures nsFlags[t] == Raise(old(nsFlags[t]), NAMESPACE_TFLAGS_UNSATISFIED_GLOBAL, unsatisfied)
      ensures old(SetupResult(host)) != Success ==> matches[t] == old(matches[t]) && unconfirmed[t] == old(unconfirmed[t])
      ensures old(SetupResult(host)) == Success ==>
                BlocksRecordedIn(host.effect, BlockTraces(automaton, depth, blocks, host, timeout), old(matches[t]), old(unconfirmed[t]), matches[t], unconfirmed[t])
      ensures ArenaBelow(arena, stringCount)
      ensures old(ListsClean(t)) ==> Registered(t, arena)
    {
      ghost var rf0, nf0 := ruleFlags[t], nsFlags[t];
      ghost var expected := ExpectedScan(t, blocks, flags, host, timeout);
      matched, unsatisfied := _ => false, _ => false;
      RaiseNothing(rf0, RULE_TFLAGS_MATCH);
      RaiseNothing(nf0, NAMESPACE_TFLAGS_UNSATISFIED_GLOBAL);
      calls, arena := [], [];
      result := host.create(0);
      if result != Success {
        return;
      }
      result := host.create(1);
      if result != Success {
        return;
      }
      result := host.create(2);
      if result != Success {
        return;
      }
      result := BindExternals(host.bind);
      if result != Success {
        return;
      }
      var entry;
      result, entry, arena := ScanBlocks(t, blocks, flags, host, timeout, arena);
      if result != Success {
        return;
      }
      var vm := host.vm(entry);
      RunVm(t, vm);
      matched, unsatisfied := vm.ruleMatched, vm.nsUnsatisfied;
      if vm.err != Success {
        return vm.err, calls, arena, matched, unsatisfied;
      }
      var stop;
      stop, calls := ReportVerdicts(t, host.callback);
      if stop == Finished {
        calls := calls + [Call(ScanFinished, None)];
      }
      result := PhaseResult(Outcome(calls, stop));
    }

    /**
     * A scan in slot `tidx` ended as `SlotScanned` says, starting from the
     * slot as it was, and no other slot changed.
     */
    twostate predicate ScannedIn(tidx: Slot, blocks: seq<Block>, flags: bv32, host: Host, timeout: int, result: ErrorCode, calls: seq<Call>)
      requires old(Valid() && RowsShaped() && ExternalsEnded()) && RowsShaped() && tidx < 32
      reads externals, ruleFlags, nsFlags, matches, unconfirmed
    {
      var t := tidx as int;
      && OnlySlotChanged(t)
      && SlotScanned(rules, old(ExpectedScan(t, blocks, flags, host, timeout)), old(ruleFlags[t]), old(nsFlags[t]), old(ListsClean(t)),
                     ruleFlags[t], nsFlags[t], matches[t], unconfirmed[t], result, calls)
    }

    /**
     * Everything a scan does in slot `tidx` between reserving and releasing it:
     * its phases, then the cleanup of the slot. The slot's bit is held in the
     * mask throughout, and the mask is not touched here.
     */
    method RunAndClean(tidx: Slot, blocks: seq<Block>, flags: bv32, host: Host, timeout: int) returns (result: ErrorCode, calls: seq<Call>)
      requires Valid() && RowsShaped() && ExternalsEnded() && tidx < 32
      requires InUse(tidxMask, tidx)
      modifies ruleFlags, nsFlags, matches, unconfirmed
      ensures RowsShaped() && ExternalsEnded() && OnlySlotChanged(tidx as int)
      ensures SlotScanned(rules, old(ExpectedScan(tidx as int, blocks, flags, host, timeout)),
                          old(ruleFlags[tidx as int]), old(nsFlags[tidx as int]), old(ListsClean(tidx as int)),
                          ruleFlags[tidx as int], nsFlags[tidx as int], matches[tidx as int], unconfirmed[tidx as int], result, calls)
    {
      var t := tidx as int;
      var arena;
      ghost var matched, unsatisfied;
      result, calls, arena, matched, unsatisfied := RunPhases(t, blocks, flags, host, timeout);
      CleanMatches(t, arena);
      RaisedThenCleared(rules, old(ruleFlags[t]), old(nsFlags[t]), matched, unsatisfied, ruleFlags[t], nsFlags[t]);
    }

    /**
     * A scan in free slot `tidx`: reserve the slot by setting its bit in the
     * mask, scan in it and release it again.
     */
    method ScanInSlot(tidx: Slot, bit: bv32, blocks: seq<Block>, flags: bv32, host: Host, timeout: int)
      returns (result: ErrorCode, calls: seq<Call>)
      requires Valid() && RowsShaped() && ExternalsEnded()
      requires tidx < 32 && bit == SlotBit(tidx) && !InUse(tidxMask, tidx)
      modifies this`tidxMask, ruleFlags, nsFlags, matches, unconfirmed
      ensures RowsShaped() && ExternalsEnded()
      ensures tidxMask == old(tidxMask)
      ensures ScannedIn(tidx, blocks, flags, host, timeout, result, calls)
    {
      ghost var mask0 := tidxMask;
      tidxMask := SetFlag(tidxMask, bit);
      SetReservesSlot(mask0, tidx);
      result, calls := RunAndClean(tidx, blocks, flags, host, timeout);
      tidxMask := ClearFlag(tidxMask, SlotBit(tidx));
      ReleaseUndoesReserve(mask0, tidx);
      assert OnlySlotChanged(tidx as int);
    }

    /**
     * `yr_rules_scan_mem_blocks`. An empty block list is a successful scan
     * that does nothing. Otherwise the scan reserves the lowest free slot
     * (ERROR_TOO_MANY_SCAN_THREADS when all 32 are taken, touching nothing),
     * scans in that slot and releases it, leaving the slot mask as it found it.
     */
    method ScanMemBlocks(blocks: seq<Block>, flags: bv32, host: Host, timeout: int) returns (result: ErrorCode, calls: seq<Call>)
      requires Valid() && RowsShaped() && ExternalsEnded()
      modifies this`tidxMask, ruleFlags, nsFlags, matches, unconfirmed
      ensures RowsShaped() && ExternalsEnded()
      ensures tidxMask == old(tidxMask)
      ensures blocks == [] ==> result == Success && calls == [] && OnlySlotChanged(MAX_THREADS)
      ensures blocks != [] && LowestClearBit(old(tidxMask)) == 32 ==>
                result == TooManyScanThreads && calls == [] && OnlySlotChanged(MAX_THREADS)
      ensures blocks != [] && LowestClearBit(old(tidxMask)) < 32 ==>
                ScannedIn(LowestClearBit(old(tidxMask)), blocks, flags, host, timeout, result, calls)
    {
      if blocks == [] {
        return Success, [];
      }
      var tidx, bit := FindFreeSlot(tidxMask);
      if tidx == 32 {
        return TooManyScanThreads, [];
      }
      result, calls := ScanInSlot(tidx, bit, blocks, flags, host, timeout);
    }

    /**
     * `yr_rules_scan_mem`: the scan of a single block holding `buffer` at
     * base 0.
     */
    method ScanMem(buffer: seq<byte>, flags: bv32, host: Host, timeout: int) returns (result: ErrorCode, calls: seq<Call>)
      requires Valid() && RowsShaped() && ExternalsEnded()
      modifies this`tidxMask, ruleFlags, nsFlags, matches, unconfirmed
      ensures RowsShaped() && ExternalsEnded()
      ensures tidxMask == old(tidxMask)
      ensures LowestClearBit(old(tidxMask)) == 32 ==>
                result == TooManyScanThreads && calls == [] && OnlySlotChanged(MAX_THREADS)
      ensures LowestClearBit(old(tidxMask)) < 32 ==>
                ScannedIn(LowestClearBit(old(tidxMask)), [Block(buffer, 0)], flags, host, timeout, result, calls)
    {
      result, calls := ScanMemBlocks([Block(buffer, 0)], flags, host, timeout);
    }
  }
}
