/**
 * The Aho-Corasick block walker of the scan driver.
 *
 * The automaton is the compiled rule set's packed transition table: entry
 * `table[s + b + 1]` answers input byte `b` in state `s` when its low 16 bits
 * hold `b + 1`, and its upper 32 bits are the target state; `table[s]` holds
 * the failure link of `s` in its upper 32 bits. `matches[s]` lists the match
 * records of state `s` in list order.
 */
module AhoCorasick {
  import opened Types

  const ROOT_STATE: nat := 0

  datatype Automaton = Automaton(table: seq<bv64>, matches: seq<seq<AcMatch>>)

  /** The target state of a table entry: its upper 32 bits. */
  function NextState(t: bv64): nat
  {
    (t >> 32) as nat
  }

  /** A table entry does not answer `index` (input byte plus one) when its low 16 bits differ. */
  predicate InvalidTransition(t: bv64, index: nat)
  {
    (t & 0xFFFF) as nat != index
  }

  /** The entry that answers `index` in state `s`. */
  function Entry(a: Automaton, s: nat, index: nat): bv64
    requires s + index < |a.table|
  {
    a.table[s + index]
  }

  /** The failure link of state `s`, stored at `table[s]`. */
  function FailureLink(a: Automaton, s: nat): nat
    requires s < |a.table|
  {
    NextState(a.table[s])
  }

  /**
   * What the compiler guarantees of the tables. `depth` maps every state to
   * its depth in the trie: each state's slots fit in the table, every valid
   * transition leads to a state, and the failure link of a non-root state is a
   * shallower state (so following failure links always reaches the root).
   */
  ghost predicate WellFormed(a: Automaton, depth: map<nat, nat>)
  {
    && ROOT_STATE in depth
    && (forall s :: s in depth ==> s + 256 < |a.table| && s < |a.matches|)
    && (forall s :: s in depth && s != ROOT_STATE ==>
          FailureLink(a, s) in depth && depth[FailureLink(a, s)] < depth[s])
    && (forall s, index :: s in depth && 1 <= index <= 256 && !InvalidTransition(Entry(a, s, index), index) ==>
          NextState(Entry(a, s, index)) in depth)
  }

  /**
   * The state reached from `s` on input `index`: follow failure links while
   * the transition is invalid and the state is not the root; at the root an
   * invalid transition becomes transition 0. The result is always a state.
   */
  ghost function Step(a: Automaton, depth: map<nat, nat>, s: nat, index: nat): (r: nat)
    requires WellFormed(a, depth) && s in depth && 1 <= index <= 256
    ensures r in depth
    decreases depth[s]
  {
    var t := Entry(a, s, index);
    if !InvalidTransition(t, index) then NextState(t)
    else if s != ROOT_STATE then Step(a, depth, FailureLink(a, s), index)
    else NextState(0)
  }

  /** The state the walker is in after consuming `data`, starting at the root. */
  ghost function StateAfter(a: Automaton, depth: map<nat, nat>, data: seq<byte>): (s: nat)
    requires WellFormed(a, depth)
    ensures s in depth
    decreases |data|
  {
    if data == [] then ROOT_STATE
    else Step(a, depth, StateAfter(a, depth, data[..|data| - 1]), data[|data| - 1] as nat + 1)
  }

  /**
   * The collaborators one block walk consults: the block, the timeout in
   * seconds, the wall-clock oracle and the match verifier of this block. The
   * clock is read afresh before every record of a match list, so
   * `expired(i, j)` answers the check made before record `j` of the list at
   * cursor `i`: has the deadline passed by then?
   */
  datatype WalkEnv = WalkEnv(
    blk: Block,
    timeout: int,
    expired: (nat, nat) -> bool,
    verify: (AcMatch, nat) -> ErrorCode)

  /**
   * The deadline check before record `j` at cursor `i` stops the walk: it is
   * made only with a positive timeout at a cursor that is a multiple of 4096.
   */
  predicate ClockExpired(env: WalkEnv, i: nat, j: nat)
  {
    env.timeout > 0 && i % 4096 == 0 && env.expired(i, j)
  }

  /** The verifier calls of a walk and how it ended. */
  datatype Trace = Trace(log: seq<Report>, err: ErrorCode)

  function Then(prefix: seq<Report>, t: Trace): Trace
  {
    Trace(prefix + t.log, t.err)
  }

  /** The reports the records `ms` call for at cursor `i`: those with `backtrack <= i`, in list order. */
  function Eligible(ms: seq<AcMatch>, i: nat): seq<Report>
  {
    if ms == [] then []
    else if ms[0].backtrack <= i then [Report(ms[0], i - ms[0].backtrack)] + Eligible(ms[1..], i)
    else Eligible(ms[1..], i)
  }

  /**
   * Emitting the records of the current state's list `ms` from position `j`
   * on, at cursor `i`. Before each record the deadline is checked when
   * `clocked` (the pre-consumption loop); a record with `backtrack <= i` is
   * verified at `i - backtrack` and the first failure ends the emission with
   * its error.
   */
  ghost function Emit(env: WalkEnv, ms: seq<AcMatch>, i: nat, j: nat, clocked: bool): Trace
    requires j <= |ms|
    decreases |ms| - j
  {
    if j == |ms| then Trace([], Success)
    else if clocked && ClockExpired(env, i, j) then Trace([], ScanTimeout)
    else if ms[j].backtrack <= i then
      var r := Report(ms[j], i - ms[j].backtrack);
      var e := env.verify(ms[j], r.offset);
      if e != Success then Trace([r], e) else Then([r], Emit(env, ms, i, j + 1, clocked))
    else Emit(env, ms, i, j + 1, clocked)
  }

  /**
   * The walk from cursor `i` in state `s`: emit the state's records, consume
   * byte `i`, advance; at the end of the block flush the final state without
   * a deadline check.
   */
  ghost function Walk(a: Automaton, depth: map<nat, nat>, env: WalkEnv, i: nat, s: nat): Trace
    requires WellFormed(a, depth) && s in depth && i <= |env.blk.data|
    decreases |env.blk.data| - i
  {
    if i < |env.blk.data| then
      var pre := Emit(env, a.matches[s], i, 0, true);
      if pre.err != Success then pre
      else Then(pre.log, Walk(a, depth, env, i + 1, Step(a, depth, s, env.blk.data[i] as nat + 1)))
    else Emit(env, a.matches[s], i, 0, false)
  }

  /**
   * The reports the automaton prescribes from cursor `p` to the end of the
   * block: at every cursor `q` in `p..|data|`, the eligible records of the
   * state reached after the first `q` bytes.
   */
  ghost function Expected(a: Automaton, depth: map<nat, nat>, data: seq<byte>, p: nat): seq<Report>
    requires WellFormed(a, depth) && p <= |data|
    decreases |data| - p
  {
    Eligible(a.matches[StateAfter(a, depth, data[..p])], p)
      + (if p < |data| then Expected(a, depth, data, p + 1) else [])
  }

  /** The match records of the state reached after the first `q` bytes. */
  ghost function RecordsAt(a: Automaton, depth: map<nat, nat>, data: seq<byte>, q: nat): seq<AcMatch>
    requires WellFormed(a, depth) && q <= |data|
  {
    a.matches[StateAfter(a, depth, data[..q])]
  }

  /** The reports the automaton prescribes at the cursors from `p0` up to, not including, `p`. */
  ghost function Between(a: Automaton, depth: map<nat, nat>, data: seq<byte>, p0: nat, p: nat): seq<Report>
    requires WellFormed(a, depth) && p0 <= p <= |data|
    decreases p - p0
  {
    if p0 == p then [] else Eligible(RecordsAt(a, depth, data, p0), p0) + Between(a, depth, data, p0 + 1, p)
  }

  ghost predicate AllVerified(env: WalkEnv, log: seq<Report>)
  {
    forall k :: 0 <= k < |log| ==> env.verify(log[k].m, log[k].offset) == Success
  }

  /**
   * None of the deadline checks a walk from cursor `p0` makes before record
   * `j` at cursor `p` found the deadline passed: one check per record of the
   * state at every cursor in between.
   */
  ghost predicate NoCheckFired(a: Automaton, depth: map<nat, nat>, env: WalkEnv, p0: nat, p: nat, j: nat)
    requires WellFormed(a, depth) && p0 <= p <= |env.blk.data|
  {
    && (forall q, l :: p0 <= q < p && 0 <= l < |RecordsAt(a, depth, env.blk.data, q)| ==> !ClockExpired(env, q, l))
    && (forall l :: 0 <= l < j ==> !ClockExpired(env, p, l))
  }

  /**
   * A walk from cursor `p0` stopped on the deadline at the check before record
   * `j` at cursor `p` inside the block: that check is the first one to find
   * the deadline passed, and the walk issued exactly the prescribed reports
   * of the cursors before `p` and of the records before `j` at `p`.
   */
  ghost predicate TimedOutAt(a: Automaton, depth: map<nat, nat>, env: WalkEnv, p0: nat, t: Trace, p: nat, j: nat)
    requires WellFormed(a, depth)
  {
    && p0 <= p < |env.blk.data|
    && j < |RecordsAt(a, depth, env.blk.data, p)|
    && ClockExpired(env, p, j)
    && NoCheckFired(a, depth, env, p0, p, j)
    && t.log == Between(a, depth, env.blk.data, p0, p) + Eligible(RecordsAt(a, depth, env.blk.data, p)[..j], p)
  }

  /** The walk from cursor `p0` stopped with ERROR_SCAN_TIMEOUT at the first deadline check that fired. */
  ghost predicate TimedOut(a: Automaton, depth: map<nat, nat>, env: WalkEnv, p0: nat, t: Trace)
    requires WellFormed(a, depth)
  {
    && t.err == ScanTimeout
    && AllVerified(env, t.log)
    && exists p: nat, j: nat :: TimedOutAt(a, depth, env, p0, t, p, j)
  }

  /** The walk stopped on the error of its last verifier call; all earlier calls succeeded. */
  ghost predicate FailedLast(env: WalkEnv, t: Trace)
  {
    && t.err != Success
    && t.log != []
    && AllVerified(env, t.log[..|t.log| - 1])
    && env.verify(t.log[|t.log| - 1].m, t.log[|t.log| - 1].offset) == t.err
  }

  /**
   * The three ways a walk from cursor `p0` can end: successfully, with every
   * call verified and no deadline check fired; on the first deadline check
   * that fired; or on the error of its last verifier call.
   */
  ghost predicate Ends(a: Automaton, depth: map<nat, nat>, env: WalkEnv, p0: nat, t: Trace)
    requires WellFormed(a, depth) && p0 <= |env.blk.data|
  {
    || (t.err == Success && AllVerified(env, t.log) && NoCheckFired(a, depth, env, p0, |env.blk.data|, 0))
    || TimedOut(a, depth, env, p0, t)
    || FailedLast(env, t)
  }

  // ---------------------------------------------------------------------------
  // What a walk reports
  // ---------------------------------------------------------------------------

  lemma PrefixExtend(x: seq<Report>, y: seq<Report>, e: seq<Report>, z: seq<Report>)
    requires x <= y
    ensures e + x <= e + y + z
  {
    assert (e + y + z)[..|e + x|] == e + x;
  }

  /** Every eligible report is about one of the records and sits at cursor `i`. */
  lemma {:induction false} EligibleAt(ms: seq<AcMatch>, i: nat)
    ensures forall k :: 0 <= k < |Eligible(ms, i)| ==> Eligible(ms, i)[k].m in ms && Cursor(Eligible(ms, i)[k]) == i
    decreases |ms|
  {
    if ms != [] {
      EligibleAt(ms[1..], i);
    }
  }

  /**
   * Emitting one state's records issues a prefix of its eligible reports, in
   * list order, and all of them when it ends without error.
   */
  lemma {:induction false} EmitFollowsEligible(env: WalkEnv, ms: seq<AcMatch>, i: nat, j: nat, clocked: bool)
    requires j <= |ms|
    ensures Emit(env, ms, i, j, clocked).log <= Eligible(ms[j..], i)
    ensures Emit(env, ms, i, j, clocked).err == Success ==> Emit(env, ms, i, j, clocked).log == Eligible(ms[j..], i)
    decreases |ms| - j
  {
    if j < |ms| {
      EmitFollowsEligible(env, ms, i, j + 1, clocked);
      assert ms[j..][0] == ms[j] && ms[j..][1..] == ms[j + 1..];
      if !(clocked && ClockExpired(env, i, j)) && ms[j].backtrack <= i {
        var r := Report(ms[j], i - ms[j].backtrack);
        PrefixExtend(Emit(env, ms, i, j + 1, clocked).log, Eligible(ms[j + 1..], i), [r], []);
      }
    }
  }

  /** Every prescribed report from cursor `p` on has its cursor in `p..|data|`. */
  lemma {:induction false} ExpectedCursors(a: Automaton, depth: map<nat, nat>, data: seq<byte>, p: nat)
    requires WellFormed(a, depth) && p <= |data|
    ensures forall k :: 0 <= k < |Expected(a, depth, data, p)| ==> p <= Cursor(Expected(a, depth, data, p)[k]) <= |data|
    decreases |data| - p
  {
    var el := Eligible(a.matches[StateAfter(a, depth, data[..p])], p);
    EligibleAt(a.matches[StateAfter(a, depth, data[..p])], p);
    if p < |data| {
      var rest := Expected(a, depth, data, p + 1);
      ExpectedCursors(a, depth, data, p + 1);
      assert Expected(a, depth, data, p) == el + rest;
    }
  }

  /** The prescribed reports come in cursor order (ties keep match-list order). */
  lemma {:induction false} ExpectedOrdered(a: Automaton, depth: map<nat, nat>, data: seq<byte>, p: nat)
    requires WellFormed(a, depth) && p <= |data|
    ensures forall k, k' :: 0 <= k < k' < |Expected(a, depth, data, p)| ==>
              Cursor(Expected(a, depth, data, p)[k]) <= Cursor(Expected(a, depth, data, p)[k'])
    decreases |data| - p
  {
    var el := Eligible(a.matches[StateAfter(a, depth, data[..p])], p);
    EligibleAt(a.matches[StateAfter(a, depth, data[..p])], p);
    if p < |data| {
      var rest := Expected(a, depth, data, p + 1);
      ExpectedOrdered(a, depth, data, p + 1);
      ExpectedCursors(a, depth, data, p + 1);
      assert Expected(a, depth, data, p) == el + rest;
      OrderedAfterOneCursor(el, rest, p);
    } else {
      assert Expected(a, depth, data, p) == el;
    }
  }

  /** Reports all at cursor `p` followed by ordered reports at cursors from `p` on are ordered. */
  lemma OrderedAfterOneCursor(x: seq<Report>, y: seq<Report>, p: nat)
    requires forall k :: 0 <= k < |x| ==> Cursor(x[k]) == p
    requires forall k :: 0 <= k < |y| ==> p <= Cursor(y[k])
    requires forall k, k' :: 0 <= k < k' < |y| ==> Cursor(y[k]) <= Cursor(y[k'])
    ensures forall k, k' :: 0 <= k < k' < |x + y| ==> Cursor((x + y)[k]) <= Cursor((x + y)[k'])
  {
    forall k, k' | 0 <= k < k' < |x + y|
      ensures Cursor((x + y)[k]) <= Cursor((x + y)[k'])
    {
      if k' < |x| {
        assert (x + y)[k] == x[k] && (x + y)[k'] == x[k'];
      } else if k < |x| {
        assert (x + y)[k] == x[k] && (x + y)[k'] == y[k' - |x|];
      } else {
        assert (x + y)[k] == y[k - |x|] && (x + y)[k'] == y[k' - |x|];
      }
    }
  }

  /**
   * Whatever the verifier and the clock answer, the walk from cursor `p` in
   * the state reached after `p` bytes issues a prefix of the prescribed
   * reports, and exactly the prescribed reports when it succeeds: each byte
   * is consumed once, in order, the state's records are emitted before each
   * byte, and the final state is flushed at cursor `|data|`.
   */
  lemma {:induction false} WalkFollowsExpected(a: Automaton, depth: map<nat, nat>, env: WalkEnv, p: nat)
    requires WellFormed(a, depth) && p <= |env.blk.data|
    ensures Walk(a, depth, env, p, StateAfter(a, depth, env.blk.data[..p])).log <= Expected(a, depth, env.blk.data, p)
    ensures var t := Walk(a, depth, env, p, StateAfter(a, depth, env.blk.data[..p]));
            t.err == Success ==> t.log == Expected(a, depth, env.blk.data, p)
    decreases |env.blk.data| - p
  {
    var data := env.blk.data;
    var s := StateAfter(a, depth, data[..p]);
    var el := Eligible(a.matches[s], p);
    if p < |data| {
      var pre := Emit(env, a.matches[s], p, 0, true);
      EmitFollowsEligible(env, a.matches[s], p, 0, true);
      assert a.matches[s][0..] == a.matches[s];
      var rest := Expected(a, depth, data, p + 1);
      assert Expected(a, depth, data, p) == el + rest;
      if pre.err != Success {
        PrefixExtend(pre.log, el, [], rest);
      } else {
        StateAfterNext(a, depth, data, p);
        WalkFollowsExpected(a, depth, env, p + 1);
        var t := Walk(a, depth, env, p + 1, StateAfter(a, depth, data[..p + 1]));
        assert Walk(a, depth, env, p, s) == Then(el, t);
        PrefixExtend(t.log, rest, el, []);
      }
    } else {
      EmitFollowsEligible(env, a.matches[s], p, 0, false);
      assert a.matches[s][0..] == a.matches[s];
    }
  }

  /** Consuming byte `p` takes the state after `p` bytes to the state after `p + 1` bytes. */
  lemma StateAfterNext(a: Automaton, depth: map<nat, nat>, data: seq<byte>, p: nat)
    requires WellFormed(a, depth) && p < |data|
    ensures StateAfter(a, depth, data[..p + 1]) == Step(a, depth, StateAfter(a, depth, data[..p]), data[p] as nat + 1)
  {
    assert data[..p + 1][..p] == data[..p];
  }

  /**
   * The emission from record `j` on stopped on the deadline at the check
   * before record `l`: the first check from `j` on that fired, after the
   * eligible records before `l` were reported.
   */
  ghost predicate EmitStoppedAt(env: WalkEnv, ms: seq<AcMatch>, i: nat, j: nat, l: nat, log: seq<Report>)
  {
    && j <= l < |ms|
    && ClockExpired(env, i, l)
    && (forall l' :: j <= l' < l ==> !ClockExpired(env, i, l'))
    && log == Eligible(ms[j..l], i)
  }

  /**
   * How one state's emission ends: successfully with every call verified
   * and, in the clocked loop, no deadline check fired; on the first deadline
   * check that fired (only in the clocked loop); or on the error of its last
   * call.
   */
  lemma {:induction false} EmitEnds(env: WalkEnv, ms: seq<AcMatch>, i: nat, j: nat, clocked: bool)
    requires j <= |ms|
    ensures var t := Emit(env, ms, i, j, clocked);
            || (t.err == Success && AllVerified(env, t.log)
                && (clocked ==> forall l :: j <= l < |ms| ==> !ClockExpired(env, i, l)))
            || (t.err == ScanTimeout && AllVerified(env, t.log) && clocked
                && exists l: nat :: EmitStoppedAt(env, ms, i, j, l, t.log))
            || FailedLast(env, t)
    decreases |ms| - j
  {
    var t := Emit(env, ms, i, j, clocked);
    if j == |ms| {
    } else if clocked && ClockExpired(env, i, j) {
      assert ms[j..j] == [];
      assert EmitStoppedAt(env, ms, i, j, j, t.log);
    } else {
      EmitEnds(env, ms, i, j + 1, clocked);
      var rest := Emit(env, ms, i, j + 1, clocked);
      var eligible := ms[j].backtrack <= i;
      var pre := if eligible then [Report(ms[j], i - ms[j].backtrack)] else [];
      if eligible && env.verify(ms[j], i - ms[j].backtrack) != Success {
        assert FailedLast(env, t);
      } else {
        assert t == Then(pre, rest);
        assert AllVerified(env, pre);
        var j1 := j + 1;
        if rest.err == ScanTimeout && clocked && exists l: nat :: EmitStoppedAt(env, ms, i, j1, l, rest.log) {
          var l: nat :| EmitStoppedAt(env, ms, i, j1, l, rest.log);
          assert ms[j..l][0] == ms[j] && ms[j..l][1..] == ms[j + 1..l];
          assert Eligible(ms[j..l], i) == pre + Eligible(ms[j + 1..l], i);
          assert EmitStoppedAt(env, ms, i, j, l, t.log);
        }
        if rest.log != [] {
          assert t.log[..|t.log| - 1] == pre + rest.log[..|rest.log| - 1];
        }
      }
    }
  }

  /**
   * How a block walk from cursor `p0` ends: successfully with every call
   * verified and no deadline check fired; with ERROR_SCAN_TIMEOUT at the
   * first deadline check that fired (only with a positive timeout, at a
   * cursor inside the block that is a multiple of 4096), having issued
   * exactly the prescribed reports before it; or on the error of its last
   * verifier call, all earlier calls verified.
   */
  lemma {:induction false} WalkEnds(a: Automaton, depth: map<nat, nat>, env: WalkEnv, p0: nat)
    requires WellFormed(a, depth) && p0 <= |env.blk.data|
    ensures Ends(a, depth, env, p0, Walk(a, depth, env, p0, StateAfter(a, depth, env.blk.data[..p0])))
    decreases |env.blk.data| - p0
  {
    var data := env.blk.data;
    var s := StateAfter(a, depth, data[..p0]);
    if p0 < |data| {
      if Emit(env, RecordsAt(a, depth, data, p0), p0, 0, true).err != Success {
        EmitStopsWalk(a, depth, env, p0);
      } else {
        WalkEnds(a, depth, env, p0 + 1);
        EmitPassesWalk(a, depth, env, p0);
      }
    } else {
      EmitEnds(env, a.matches[s], p0, 0, false);
    }
  }

  /**
   * A walk whose emission at cursor `p0` succeeds ends the way the walk from
   * `p0 + 1` does, with the reports of `p0` in front.
   */
  lemma EmitPassesWalk(a: Automaton, depth: map<nat, nat>, env: WalkEnv, p0: nat)
    requires WellFormed(a, depth) && p0 < |env.blk.data|
    requires Emit(env, RecordsAt(a, depth, env.blk.data, p0), p0, 0, true).err == Success
    requires Ends(a, depth, env, p0 + 1, Walk(a, depth, env, p0 + 1, StateAfter(a, depth, env.blk.data[..p0 + 1])))
    ensures Ends(a, depth, env, p0, Walk(a, depth, env, p0, StateAfter(a, depth, env.blk.data[..p0])))
  {
    var data := env.blk.data;
    var ms := RecordsAt(a, depth, data, p0);
    var pre := Emit(env, ms, p0, 0, true);
    EmitEnds(env, ms, p0, 0, true);
    EmitFollowsEligible(env, ms, p0, 0, true);
    assert ms[0..] == ms;
    StateAfterNext(a, depth, data, p0);
    var rest := Walk(a, depth, env, p0 + 1, StateAfter(a, depth, data[..p0 + 1]));
    assert Walk(a, depth, env, p0, StateAfter(a, depth, data[..p0])) == Then(pre.log, rest);
    ThenEnds(a, depth, env, p0, pre.log, rest);
  }

  /** A walk whose emission at cursor `p0` fails ends there in one of the ways of `Ends`. */
  lemma EmitStopsWalk(a: Automaton, depth: map<nat, nat>, env: WalkEnv, p0: nat)
    requires WellFormed(a, depth) && p0 < |env.blk.data|
    requires Emit(env, RecordsAt(a, depth, env.blk.data, p0), p0, 0, true).err != Success
    ensures Ends(a, depth, env, p0, Walk(a, depth, env, p0, StateAfter(a, depth, env.blk.data[..p0])))
  {
    var ms := RecordsAt(a, depth, env.blk.data, p0);
    var pre := Emit(env, ms, p0, 0, true);
    EmitEnds(env, ms, p0, 0, true);
    if !FailedLast(env, pre) {
      var l: nat :| EmitStoppedAt(env, ms, p0, 0, l, pre.log);
      assert ms[0..l] == ms[..l];
      assert Between(a, depth, env.blk.data, p0, p0) == [];
      assert TimedOutAt(a, depth, env, p0, pre, p0, l);
    }
  }

  /**
   * The reports of cursor `p0`, all verified and with no deadline check
   * fired, followed by a walk from `p0 + 1` that ends in one of the ways of
   * `Ends`, make a walk from `p0` that does too.
   */
  lemma ThenEnds(a: Automaton, depth: map<nat, nat>, env: WalkEnv, p0: nat, pre: seq<Report>, t: Trace)
    requires WellFormed(a, depth) && p0 < |env.blk.data|
    requires pre == Eligible(RecordsAt(a, depth, env.blk.data, p0), p0) && AllVerified(env, pre)
    requires forall l :: 0 <= l < |RecordsAt(a, depth, env.blk.data, p0)| ==> !ClockExpired(env, p0, l)
    requires Ends(a, depth, env, p0 + 1, t)
    ensures Ends(a, depth, env, p0, Then(pre, t))
  {
    if t.err == Success && AllVerified(env, t.log) && NoCheckFired(a, depth, env, p0 + 1, |env.blk.data|, 0) {
      ThenSucceeds(a, depth, env, p0, pre, t);
    } else if TimedOut(a, depth, env, p0 + 1, t) {
      ThenTimesOut(a, depth, env, p0, pre, t);
    } else {
      ThenFailsLast(env, pre, t);
    }
  }

  /** Verified reports in front of a successful walk leave it successful and verified. */
  lemma ThenSucceeds(a: Automaton, depth: map<nat, nat>, env: WalkEnv, p0: nat, pre: seq<Report>, t: Trace)
    requires WellFormed(a, depth) && p0 < |env.blk.data|
    requires AllVerified(env, pre)
    requires forall l :: 0 <= l < |RecordsAt(a, depth, env.blk.data, p0)| ==> !ClockExpired(env, p0, l)
    requires t.err == Success && AllVerified(env, t.log) && NoCheckFired(a, depth, env, p0 + 1, |env.blk.data|, 0)
    ensures var u := Then(pre, t);
            u.err == Success && AllVerified(env, u.log) && NoCheckFired(a, depth, env, p0, |env.blk.data|, 0)
  {
    AllVerifiedConcat(env, pre, t.log);
  }

  /** Verified reports of cursor `p0` in front of a walk that timed out move its start back to `p0`. */
  lemma ThenTimesOut(a: Automaton, depth: map<nat, nat>, env: WalkEnv, p0: nat, pre: seq<Report>, t: Trace)
    requires WellFormed(a, depth) && p0 < |env.blk.data|
    requires pre == Eligible(RecordsAt(a, depth, env.blk.data, p0), p0) && AllVerified(env, pre)
    requires forall l :: 0 <= l < |RecordsAt(a, depth, env.blk.data, p0)| ==> !ClockExpired(env, p0, l)
    requires TimedOut(a, depth, env, p0 + 1, t)
    ensures TimedOut(a, depth, env, p0, Then(pre, t))
  {
    var data := env.blk.data;
    var u := Then(pre, t);
    AllVerifiedConcat(env, pre, t.log);
    var p1 := p0 + 1;
    var p: nat, j: nat :| TimedOutAt(a, depth, env, p1, t, p, j);
    TimedOutAtBefore(a, depth, env, p0, pre, t, p, j);
  }

  /** The step of `ThenTimesOut` for the first deadline check that fired, at record `j` of cursor `p`. */
  lemma TimedOutAtBefore(a: Automaton, depth: map<nat, nat>, env: WalkEnv, p0: nat, pre: seq<Report>, t: Trace, p: nat, j: nat)
    requires WellFormed(a, depth) && p0 < |env.blk.data|
    requires pre == Eligible(RecordsAt(a, depth, env.blk.data, p0), p0)
    requires forall l :: 0 <= l < |RecordsAt(a, depth, env.blk.data, p0)| ==> !ClockExpired(env, p0, l)
    requires TimedOutAt(a, depth, env, p0 + 1, t, p, j)
    ensures TimedOutAt(a, depth, env, p0, Then(pre, t), p, j)
  {
    var data := env.blk.data;
    NoCheckFiredBefore(a, depth, env, p0, p, j);
    BetweenBefore(a, depth, data, p0, p);
    ShiftPrefix(pre, t.log, Between(a, depth, data, p0 + 1, p), Eligible(RecordsAt(a, depth, data, p)[..j], p), Between(a, depth, data, p0, p));
  }

  /** Moving a prefix from the front of a log onto the front of its first part. */
  lemma ShiftPrefix(pre: seq<Report>, log: seq<Report>, later: seq<Report>, el: seq<Report>, all: seq<Report>)
    requires log == later + el && all == pre + later
    ensures pre + log == all + el
  {
  }

  /** The reports of the cursors from `p0` to `p` are those of `p0` followed by those from `p0 + 1`. */
  lemma BetweenBefore(a: Automaton, depth: map<nat, nat>, data: seq<byte>, p0: nat, p: nat)
    requires WellFormed(a, depth) && p0 < p <= |data|
    ensures Between(a, depth, data, p0, p) == Eligible(RecordsAt(a, depth, data, p0), p0) + Between(a, depth, data, p0 + 1, p)
  {
  }

  /** No check fired from `p0` on when none fired at `p0` and none from `p0 + 1` on. */
  lemma NoCheckFiredBefore(a: Automaton, depth: map<nat, nat>, env: WalkEnv, p0: nat, p: nat, j: nat)
    requires WellFormed(a, depth) && p0 < p <= |env.blk.data|
    requires forall l :: 0 <= l < |RecordsAt(a, depth, env.blk.data, p0)| ==> !ClockExpired(env, p0, l)
    requires NoCheckFired(a, depth, env, p0 + 1, p, j)
    ensures NoCheckFired(a, depth, env, p0, p, j)
  {
  }

  /** Verified reports in front of a trace that failed on its last call leave it failed on its last call. */
  lemma ThenFailsLast(env: WalkEnv, pre: seq<Report>, t: Trace)
    requires AllVerified(env, pre) && FailedLast(env, t)
    ensures FailedLast(env, Then(pre, t))
  {
    var u := Then(pre, t);
    assert u.log[..|u.log| - 1] == pre + t.log[..|t.log| - 1];
    AllVerifiedConcat(env, pre, t.log[..|t.log| - 1]);
  }

  /** A concatenation of verified logs is verified. */
  lemma AllVerifiedConcat(env: WalkEnv, x: seq<Report>, y: seq<Report>)
    requires AllVerified(env, x) && AllVerified(env, y)
    ensures AllVerified(env, x + y)
  {
    forall k | 0 <= k < |x + y|
      ensures env.verify((x + y)[k].m, (x + y)[k].offset) == Success
    {
      if k >= |x| {
        assert (x + y)[k] == y[k - |x|];
      }
    }
  }

  /**
   * Every verifier call of a block walk has `backtrack <= cursor <= size`, so
   * the offset it is asked about lies in `[0, size]`, and the calls come in
   * cursor order.
   */
  lemma WalkReportsInBlock(a: Automaton, depth: map<nat, nat>, env: WalkEnv)
    requires WellFormed(a, depth)
    ensures var log := Walk(a, depth, env, 0, ROOT_STATE).log;
            && (forall k :: 0 <= k < |log| ==> log[k].offset + log[k].m.backtrack <= |env.blk.data|)
            && (forall k, k' :: 0 <= k < k' < |log| ==> Cursor(log[k]) <= Cursor(log[k']))
  {
    var data := env.blk.data;
    assert data[..0] == [];
    WalkFollowsExpected(a, depth, env, 0);
    ExpectedCursors(a, depth, data, 0);
    ExpectedOrdered(a, depth, data, 0);
    var log := Walk(a, depth, env, 0, ROOT_STATE).log;
    var e := Expected(a, depth, data, 0);
    assert forall k :: 0 <= k < |log| ==> log[k] == e[k];
  }

  /**
   * An empty block never consults the clock and only flushes the root: each
   * call is for a root record with backtrack 0, at offset 0.
   */
  lemma EmptyBlockFlushesRoot(a: Automaton, depth: map<nat, nat>, env: WalkEnv)
    requires WellFormed(a, depth) && env.blk.data == []
    ensures var t := Walk(a, depth, env, 0, ROOT_STATE);
            && (forall r :: r in t.log ==> r.m in a.matches[ROOT_STATE] && r.m.backtrack == 0 && r.offset == 0)
            && (t.err == Success || FailedLast(env, t))
  {
    EmitFollowsEligible(env, a.matches[ROOT_STATE], 0, 0, false);
    assert a.matches[ROOT_STATE][0..] == a.matches[ROOT_STATE];
    EligibleAt(a.matches[ROOT_STATE], 0);
    EmitEnds(env, a.matches[ROOT_STATE], 0, 0, false);
    var t := Walk(a, depth, env, 0, ROOT_STATE);
    var el := Eligible(a.matches[ROOT_STATE], 0);
    forall r | r in t.log
      ensures r.m in a.matches[ROOT_STATE] && r.m.backtrack == 0 && r.offset == 0
    {
      var k :| 0 <= k < |t.log| && t.log[k] == r;
      assert el[k] == r;
    }
  }

  /** The records of every state name strings below `n`. */
  ghost predicate StringsBelow(a: Automaton, depth: map<nat, nat>, n: nat)
  {
    forall s, m :: s in depth && s < |a.matches| && m in a.matches[s] ==> m.str < n
  }

  /** Every prescribed report is about a string below `n`. */
  lemma {:induction false} ExpectedStrings(a: Automaton, depth: map<nat, nat>, data: seq<byte>, p: nat, n: nat)
    requires WellFormed(a, depth) && StringsBelow(a, depth, n) && p <= |data|
    ensures forall k :: 0 <= k < |Expected(a, depth, data, p)| ==> Expected(a, depth, data, p)[k].m.str < n
    decreases |data| - p
  {
    var el := Eligible(a.matches[StateAfter(a, depth, data[..p])], p);
    EligibleAt(a.matches[StateAfter(a, depth, data[..p])], p);
    if p < |data| {
      var rest := Expected(a, depth, data, p + 1);
      ExpectedStrings(a, depth, data, p + 1, n);
      assert Expected(a, depth, data, p) == el + rest;
    }
  }

  /** Every verifier call of a block walk is about a string below `n` when every record is. */
  lemma WalkStringsBelow(a: Automaton, depth: map<nat, nat>, env: WalkEnv, n: nat)
    requires WellFormed(a, depth) && StringsBelow(a, depth, n)
    ensures var log := Walk(a, depth, env, 0, ROOT_STATE).log;
            forall k :: 0 <= k < |log| ==> log[k].m.str < n
  {
    var data := env.blk.data;
    assert data[..0] == [];
    WalkFollowsExpected(a, depth, env, 0);
    ExpectedStrings(a, depth, data, 0, n);
    var log := Walk(a, depth, env, 0, ROOT_STATE).log;
    var e := Expected(a, depth, data, 0);
    assert forall k :: 0 <= k < |log| ==> log[k] == e[k];
  }

  // ---------------------------------------------------------------------------
  // The walker itself
  // ---------------------------------------------------------------------------

  /**
   * The loop over the match list of one state at cursor `i`; `clocked`
   * selects the pre-consumption loop, which checks the deadline.
   */
  method EmitMatches(env: WalkEnv, ms: seq<AcMatch>, i: nat, clocked: bool) returns (err: ErrorCode, log: seq<Report>)
    ensures Trace(log, err) == Emit(env, ms, i, 0, clocked)
  {
    var j := 0;
    log := [];
    while j < |ms|
      invariant j <= |ms|
      invariant Emit(env, ms, i, 0, clocked) == Then(log, Emit(env, ms, i, j, clocked))
    {
      if clocked && env.timeout > 0 && i % 4096 == 0 {
        if env.expired(i, j) {
          return ScanTimeout, log;
        }
      }
      var m := ms[j];
      if m.backtrack <= i {
        var e := env.verify(m, i - m.backtrack);
        log := log + [Report(m, i - m.backtrack)];
        if e != Success {
          return e, log;
        }
      }
      j := j + 1;
    }
    return Success, log;
  }

  /**
   * The state advance of the walker on input `index` (byte plus one): while
   * the transition is invalid, follow the failure link of a non-root state,
   * or at the root fall back to transition 0; the new state is the
   * transition's upper 32 bits.
   */
  method Advance(a: Automaton, ghost depth: map<nat, nat>, state: nat, index: nat) returns (next: nat)
    requires WellFormed(a, depth) && state in depth && 1 <= index <= 256
    ensures next == Step(a, depth, state, index)
  {
    var s := state;
    var transition := a.table[s + index];
    while InvalidTransition(transition, index)
      invariant s in depth
      invariant transition == Entry(a, s, index)
      invariant Step(a, depth, state, index) == Step(a, depth, s, index)
      decreases depth[s]
    {
      if s != ROOT_STATE {
        s := FailureLink(a, s);
        transition := a.table[s + index];
      } else {
        transition := 0;
        break;
      }
    }
    next := NextState(transition);
  }

  /**
   * `_yr_rules_scan_mem_block`: walk one block byte by byte, verifying the
   * match records of every visited state.
   */
  method ScanMemBlock(a: Automaton, ghost depth: map<nat, nat>, env: WalkEnv) returns (err: ErrorCode, log: seq<Report>)
    requires WellFormed(a, depth)
    ensures Trace(log, err) == Walk(a, depth, env, 0, ROOT_STATE)
    ensures FollowsAutomaton(a, depth, env, Trace(log, err))
  {
    var data := env.blk.data;
    var i: nat := 0;
    var state: nat := ROOT_STATE;
    err, log := Success, [];
    while i < |data|
      invariant i <= |data| && state in depth && err == Success
      invariant Walk(a, depth, env, 0, ROOT_STATE) == Then(log, Walk(a, depth, env, i, state))
      decreases |data| - i
    {
      var e, reports := EmitMatches(env, a.matches[state], i, true);
      WalkUnfold(a, depth, env, i, state);
      if e != Success {
        assert Walk(a, depth, env, i, state) == Trace(reports, e);
        err, log := e, log + reports;
        assert Walk(a, depth, env, 0, ROOT_STATE) == Trace(log, err);
        break;
      }
      var index := data[i] as nat + 1;
      var next := Advance(a, depth, state, index);
      WalkLoopStep(a, depth, env, i, state, log, reports);
      log := log + reports;
      i, state := i + 1, next;
    }
    if err == Success {
      var reports;
      assert Walk(a, depth, env, i, state) == Emit(env, a.matches[state], i, 0, false);
      err, reports := EmitMatches(env, a.matches[state], i, false);
      log := log + reports;
    }
    assert Trace(log, err) == Walk(a, depth, env, 0, ROOT_STATE);
    WalkFromRoot(a, depth, env);
  }

  /** One step of the walk: emit the current state's records, then either stop or consume a byte. */
  lemma WalkUnfold(a: Automaton, depth: map<nat, nat>, env: WalkEnv, i: nat, s: nat)
    requires WellFormed(a, depth) && s in depth && i < |env.blk.data|
    ensures var pre := Emit(env, a.matches[s], i, 0, true);
            Walk(a, depth, env, i, s)
              == if pre.err != Success then pre
                 else Then(pre.log, Walk(a, depth, env, i + 1, Step(a, depth, s, env.blk.data[i] as nat + 1)))
  {
  }

  /** The loop invariant of the walker survives emitting without error and consuming byte `i`. */
  lemma WalkLoopStep(a: Automaton, depth: map<nat, nat>, env: WalkEnv, i: nat, s: nat, log: seq<Report>, reports: seq<Report>)
    requires WellFormed(a, depth) && s in depth && i < |env.blk.data|
    requires Walk(a, depth, env, 0, ROOT_STATE) == Then(log, Walk(a, depth, env, i, s))
    requires Trace(reports, Success) == Emit(env, a.matches[s], i, 0, true)
    ensures Walk(a, depth, env, 0, ROOT_STATE)
              == Then(log + reports, Walk(a, depth, env, i + 1, Step(a, depth, s, env.blk.data[i] as nat + 1)))
  {
    var rest := Walk(a, depth, env, i + 1, Step(a, depth, s, env.blk.data[i] as nat + 1));
    WalkUnfold(a, depth, env, i, s);
    assert Walk(a, depth, env, i, s) == Then(reports, rest);
    ThenThen(log, reports, rest);
  }

  lemma ThenThen(x: seq<Report>, y: seq<Report>, t: Trace)
    ensures Then(x, Then(y, t)) == Then(x + y, t)
  {
    assert x + (y + t.log) == (x + y) + t.log;
  }

  /**
   * A whole-block trace issues a prefix of the prescribed reports (all of
   * them when it succeeds) and ends in one of the three ways of `Ends`.
   */
  ghost predicate FollowsAutomaton(a: Automaton, depth: map<nat, nat>, env: WalkEnv, t: Trace)
    requires WellFormed(a, depth)
  {
    && t.log <= Expected(a, depth, env.blk.data, 0)
    && (t.err == Success ==> t.log == Expected(a, depth, env.blk.data, 0))
    && Ends(a, depth, env, 0, t)
  }

  /** The walk from the root follows the automaton. */
  lemma WalkFromRoot(a: Automaton, depth: map<nat, nat>, env: WalkEnv)
    requires WellFormed(a, depth)
    ensures FollowsAutomaton(a, depth, env, Walk(a, depth, env, 0, ROOT_STATE))
  {
    assert env.blk.data[..0] == [];
    WalkFollowsExpected(a, depth, env, 0);
    WalkEnds(a, depth, env, 0);
  }
}
