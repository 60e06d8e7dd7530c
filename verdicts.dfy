/**
 * The verdict loop of a scan: after the condition code has run, every rule
 * gets a matching or not-matching message built from its per-slot flags,
 * public rules are reported to the callback in rule order, and the
 * callback's answer may end the loop early.
 */
module Verdicts {
  import opened Types

  /** A compiled rule as the verdict loop sees it: its namespace and whether it is private. */
  datatype Rule = Rule(ns: nat, isPrivate: bool)

  /**
   * The message of one rule: RuleMatching when the rule's slot flags carry
   * RULE_TFLAGS_MATCH and its namespace's slot flags do not carry
   * NAMESPACE_TFLAGS_UNSATISFIED_GLOBAL, RuleNotMatching otherwise.
   */
  function VerdictMessage(ruleFlags: bv32, nsFlags: bv32): Message
  {
    if HasFlag(ruleFlags, RULE_TFLAGS_MATCH) && !HasFlag(nsFlags, NAMESPACE_TFLAGS_UNSATISFIED_GLOBAL)
    then RuleMatching
    else RuleNotMatching
  }

  /** How the verdict loop ended: after the last rule, on CALLBACK_ABORT or on CALLBACK_ERROR. */
  datatype Stop = Finished | Aborted | Failed

  /** The callbacks the loop made, in order, and how it ended. */
  datatype Outcome = Outcome(calls: seq<Call>, stop: Stop)

  type Callback = (Message, Option<nat>) -> CallbackResult

  /** The callback's answer to one call. */
  function Answer(cb: Callback, c: Call): CallbackResult
  {
    cb(c.msg, c.rule)
  }

  /**
   * The verdict loop from rule `k` on: private rules are skipped, every
   * public rule is reported with its message, CALLBACK_ABORT and
   * CALLBACK_ERROR stop the loop, and any other answer goes on.
   */
  function DispatchFrom(rules: seq<Rule>, msgs: seq<Message>, cb: Callback, k: nat): Outcome
    requires |msgs| == |rules| && k <= |rules|
    decreases |rules| - k
  {
    if k == |rules| then Outcome([], Finished)
    else if rules[k].isPrivate then DispatchFrom(rules, msgs, cb, k + 1)
    else
      var c := Call(msgs[k], Some(k));
      match cb(msgs[k], Some(k))
      case Abort => Outcome([c], Aborted)
      case Error => Outcome([c], Failed)
      case Continue =>
        var rest := DispatchFrom(rules, msgs, cb, k + 1);
        Outcome([c] + rest.calls, rest.stop)
  }

  /** Every call the loop could make from rule `k` on: one per public rule, in rule order. */
  function PublicCalls(rules: seq<Rule>, msgs: seq<Message>, k: nat): seq<Call>
    requires |msgs| == |rules| && k <= |rules|
    decreases |rules| - k
  {
    if k == |rules| then []
    else if rules[k].isPrivate then PublicCalls(rules, msgs, k + 1)
    else [Call(msgs[k], Some(k))] + PublicCalls(rules, msgs, k + 1)
  }

  /**
   * `PublicCalls` reports exactly the public rules at or after `k`, each
   * once, with its own message, in increasing rule order.
   */
  lemma {:induction false} PublicCallsAreThePublicRules(rules: seq<Rule>, msgs: seq<Message>, k: nat)
    requires |msgs| == |rules| && k <= |rules|
    ensures forall i :: 0 <= i < |PublicCalls(rules, msgs, k)| ==>
      var c := PublicCalls(rules, msgs, k)[i];
      c.rule.Some? && k <= c.rule.value < |rules| && !rules[c.rule.value].isPrivate && c.msg == msgs[c.rule.value]
    ensures forall i, j :: 0 <= i < j < |PublicCalls(rules, msgs, k)| ==>
      PublicCalls(rules, msgs, k)[i].rule.value < PublicCalls(rules, msgs, k)[j].rule.value
    ensures forall r :: k <= r < |rules| && !rules[r].isPrivate ==> Call(msgs[r], Some(r)) in PublicCalls(rules, msgs, k)
    decreases |rules| - k
  {
    if k < |rules| {
      PublicCallsAreThePublicRules(rules, msgs, k + 1);
    }
  }

  /**
   * The loop reports a prefix of the public rules; it ends early only when
   * the last call was answered with CALLBACK_ABORT or CALLBACK_ERROR, every
   * earlier call having been answered with CALLBACK_CONTINUE, and when it
   * runs to the end it has reported every public rule.
   */
  lemma {:induction false} DispatchFollowsPublicCalls(rules: seq<Rule>, msgs: seq<Message>, cb: Callback, k: nat)
    requires |msgs| == |rules| && k <= |rules|
    ensures DispatchFrom(rules, msgs, cb, k).calls <= PublicCalls(rules, msgs, k)
    ensures DispatchFrom(rules, msgs, cb, k).stop == Finished ==>
      DispatchFrom(rules, msgs, cb, k).calls == PublicCalls(rules, msgs, k)
    ensures forall i :: 0 <= i < |DispatchFrom(rules, msgs, cb, k).calls| - 1 ==>
      Answer(cb, DispatchFrom(rules, msgs, cb, k).calls[i]) == Continue
    ensures DispatchFrom(rules, msgs, cb, k).stop == Finished ==>
      forall c :: c in DispatchFrom(rules, msgs, cb, k).calls ==> Answer(cb, c) == Continue
    ensures DispatchFrom(rules, msgs, cb, k).stop == Aborted ==>
      |DispatchFrom(rules, msgs, cb, k).calls| > 0 && Answer(cb, Last(DispatchFrom(rules, msgs, cb, k).calls)) == Abort
    ensures DispatchFrom(rules, msgs, cb, k).stop == Failed ==>
      |DispatchFrom(rules, msgs, cb, k).calls| > 0 && Answer(cb, Last(DispatchFrom(rules, msgs, cb, k).calls)) == Error
    decreases |rules| - k
  {
    if k < |rules| {
      DispatchFollowsPublicCalls(rules, msgs, cb, k + 1);
    }
  }

  /** The calls of `o`, preceded by `calls` already made. */
  function Prepend(calls: seq<Call>, o: Outcome): Outcome
  {
    Outcome(calls + o.calls, o.stop)
  }

  /** One step of the verdict loop, seen from the calls already made. */
  lemma DispatchStep(rules: seq<Rule>, msgs: seq<Message>, cb: Callback, r: nat, calls: seq<Call>)
    requires |msgs| == |rules| && r < |rules|
    ensures var c := Call(msgs[r], Some(r));
            var here := Prepend(calls, DispatchFrom(rules, msgs, cb, r));
            && (rules[r].isPrivate ==> here == Prepend(calls, DispatchFrom(rules, msgs, cb, r + 1)))
            && (!rules[r].isPrivate && Answer(cb, c) == Continue ==> here == Prepend(calls + [c], DispatchFrom(rules, msgs, cb, r + 1)))
            && (!rules[r].isPrivate && Answer(cb, c) == Abort ==> here == Outcome(calls + [c], Aborted))
            && (!rules[r].isPrivate && Answer(cb, c) == Error ==> here == Outcome(calls + [c], Failed))
  {
    var c := Call(msgs[r], Some(r));
    var rest := DispatchFrom(rules, msgs, cb, r + 1);
    assert calls + ([c] + rest.calls) == (calls + [c]) + rest.calls;
  }

  function Last(calls: seq<Call>): Call
    requires |calls| > 0
  {
    calls[|calls| - 1]
  }

  /**
   * Everything the verdict phase of a scan sends: the loop's calls, then
   * SCAN_FINISHED when the loop ran to the end.
   */
  function Reported(d: Outcome): seq<Call>
  {
    d.calls + (if d.stop == Finished then [Call(ScanFinished, None)] else [])
  }

  /** The scan result the verdict phase leaves: CALLBACK_ERROR fails the scan, CALLBACK_ABORT does not. */
  function PhaseResult(d: Outcome): ErrorCode
  {
    if d.stop == Failed then CallbackError else Success
  }

  /**
   * SCAN_FINISHED is sent exactly when the loop ran to the end, and then as
   * the very last call; the phase fails exactly when the callback answered
   * CALLBACK_ERROR, and an abort or an error sends nothing more.
   */
  lemma ScanFinishedOnlyAtTheEnd(rules: seq<Rule>, msgs: seq<Message>, cb: Callback)
    requires |msgs| == |rules| && forall r :: 0 <= r < |msgs| ==> msgs[r] != ScanFinished
    ensures var d := DispatchFrom(rules, msgs, cb, 0);
            && (Call(ScanFinished, None) in Reported(d) <==> d.stop == Finished)
            && (d.stop == Finished ==> Last(Reported(d)) == Call(ScanFinished, None))
            && (d.stop != Finished ==> Reported(d) == d.calls && |d.calls| > 0)
            && (PhaseResult(d) == CallbackError <==> d.stop == Failed)
            && (d.stop == Failed ==> Answer(cb, Last(Reported(d))) == Error)
            && (d.stop == Aborted ==> Answer(cb, Last(Reported(d))) == Abort)
  {
    var d := DispatchFrom(rules, msgs, cb, 0);
    DispatchFollowsPublicCalls(rules, msgs, cb, 0);
    PublicCallsAreThePublicRules(rules, msgs, 0);
    var pc := PublicCalls(rules, msgs, 0);
    assert forall i :: 0 <= i < |d.calls| ==> d.calls[i] == pc[i];
    assert Call(ScanFinished, None) !in d.calls;
  }
}
