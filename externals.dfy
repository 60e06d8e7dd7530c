/**
 * External variables of a compiled rule set: a contiguous list of records
 * ended by a record of type NULL, searched by identifier when the host
 * defines a value for one of them.
 */
module Externals {
  import opened Types

  /** The `EXTERNAL_VARIABLE_TYPE_*` kinds; `Null` marks the end of the list. */
  datatype Kind = Null | Float | Integer | Boolean | FixedString | MallocString

  /**
   * The value union of an external. A float is kept as its 64-bit pattern
   * and never interpreted; a string is a pointer that may be NULL.
   */
  datatype Payload = IntValue(i: int) | FloatValue(f: bv64) | StrValue(s: Option<string>)

  datatype External = External(kind: Kind, identifier: string, value: Payload)

  /** `value.s == NULL`, reading the union through its pointer member. */
  predicate PointerIsNull(v: Payload)
  {
    match v
    case IntValue(i) => i == 0
    case FloatValue(f) => f == 0
    case StrValue(s) => s.None?
  }

  /** The list holds an end marker at or after `k`. */
  predicate TerminatedFrom(s: seq<External>, k: nat)
  {
    exists j :: k <= j < |s| && s[j].kind == Null
  }

  predicate Terminated(s: seq<External>)
  {
    TerminatedFrom(s, 0)
  }

  /** The position of the first end marker at or after `k`. */
  function EndFrom(s: seq<External>, k: nat): (n: nat)
    requires TerminatedFrom(s, k)
    ensures k <= n < |s| && s[n].kind == Null
    ensures forall j :: k <= j < n ==> s[j].kind != Null
    decreases |s| - k
  {
    if s[k].kind == Null then k else EndFrom(s, k + 1)
  }

  /** The number of live externals: those before the first end marker. */
  function End(s: seq<External>): (n: nat)
    requires Terminated(s)
    ensures n < |s| && s[n].kind == Null
    ensures forall j :: 0 <= j < n ==> s[j].kind != Null
  {
    EndFrom(s, 0)
  }

  /**
   * The search of the define operations, from position `k`: the first live
   * external at or after `k` whose identifier is `id`, or None when the end
   * marker comes first.
   */
  function LookupFrom(s: seq<External>, id: string, k: nat): (r: Option<nat>)
    requires TerminatedFrom(s, k)
    ensures r.Some? ==> k <= r.value < EndFrom(s, k) && s[r.value].identifier == id
    ensures r.Some? ==> forall j :: k <= j < r.value ==> s[j].identifier != id
    ensures r.None? ==> forall j :: k <= j < EndFrom(s, k) ==> s[j].identifier != id
    decreases |s| - k
  {
    if s[k].kind == Null then None
    else if s[k].identifier == id then Some(k)
    else LookupFrom(s, id, k + 1)
  }

  /** The external a define operation for `id` updates, if any. */
  function Lookup(s: seq<External>, id: string): (r: Option<nat>)
    requires Terminated(s)
    ensures r.Some? ==> r.value < End(s) && s[r.value].identifier == id
    ensures r.Some? ==> forall j :: 0 <= j < r.value ==> s[j].identifier != id
    ensures r.None? ==> forall j :: 0 <= j < End(s) ==> s[j].identifier != id
  {
    LookupFrom(s, id, 0)
  }

  /** Two lists with end markers and identifiers in the same places from `k` on. */
  predicate SameShapeFrom(s: seq<External>, t: seq<External>, k: nat)
  {
    && |s| == |t|
    && forall j :: k <= j < |s| ==> (s[j].kind == Null) == (t[j].kind == Null) && s[j].identifier == t[j].identifier
  }

  /**
   * Rewriting the value (and possibly the live kind) of a live external
   * keeps the list terminated at the same place and leaves every lookup
   * resolving to the same external, so a variable defined once is found
   * again by the next define of the same identifier.
   */
  lemma UpdateKeepsLookup(s: seq<External>, n: nat, e: External, id: string)
    requires Terminated(s) && n < End(s)
    requires e.identifier == s[n].identifier && e.kind != Null
    ensures Terminated(s[n := e])
    ensures End(s[n := e]) == End(s)
    ensures Lookup(s[n := e], id) == Lookup(s, id)
  {
    SameShapeLookup(s, s[n := e], id, 0);
  }

  /** Lists of the same shape end at the same place and resolve every identifier alike. */
  lemma {:induction false} SameShapeLookup(s: seq<External>, t: seq<External>, id: string, k: nat)
    requires TerminatedFrom(s, k) && SameShapeFrom(s, t, k)
    ensures TerminatedFrom(t, k)
    ensures EndFrom(t, k) == EndFrom(s, k)
    ensures LookupFrom(t, id, k) == LookupFrom(s, id, k)
    decreases |s| - k
  {
    assert t[EndFrom(s, k)].kind == Null;
    if s[k].kind != Null {
      SameShapeLookup(s, t, id, k + 1);
    }
  }

  /**
   * Binding the live externals from position `k` into a scan's objects
   * table, in list order: the result of the first binding that fails, or
   * success when all of them bind.
   */
  function BindFrom(s: seq<External>, bind: External -> ErrorCode, k: nat): ErrorCode
    requires TerminatedFrom(s, k)
    decreases |s| - k
  {
    if s[k].kind == Null then Success
    else if bind(s[k]) != Success then bind(s[k])
    else BindFrom(s, bind, k + 1)
  }

  /**
   * Binding succeeds exactly when every live external from `k` on binds, and
   * otherwise fails with the error of the first external that does not.
   */
  lemma {:induction false} BindFromIsFirstFailure(s: seq<External>, bind: External -> ErrorCode, k: nat)
    requires TerminatedFrom(s, k)
    ensures BindFrom(s, bind, k) == Success <==> forall j :: k <= j < EndFrom(s, k) ==> bind(s[j]) == Success
    ensures BindFrom(s, bind, k) != Success ==>
              exists j :: k <= j < EndFrom(s, k) && BindFrom(s, bind, k) == bind(s[j])
                && forall i :: k <= i < j ==> bind(s[i]) == Success
    decreases |s| - k
  {
    if s[k].kind != Null {
      BindFromIsFirstFailure(s, bind, k + 1);
      if bind(s[k]) != Success {
        assert BindFrom(s, bind, k) == bind(s[k]);
      } else if BindFrom(s, bind, k + 1) != Success {
        var j :| k + 1 <= j < EndFrom(s, k + 1) && BindFrom(s, bind, k + 1) == bind(s[j])
                 && forall i :: k + 1 <= i < j ==> bind(s[i]) == Success;
        assert forall i :: k <= i < j ==> bind(s[i]) == Success;
      }
    }
  }
}
