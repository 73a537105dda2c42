/**
 * PolicyTrigger: the match condition of one policy, the normalisation its
 * constructor applies, and `hitTrigger`, the ordered, short-circuiting checks
 * that either score the trigger against the current turn or reject it.
 */
module Triggers {
  import opened Wrappers
  import opened Dialog

  /** Bucket and intent of a trigger that declares no intent. */
  const NON_INTENT: string := "dm_non_intent"
  /** State of a conversation that has not progressed yet. */
  const INIT_STATE: string := "dm_init"
  /** Declared by the source, but no check treats it specially. */
  const ANY_STATE: string := "dm_any"

  /** The session object after the session store's `clean()`: initial state, no slots. */
  const Cleared: SessionObject := SessionObject(INIT_STATE, map[])

  /**
   * A configuration value as decoded from a policy file: a string, a PHP
   * array (keyed or not) as the list of its values in order, or a scalar that
   * is neither (null, a number, a boolean).
   */
  datatype ConfigValue = Str(s: string) | List(items: seq<string>) | Other

  /** A normalised trigger; `state` is kept exactly as configured. */
  datatype Trigger = Trigger(
    intent: string,
    slots: seq<string>,
    changedSlots: seq<string>,
    state: ConfigValue)

  /** The four components of a successful match (PolicyTriggerScore). */
  datatype Score = Score(intent: nat, state: nat, slots: nat, changedSlots: nat)

  /** A constructed trigger never has an empty intent. */
  predicate ValidTrigger(t: Trigger) {
    t.intent != ""
  }

  /** A list of names taken from a configuration value: a non-empty list, or nothing. */
  function NameList(v: ConfigValue): (names: seq<string>)
    ensures v.List? ==> names == v.items
    ensures !v.List? ==> names == []
  {
    if v.List? && v.items != [] then v.items else []
  }

  /** The PolicyTrigger constructor. */
  function NewTrigger(intent: string, slots: ConfigValue, changedSlots: ConfigValue, state: ConfigValue): (t: Trigger)
    ensures ValidTrigger(t)
    ensures intent != "" ==> t.intent == intent
    ensures intent == "" ==> t.intent == NON_INTENT
    ensures slots.List? ==> t.slots == slots.items
    ensures !slots.List? ==> t.slots == []
    ensures changedSlots.List? ==> t.changedSlots == changedSlots.items
    ensures !changedSlots.List? ==> t.changedSlots == []
    ensures t.state == state
  {
    Trigger(if intent != "" then intent else NON_INTENT, NameList(slots), NameList(changedSlots), state)
  }

  /** Whether a state value constrains the state at all (non-empty string or list). */
  predicate Declared(state: ConfigValue) {
    (state.Str? && state.s != "") || (state.List? && state.items != [])
  }

  /** The states a declared constraint admits. */
  function Admitted(state: ConfigValue): set<string> {
    match state
    case Str(s) => {s}
    case List(items) => set i | 0 <= i < |items| :: items[i]
    case Other => {}
  }

  /**
   * The state check: `None` on a mismatch, otherwise the state component of
   * the score. Arrays (keyed or not) are checked by membership among their
   * values, strings by equality; an empty value and a scalar that is neither
   * impose nothing.
   */
  function CheckState(state: ConfigValue, current: string): (r: Option<nat>)
    ensures r.Some? <==> (Declared(state) ==> current in Admitted(state))
    ensures r.Some? ==> r.value == (if Declared(state) then 1 else 0)
  {
    match state
    case List(items) =>
      if items == [] then Some(0)
      else if current in items then Some(1)
      else None
    case Str(s) =>
      if s == "" then Some(0)
      else if s == current then Some(1)
      else None
    case Other => Some(0)
  }

  /** The elements of `xs` that are in `keys`, in order and with repeats (array_intersect). */
  function Intersect(xs: seq<string>, keys: set<string>): (r: seq<string>)
    ensures |r| <= |xs|
  {
    if xs == [] then []
    else (if xs[0] in keys then [xs[0]] else []) + Intersect(xs[1..], keys)
  }

  /** Comparing the intersection's size with the list's size is a subset test. */
  lemma {:induction false} FullIntersectIffSubset(xs: seq<string>, keys: set<string>)
    ensures |Intersect(xs, keys)| == |xs| <==> forall x | x in xs :: x in keys
  {
    if xs != [] {
      FullIntersectIffSubset(xs[1..], keys);
      assert xs == [xs[0]] + xs[1..];
    }
  }

  /**
   * hitTrigger: intent, then state, then slots against the recognised slots,
   * then changed slots; the first failing check rejects with no partial score.
   */
  function HitTrigger(t: Trigger, current: string, qu: QuResult): (r: Option<Score>)
    ensures t.intent != qu.intent ==> r.None?
    ensures r.Some? <==>
      && t.intent == qu.intent
      && (Declared(t.state) ==> current in Admitted(t.state))
      && (forall s | s in t.slots :: s in qu.slots)
      && (forall c | c in t.changedSlots :: c in qu.changedSlots)
    ensures r.Some? ==>
      r.value == Score(1, if Declared(t.state) then 1 else 0, |t.slots|, |t.changedSlots|)
  {
    FullIntersectIffSubset(t.slots, qu.slots.Keys);
    FullIntersectIffSubset(t.changedSlots, qu.changedSlots.Keys);
    if t.intent != qu.intent then None
    else
      var state := CheckState(t.state, current);
      if state.None? then None
      else if |Intersect(t.slots, qu.slots.Keys)| != |t.slots| then None
      else if |Intersect(t.changedSlots, qu.changedSlots.Keys)| != |t.changedSlots| then None
      else Some(Score(1, state.value, |t.slots|, |t.changedSlots|))
  }

  /** `dm_any` is matched literally, like any other state name. */
  lemma AnyStateIsLiteral(current: string, qu: QuResult)
    requires qu.intent != ""
    ensures HitTrigger(NewTrigger(qu.intent, Other, Other, Str(ANY_STATE)), current, qu).Some?
            <==> current == ANY_STATE
  {
  }
}
