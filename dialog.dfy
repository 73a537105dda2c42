/**
 * Values exchanged with the dialog collaborators: the NLU result of one turn,
 * the in-memory session object, and the events the session store sees.
 */
module Dialog {

  /** An opaque reply payload (what an output or the retry prompt returns). */
  type Reply = string

  /** The NLU result of one turn for one bot (QuResult). */
  datatype QuResult = QuResult(
    intent: string,
    slots: map<string, string>,
    changedSlots: map<string, string>,
    say: string)

  /** The session object: the conversation state name and the slot map. */
  datatype SessionObject = SessionObject(state: string, slots: map<string, string>)

  /** What the session store is asked to do, in order. */
  datatype SessionEvent = Loaded | Cleaned | Written(snapshot: SessionObject)

  /** Number of `write()` calls in a log. */
  function Writes(log: seq<SessionEvent>): (n: nat)
    ensures n <= |log|
    ensures n == 0 <==> forall i :: 0 <= i < |log| ==> !log[i].Written?
  {
    if log == [] then 0
    else (if log[0].Written? then 1 else 0) + Writes(log[1..])
  }
}
