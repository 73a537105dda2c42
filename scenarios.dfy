/** Concrete turns: a configured policy fires, or all its outputs decline and a retry is asked. */
module Scenarios {
  import opened Wrappers
  import opened Dialog
  import opened Triggers
  import opened Policies
  import opened Catalog
  import opened Turns

  /** `book_flight` with a required `destination` slot, in state `greet`, answered by `confirmBooking`. */
  function BookFlight(): seq<PolicyConfig> {
    [PolicyConfig(
      TriggerConfig(Some("book_flight"), Some(List(["destination"])), None, Some(Str("greet"))),
      None,
      OutputName("confirmBooking"))]
  }

  /** Changed slots as the recognised slots that are new or differ from the session's. */
  function ChangedAgainst(qu: QuResult, s: SessionObject): map<string, string> {
    map k | k in qu.slots && (k !in s.slots || s.slots[k] != qu.slots[k]) :: qu.slots[k]
  }

  function Booking(): QuResult {
    QuResult("book_flight", map["destination" := "Paris"], map[], "to Paris")
  }

  /** An environment whose only answering output is `confirmBooking`, when `answers` holds. */
  function BookingEnv(state: string, answers: bool): Env {
    Env(
      SessionObject(state, map[]),
      ChangedAgainst,
      (o: Output, s: SessionObject) =>
        if answers && o == FunctionOutput("confirmBooking") then Execution(Some("booked"), s) else Execution(None, s),
      (a: Score, b: Score) => false,
      Some("please repeat"))
  }

  lemma BookFlightFires()
    ensures var t := Turn(BuildCatalog(BookFlight()), Booking(), BookingEnv("greet", true));
            && t.path == Produced
            && t.reply == Some("booked")
            && t.events == [Loaded, Written(SessionObject("greet", map["destination" := "Paris"]))]
  {
    var catalog := BuildCatalog(BookFlight());
    var policy := BuildPolicy(BookFlight()[0]);
    assert BookFlight()[..0] == [];
    assert BucketKey(BookFlight()[0].trigger) == "book_flight";
    assert catalog == Append(map[], "book_flight", policy);
    assert [] + [policy] == [policy];
    var s := MergedSession(Booking(), BookingEnv("greet", true));
    assert s == SessionObject("greet", map["destination" := "Paris"]);
    var qu := WithChanges(Booking(), BookingEnv("greet", true));
    assert HitTrigger(policy.trigger, "greet", qu).Some?;
    assert Matches([policy], "greet", qu) == [Match(Score(1, 1, 1, 0), policy)];
  }

  lemma DeclinedOutputsRetry()
    ensures var t := Turn(BuildCatalog(BookFlight()), Booking(), BookingEnv("greet", false));
            && t.path == Retried
            && t.reply == Some("please repeat")
            && t.events == [Loaded, Written(SessionObject("greet", map["destination" := "Paris"]))]
  {
    var catalog := BuildCatalog(BookFlight());
    var policy := BuildPolicy(BookFlight()[0]);
    assert BookFlight()[..0] == [];
    assert BucketKey(BookFlight()[0].trigger) == "book_flight";
    assert catalog == Append(map[], "book_flight", policy);
    assert [] + [policy] == [policy];
    var s := MergedSession(Booking(), BookingEnv("greet", false));
    assert s == SessionObject("greet", map["destination" := "Paris"]);
    var qu := WithChanges(Booking(), BookingEnv("greet", false));
    assert HitTrigger(policy.trigger, "greet", qu).Some?;
    assert Matches([policy], "greet", qu) == [Match(Score(1, 1, 1, 0), policy)];
  }
}
