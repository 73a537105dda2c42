/**
 * The specification of one turn of `PolicyManager::output`: slot overlay,
 * catalog lookup, matching, choice of the top-ranked match, trying its
 * outputs in order, and the fallback — with what the session store sees.
 */
module Turns {
  import opened Wrappers
  import opened Dialog
  import opened Triggers
  import opened Policies

  /** What an output executor answers: a reply or `false`, and the session object after it ran. */
  datatype Execution = Execution(reply: Option<Reply>, session: SessionObject)

  /** The collaborators of one turn, whose code is not part of this model. */
  datatype Env = Env(
    loaded: SessionObject,                                          // what `session->read()` loads
    changedSlots: (QuResult, SessionObject) -> map<string, string>, // QuResult::buildChangedSlots
    exec: (Output, SessionObject) -> Execution,                     // an output's `output($session)`
    better: (Score, Score) -> bool,                                 // PolicyTriggerScore::isGreaterThan
    retry: Option<Reply>)                                           // Bot::retry, `false` as None

  /** The session slots overlaid with the recognised slots. */
  function MergeSlots(previous: map<string, string>, recognised: map<string, string>): (m: map<string, string>)
    ensures m.Keys == previous.Keys + recognised.Keys
    ensures forall k | k in recognised :: m[k] == recognised[k]
    ensures forall k | k in previous && k !in recognised :: m[k] == previous[k]
  {
    previous + recognised
  }

  datatype Match = Match(score: Score, policy: Policy)

  /** The policies of a bucket whose trigger hits, with their scores, in bucket order. */
  function Matches(bucket: seq<Policy>, current: string, qu: QuResult): (ms: seq<Match>)
    ensures forall m | m in ms :: m.policy in bucket && HitTrigger(m.policy.trigger, current, qu) == Some(m.score)
    ensures forall p | p in bucket && HitTrigger(p.trigger, current, qu).Some? ::
              Match(HitTrigger(p.trigger, current, qu).value, p) in ms
  {
    if bucket == [] then []
    else
      var init, last := bucket[..|bucket| - 1], bucket[|bucket| - 1];
      assert bucket == init + [last];
      var ms := Matches(init, current, qu);
      match HitTrigger(last.trigger, current, qu)
      case None => ms
      case Some(score) => ms + [Match(score, last)]
  }

  /** A strict order on scores: irreflexive and transitive. */
  ghost predicate StrictOrder(better: (Score, Score) -> bool) {
    && (forall a :: !better(a, a))
    && (forall a, b, c :: better(a, b) && better(b, c) ==> better(a, c))
  }

  /**
   * The position of a top-ranked match under `better`: a scan that moves to a
   * later match only when it ranks strictly above the current choice, so of
   * equally ranked matches it keeps the earliest.
   */
  function Best(ms: seq<Match>, better: (Score, Score) -> bool): (k: nat)
    requires |ms| > 0
    ensures k < |ms|
  {
    if |ms| == 1 then 0
    else
      var b := Best(ms[..|ms| - 1], better);
      if better(ms[|ms| - 1].score, ms[b].score) then |ms| - 1 else b
  }

  /** Under a strict order no match ranks strictly above the chosen one. */
  lemma {:induction false} BestIsMaximal(ms: seq<Match>, better: (Score, Score) -> bool)
    requires |ms| > 0
    ensures StrictOrder(better) ==>
              forall j | 0 <= j < |ms| :: !better(ms[j].score, ms[Best(ms, better)].score)
  {
    if |ms| > 1 && StrictOrder(better) {
      var init := ms[..|ms| - 1];
      BestIsMaximal(init, better);
      assert forall j | 0 <= j < |init| :: init[j] == ms[j];
    }
  }

  /** The first match is chosen iff no later match ranks strictly above it: ties keep the earliest. */
  lemma {:induction false} BestKeepsFirst(ms: seq<Match>, better: (Score, Score) -> bool)
    requires |ms| > 0
    ensures Best(ms, better) == 0 <==> forall j | 0 < j < |ms| :: !better(ms[j].score, ms[0].score)
  {
    if |ms| > 1 {
      var init := ms[..|ms| - 1];
      BestKeepsFirst(init, better);
      assert forall j | 0 <= j < |init| :: init[j] == ms[j];
      var last := |ms| - 1;
      assert Best(ms, better) == (if better(ms[last].score, ms[Best(init, better)].score) then last else Best(init, better));
      if Best(ms, better) == 0 {
        assert Best(init, better) == 0;
      }
    }
  }

  /** The policy chosen for a bucket: one whose trigger hits, and none when no trigger hits. */
  function Winner(bucket: seq<Policy>, current: string, qu: QuResult, better: (Score, Score) -> bool): (w: Option<Policy>)
    ensures w.Some? ==> w.value in bucket && HitTrigger(w.value.trigger, current, qu).Some?
    ensures w.None? ==> forall p | p in bucket :: HitTrigger(p.trigger, current, qu).None?
  {
    var ms := Matches(bucket, current, qu);
    if ms == [] then None
    else
      var b := Best(ms, better);
      assert ms[b] in ms;
      Some(ms[b].policy)
  }

  /** Under a strict order no hitting policy of the bucket outranks the chosen one. */
  lemma WinnerIsBestMatch(bucket: seq<Policy>, current: string, qu: QuResult, better: (Score, Score) -> bool)
    requires Winner(bucket, current, qu, better).Some?
    ensures var w := Winner(bucket, current, qu, better).value;
            StrictOrder(better) ==>
              forall p | p in bucket && HitTrigger(p.trigger, current, qu).Some? ::
                !better(HitTrigger(p.trigger, current, qu).value, HitTrigger(w.trigger, current, qu).value)
  {
    var ms := Matches(bucket, current, qu);
    var b := Best(ms, better);
    assert ms[b] in ms;
    var top := ms[b].score;
    assert HitTrigger(ms[b].policy.trigger, current, qu) == Some(top);
    if StrictOrder(better) {
      BestIsMaximal(ms, better);
      forall p | p in bucket && HitTrigger(p.trigger, current, qu).Some?
        ensures !better(HitTrigger(p.trigger, current, qu).value, top)
      {
        var m := Match(HitTrigger(p.trigger, current, qu).value, p);
        assert m in ms;
        var j :| 0 <= j < |ms| && ms[j] == m;
      }
    }
  }

  /** Trying outputs from position `i`: the first one that does not answer `false` wins. */
  function RunFrom(outs: seq<Output>, i: nat, s: SessionObject, exec: (Output, SessionObject) -> Execution): (r: Execution)
    requires i <= |outs|
    ensures r.reply.Some? ==> exists k, t | i <= k < |outs| :: r == exec(outs[k], t)
    decreases |outs| - i
  {
    if i == |outs| then Execution(None, s)
    else
      var e := exec(outs[i], s);
      if e.reply.Some? then e else RunFrom(outs, i + 1, e.session, exec)
  }

  /** The session object after the first `i` outputs ran, each answering `false`. */
  function Threaded(outs: seq<Output>, s: SessionObject, exec: (Output, SessionObject) -> Execution, i: nat): SessionObject
    requires i <= |outs|
  {
    if i == 0 then s else exec(outs[i - 1], Threaded(outs, s, exec, i - 1)).session
  }

  /** Output `j` answers `false` when it is reached. */
  predicate Declines(outs: seq<Output>, s: SessionObject, exec: (Output, SessionObject) -> Execution, j: nat)
    requires j < |outs|
  {
    exec(outs[j], Threaded(outs, s, exec, j)).reply.None?
  }

  /** Output `k` answers `run`, reached from position `i` after the outputs between declined. */
  predicate AnswersAt(outs: seq<Output>, s: SessionObject, exec: (Output, SessionObject) -> Execution, i: nat, k: nat, run: Execution) {
    && i <= k < |outs|
    && (forall j | i <= j < k :: Declines(outs, s, exec, j))
    && run == exec(outs[k], Threaded(outs, s, exec, k))
  }

  /** From position `i`, a reply is the answer of the first output there that does not decline. */
  lemma {:induction false} ReplyFromThreads(outs: seq<Output>, s: SessionObject, exec: (Output, SessionObject) -> Execution, i: nat)
    requires i <= |outs|
    ensures var run := RunFrom(outs, i, Threaded(outs, s, exec, i), exec);
            run.reply.Some? ==> exists k :: AnswersAt(outs, s, exec, i, k, run)
    decreases |outs| - i
  {
    if i < |outs| {
      var e := exec(outs[i], Threaded(outs, s, exec, i));
      var run := RunFrom(outs, i, Threaded(outs, s, exec, i), exec);
      if e.reply.Some? {
        assert AnswersAt(outs, s, exec, i, i, run);
      } else {
        assert Threaded(outs, s, exec, i + 1) == e.session;
        assert run == RunFrom(outs, i + 1, Threaded(outs, s, exec, i + 1), exec);
        ReplyFromThreads(outs, s, exec, i + 1);
        if run.reply.Some? {
          var k :| AnswersAt(outs, s, exec, i + 1, k, run);
          assert Declines(outs, s, exec, i);
          assert AnswersAt(outs, s, exec, i, k, run);
        }
      }
    }
  }

  /** From position `i`, no reply means every remaining output declined, each on the session the previous one left. */
  lemma {:induction false} SilenceFromThreads(outs: seq<Output>, s: SessionObject, exec: (Output, SessionObject) -> Execution, i: nat)
    requires i <= |outs|
    ensures var run := RunFrom(outs, i, Threaded(outs, s, exec, i), exec);
            run.reply.None? ==>
              && (forall j | i <= j < |outs| :: Declines(outs, s, exec, j))
              && run.session == Threaded(outs, s, exec, |outs|)
    decreases |outs| - i
  {
    if i < |outs| {
      var e := exec(outs[i], Threaded(outs, s, exec, i));
      if e.reply.None? {
        assert Threaded(outs, s, exec, i + 1) == e.session;
        SilenceFromThreads(outs, s, exec, i + 1);
      }
    }
  }

  /** Trying outputs from any position: the first one that does not decline answers; otherwise all declined. */
  lemma RunFromThreads(outs: seq<Output>, s: SessionObject, exec: (Output, SessionObject) -> Execution, i: nat)
    requires i <= |outs|
    ensures var run := RunFrom(outs, i, Threaded(outs, s, exec, i), exec);
            && (run.reply.Some? ==>
                  exists k | i <= k < |outs| ::
                    && (forall j | i <= j < k :: Declines(outs, s, exec, j))
                    && run == exec(outs[k], Threaded(outs, s, exec, k)))
            && (run.reply.None? ==>
                  && (forall j | i <= j < |outs| :: Declines(outs, s, exec, j))
                  && run.session == Threaded(outs, s, exec, |outs|))
  {
    ReplyFromThreads(outs, s, exec, i);
    SilenceFromThreads(outs, s, exec, i);
    var run := RunFrom(outs, i, Threaded(outs, s, exec, i), exec);
    if run.reply.Some? {
      var k :| AnswersAt(outs, s, exec, i, k, run);
    }
  }

  /**
   * Outputs are tried in declaration order: a reply is the answer of the first
   * output that does not answer `false`; no reply means every output declined.
   */
  lemma FirstOutputWins(outs: seq<Output>, s: SessionObject, exec: (Output, SessionObject) -> Execution)
    ensures var run := RunFrom(outs, 0, s, exec);
            && (run.reply.Some? ==>
                  exists k | 0 <= k < |outs| ::
                    && (forall j | 0 <= j < k :: Declines(outs, s, exec, j))
                    && run == exec(outs[k], Threaded(outs, s, exec, k)))
            && (run.reply.None? ==>
                  && (forall j | 0 <= j < |outs| :: Declines(outs, s, exec, j))
                  && run.session == Threaded(outs, s, exec, |outs|))
  {
    RunFromThreads(outs, s, exec, 0);
  }

  /** How a turn ended. */
  datatype Path =
    | Unregistered   // no bucket for the intent: session cleaned
    | Produced       // an output of the chosen policy answered
    | SilentAtInit   // nothing answered, initial state: no retry
    | Retried        // nothing answered: what `retry()` gives, after a write

  datatype TurnResult = TurnResult(
    path: Path,
    reply: Option<Reply>,
    events: seq<SessionEvent>,
    session: SessionObject,
    qu: QuResult)

  /** The session object once the recognised slots are overlaid. */
  function MergedSession(qu: QuResult, env: Env): SessionObject {
    env.loaded.(slots := MergeSlots(env.loaded.slots, qu.slots))
  }

  /** The NLU result once its changed slots are derived from the loaded session. */
  function WithChanges(qu: QuResult, env: Env): QuResult {
    qu.(changedSlots := env.changedSlots(qu, env.loaded))
  }

  /** The chosen policy's outputs tried on `s`; nothing runs when no trigger hits. */
  function RunChosen(bucket: seq<Policy>, s: SessionObject, qu: QuResult, env: Env): Execution {
    match Winner(bucket, s.state, qu, env.better)
    case None => Execution(None, s)
    case Some(p) => RunFrom(p.outputs, 0, s, env.exec)
  }

  /**
   * The end of a turn for a registered intent, once the chosen outputs ran:
   * the store is never cleaned; an output's reply is returned as is, after
   * one write; with no reply the turn is silent in `dm_init`, without a
   * write, and elsewhere returns what `retry()` gives (`false` included),
   * after one write.
   */
  function Conclude(run: Execution, qu: QuResult, retry: Option<Reply>): (t: TurnResult)
    ensures t.events != [] && t.events[0] == Loaded
    ensures Writes(t.events) == (if t.path.SilentAtInit? then 0 else 1)
    ensures t.events == (if t.path.SilentAtInit? then [Loaded] else [Loaded, Written(t.session)])
    ensures Cleaned !in t.events
    ensures t.path != Unregistered
    ensures t.session == run.session
    ensures t.path == Produced <==> run.reply.Some?
    ensures t.path == Produced ==> t.reply == run.reply
    ensures t.path == SilentAtInit <==> run.reply.None? && run.session.state == INIT_STATE
    ensures t.path == SilentAtInit ==> t.reply == None
    ensures t.path == Retried ==> t.reply == retry
  {
    if run.reply.Some? then
      TurnResult(Produced, run.reply, [Loaded, Written(run.session)], run.session, qu)
    else if run.session.state == INIT_STATE then
      TurnResult(SilentAtInit, None, [Loaded], run.session, qu)
    else
      TurnResult(Retried, retry, [Loaded, Written(run.session)], run.session, qu)
  }

  /**
   * One turn with an NLU result present: the session is read first; it is
   * cleaned iff the intent has no bucket, and then `false` is returned without
   * a write; otherwise it is written exactly once unless the turn is silent in
   * `dm_init`, so a returned value always follows one write.
   */
  function Turn(catalog: map<string, seq<Policy>>, qu: QuResult, env: Env): (t: TurnResult)
    ensures t.events != [] && t.events[0] == Loaded
    ensures Writes(t.events) == (if t.path.Produced? || t.path.Retried? then 1 else 0)
    ensures t.reply.Some? ==> Writes(t.events) == 1
    ensures t.path.Unregistered? ==> t.events == [Loaded, Cleaned]
    ensures t.path.SilentAtInit? ==> t.events == [Loaded]
    ensures (t.path.Produced? || t.path.Retried?) ==> t.events == [Loaded, Written(t.session)]
    ensures Cleaned in t.events <==> t.path == Unregistered
    ensures t.path == Unregistered <==> qu.intent !in catalog
    ensures t.path == Unregistered ==> t.reply == None && t.session == Cleared
    ensures t.path == SilentAtInit ==> t.reply == None && t.session.state == INIT_STATE
    ensures t.path == Retried ==> t.reply == env.retry && t.session.state != INIT_STATE
    ensures t.qu.changedSlots == env.changedSlots(qu, env.loaded)
    ensures t.qu == qu.(changedSlots := t.qu.changedSlots)
  {
    var qu' := WithChanges(qu, env);
    if qu.intent !in catalog then
      TurnResult(Unregistered, None, [Loaded, Cleaned], Cleared, qu')
    else
      Conclude(RunChosen(catalog[qu.intent], MergedSession(qu, env), qu', env), qu', env.retry)
  }

  /**
   * Only the chosen policy's outputs are tried: a produced reply is the answer
   * of its first output that does not decline; otherwise all of them declined
   * (or nothing matched) and the fallback runs on the session they left.
   */
  lemma OnlyWinnerIsTried(catalog: map<string, seq<Policy>>, qu: QuResult, env: Env)
    requires qu.intent in catalog
    ensures var t := Turn(catalog, qu, env);
            var s := MergedSession(qu, env);
            var w := Winner(catalog[qu.intent], s.state, WithChanges(qu, env), env.better);
            && (t.path == Produced <==> w.Some? && RunFrom(w.value.outputs, 0, s, env.exec).reply.Some?)
            && (t.path == Produced ==>
                  exists k | 0 <= k < |w.value.outputs| ::
                    && (forall j | 0 <= j < k :: Declines(w.value.outputs, s, env.exec, j))
                    && Execution(t.reply, t.session) == env.exec(w.value.outputs[k], Threaded(w.value.outputs, s, env.exec, k)))
            && (t.path != Produced && w.Some? ==>
                  && (forall j | 0 <= j < |w.value.outputs| :: Declines(w.value.outputs, s, env.exec, j))
                  && t.session == Threaded(w.value.outputs, s, env.exec, |w.value.outputs|))
            && (w.None? ==> t.path != Produced && t.session == s)
  {
    var s := MergedSession(qu, env);
    var w := Winner(catalog[qu.intent], s.state, WithChanges(qu, env), env.better);
    if w.Some? {
      FirstOutputWins(w.value.outputs, s, env.exec);
    }
  }
}
