/**
 * PolicyManager: builds and caches the policy catalog, takes in the request
 * parameters and the NLU result of a turn, and runs the turn against the
 * session store. Each method is proved against the specification functions
 * of the Catalog and Turns modules.
 */
module Manager {
  import opened Wrappers
  import opened Dialog
  import opened Triggers
  import opened Policies
  import opened Catalog
  import opened Turns
  import opened Store

  /** The params loop of `load`. */
  method CollectParams(params: Option<seq<ParamConfig>>) returns (m: map<string, Param>)
    ensures m == BuildParams(params)
  {
    m := map[];
    if params.Some? {
      var ps := params.value;
      var i := 0;
      while i < |ps|
        invariant 0 <= i <= |ps|
        invariant m == ParamIndex(ps[..i])
      {
        assert ps[..i + 1][..i] == ps[..i];
        m := m[ps[i].name := BuildParam(ps[i])];
        i := i + 1;
      }
      assert ps[..|ps|] == ps;
    }
  }

  /** The outputs loop of `load`. */
  method CollectOutputs(c: OutputConfig) returns (outs: seq<Output>)
    ensures outs == BuildOutputs(c)
  {
    outs := [];
    match c {
      case OutputName(name) =>
        outs := outs + [FunctionOutput(name)];
      case OutputItems(items) =>
        var i := 0;
        while i < |items|
          invariant 0 <= i <= |items|
          invariant |outs| == i
          invariant forall k | 0 <= k < i :: outs[k] == BuildItem(items[k])
        {
          outs := outs + [BuildItem(items[i])];
          i := i + 1;
        }
      case OutputOther =>
    }
  }

  /** The policies loop of `load`: one Policy per entry, appended to the bucket of its key. */
  method CollectCatalog(policies: seq<PolicyConfig>) returns (built: map<string, seq<Policy>>)
    ensures built == BuildCatalog(policies)
  {
    built := map[];
    var i := 0;
    while i < |policies|
      invariant 0 <= i <= |policies|
      invariant built == BuildCatalog(policies[..i])
    {
      var entry := policies[i];
      ghost var before := built;
      var trigger := BuildTrigger(entry.trigger);
      var params := CollectParams(entry.params);
      var outputs := CollectOutputs(entry.output);
      var policy := Policy(trigger, params, outputs);
      var key := BucketKey(entry.trigger);
      var bucket := if key in built then built[key] else [];
      built := built[key := bucket + [policy]];
      assert policy == BuildPolicy(entry);
      assert policies[..i + 1][..i] == policies[..i];
      assert BuildCatalog(policies[..i + 1]) == Append(before, key, BuildPolicy(entry));
      i := i + 1;
    }
    assert policies[..|policies|] == policies;
  }

  /** The slot overlay loop of `output`: recognised values replace session values. */
  method OverlaySlots(previous: map<string, string>, recognised: map<string, string>) returns (all: map<string, string>)
    ensures all == MergeSlots(previous, recognised)
  {
    all := previous;
    var pending := recognised.Keys;
    while pending != {}
      invariant pending <= recognised.Keys
      invariant all == previous + (recognised - pending)
      decreases pending
    {
      var key :| key in pending;
      all := all[key := recognised[key]];
      pending := pending - {key};
    }
    assert recognised - {} == recognised;
  }

  /** The matching loop of `output`: each policy of the bucket whose trigger hits, with its score. */
  method CollectMatches(bucket: seq<Policy>, current: string, qu: QuResult) returns (matched: seq<Match>)
    ensures matched == Matches(bucket, current, qu)
  {
    matched := [];
    var i := 0;
    while i < |bucket|
      invariant 0 <= i <= |bucket|
      invariant matched == Matches(bucket[..i], current, qu)
    {
      assert bucket[..i + 1][..i] == bucket[..i];
      var score := HitTrigger(bucket[i].trigger, current, qu);
      if score.Some? {
        matched := matched + [Match(score.value, bucket[i])];
      }
      i := i + 1;
    }
    assert bucket[..|bucket|] == bucket;
  }

  /**
   * The outputs loop of `output`: each output runs on the session in turn;
   * the first reply is returned after one `write()`, and when every output
   * declines nothing is written.
   */
  method TryOutputs(session: Session, outs: seq<Output>, exec: (Output, SessionObject) -> Execution)
    returns (reply: Option<Reply>)
    modifies session
    ensures var run := RunFrom(outs, 0, old(session.obj), exec);
            && reply == run.reply
            && session.obj == run.session
            && session.log == old(session.log) + (if reply.Some? then [Written(run.session)] else [])
            && session.uuid == old(session.uuid)
  {
    ghost var start := session.obj;
    var j := 0;
    while j < |outs|
      invariant 0 <= j <= |outs|
      invariant RunFrom(outs, j, session.obj, exec) == RunFrom(outs, 0, start, exec)
      invariant session.log == old(session.log)
      invariant session.uuid == old(session.uuid)
    {
      var e := exec(outs[j], session.obj);
      session.Replace(e.session);
      if e.reply.Some? {
        session.Write();
        return e.reply;
      }
      j := j + 1;
    }
    reply := None;
  }

  /**
   * The part of `output` after the bucket lookup: collect the matches, try the
   * top-ranked policy's outputs, and otherwise stay silent in `dm_init` or
   * ask the bot for a retry and write.
   */
  method RunBucket(session: Session, bucket: seq<Policy>, qu: QuResult, env: Env) returns (r: Option<Reply>)
    modifies session
    ensures var t := Conclude(RunChosen(bucket, old(session.obj), qu, env), qu, env.retry);
            && r == t.reply
            && session.obj == t.session
            && session.log == old(session.log) + t.events[1..]
            && session.uuid == old(session.uuid)
  {
    var matched := CollectMatches(bucket, session.obj.state, qu);
    ghost var run := RunChosen(bucket, session.obj, qu, env);
    if |matched| > 0 {
      var policy := matched[Best(matched, env.better)].policy;
      r := TryOutputs(session, policy.outputs, env.exec);
      if r.Some? {
        return r;
      }
    }
    assert run.reply.None? && session.obj == run.session;
    if session.obj.state == INIT_STATE {
      return None;
    }
    r := env.retry;
    session.Write();
  }

  class PolicyManager {
    /** The catalog: intent to policies, in declaration order; empty until loaded. */
    var policyMap: map<string, seq<Policy>>
    var requestParams: map<string, string>
    /** The bot whose NLU result is used; empty when unset. */
    var botId: string
    /** The NLU result of the current turn, if any. */
    var quResult: Option<QuResult>
    const session: Session
    const bot: Bot

    constructor (session: Session, bot: Bot)
      ensures this.session == session && this.bot == bot
      ensures policyMap == map[] && requestParams == map[] && botId == "" && quResult == None
    {
      this.session := session;
      this.bot := bot;
      policyMap := map[];
      requestParams := map[];
      botId := "";
      quResult := None;
    }

    method SetBotId(id: string)
      modifies this`botId
      ensures botId == id
    {
      botId := id;
    }

    /**
     * The parameters are stored first; a missing or empty `cuid` is then a
     * configuration error that leaves the session and the bot alone.
     */
    method SetRequestParams(params: map<string, string>) returns (res: Outcome)
      modifies this`requestParams, session, bot
      ensures requestParams == params
      ensures res.Pass? <==> "cuid" in params && params["cuid"] != ""
      ensures res.Fail? ==> res.error == MissingCuid && unchanged(session) && unchanged(bot)
      ensures res.Pass? ==>
                && session.uuid == params["cuid"]
                && session.obj == old(session.obj) && session.log == old(session.log)
                && bot.requestParams == params && bot.quResult == old(bot.quResult)
    {
      requestParams := params;
      if "cuid" !in params || params["cuid"] == "" {
        return Fail(MissingCuid);
      }
      session.SetUuid(params["cuid"]);
      bot.SetRequestParams(params);
      res := Pass;
    }

    /**
     * `parsed` is what the parser makes of the raw NLU output. Without a bot
     * id this is a configuration error; otherwise the bot's entry becomes the
     * turn's NLU result (none when it is missing) and is handed to the bot.
     */
    method SetQuResults(parsed: map<string, QuResult>) returns (res: Outcome)
      modifies this`quResult, bot
      ensures res.Pass? <==> botId != ""
      ensures res.Fail? ==> res.error == MissingBotId && quResult == old(quResult) && unchanged(bot)
      ensures res.Pass? ==> quResult == (if botId in parsed then Some(parsed[botId]) else None)
      ensures res.Pass? ==>
                && bot.quResult == (if botId in parsed then Some(parsed[botId]) else old(bot.quResult))
                && bot.requestParams == old(bot.requestParams)
    {
      if botId == "" {
        return Fail(MissingBotId);
      }
      quResult := if botId in parsed then Some(parsed[botId]) else None;
      if quResult.None? {
        return Pass;
      }
      bot.SetQuResult(quResult.value);
      res := Pass;
    }

    /**
     * Builds the catalog once: while it is empty, the catalog of `policies`
     * replaces it; once it is non-empty, every call returns it unchanged.
     */
    method Load(policies: seq<PolicyConfig>) returns (m: map<string, seq<Policy>>)
      modifies this`policyMap
      ensures old(policyMap) != map[] ==> policyMap == old(policyMap)
      ensures old(policyMap) == map[] ==> policyMap == BuildCatalog(policies)
      ensures m == policyMap
    {
      if policyMap == map[] {
        policyMap := CollectCatalog(policies);
      }
      m := policyMap;
    }

    /**
     * One turn. Without an NLU result nothing is touched. Otherwise the
     * session is read, the recognised slots are overlaid on it, and the turn
     * proceeds as `Turn` specifies; `say` is the utterance echo.
     */
    method Output(env: Env) returns (r: Option<Reply>, say: Option<string>)
      modifies this`quResult, session
      ensures old(quResult).None? ==>
                r == None && say == None && quResult == old(quResult) && unchanged(session)
      ensures old(quResult).Some? ==>
                var t := Turn(policyMap, old(quResult).value, env);
                && r == t.reply
                && say == Some(old(quResult).value.say)
                && quResult == Some(t.qu)
                && session.obj == t.session
                && session.log == old(session.log) + t.events
                && session.uuid == old(session.uuid)
    {
      if quResult.None? {
        return None, None;
      }
      var qu := quResult.value;
      say := Some(qu.say);
      session.Read(env.loaded);
      var allSlots := OverlaySlots(session.obj.slots, qu.slots);
      qu := qu.(changedSlots := env.changedSlots(qu, session.obj));
      quResult := Some(qu);
      session.SetSlots(allSlots);
      if qu.intent !in policyMap {
        session.Clean();
        return None, say;
      }
      ghost var before := session.log;
      r := RunBucket(session, policyMap[qu.intent], qu, env);
      ghost var t := Turn(policyMap, old(quResult).value, env);
      assert session.log == before + t.events[1..];
      assert t.events == [Loaded] + t.events[1..];
    }
  }
}
