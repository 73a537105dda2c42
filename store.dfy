/**
 * Stand-ins for the collaborators the manager drives but whose code is not
 * part of this model: the session store and the bot. They keep exactly the
 * state the manager reads or changes, and a log of the store operations.
 */
module Store {
  import opened Wrappers
  import opened Dialog
  import opened Triggers

  class Session {
    /** The conversation identifier (cuid) the store is keyed by. */
    var uuid: string
    /** The in-memory session object of the current turn. */
    var obj: SessionObject
    /** The store operations issued so far. */
    var log: seq<SessionEvent>

    constructor ()
      ensures uuid == "" && obj == Cleared && log == []
    {
      uuid := "";
      obj := Cleared;
      log := [];
    }

    method SetUuid(id: string)
      modifies this
      ensures uuid == id && obj == old(obj) && log == old(log)
    {
      uuid := id;
    }

    /** `read()`: the store loads `loaded` for the current uuid. */
    method Read(loaded: SessionObject)
      modifies this
      ensures obj == loaded && log == old(log) + [Loaded] && uuid == old(uuid)
    {
      obj := loaded;
      log := log + [Loaded];
    }

    /** `getSessionObject()->setSlots()`: in memory only. */
    method SetSlots(slots: map<string, string>)
      modifies this
      ensures obj == old(obj).(slots := slots) && log == old(log) && uuid == old(uuid)
    {
      obj := obj.(slots := slots);
    }

    /** An output executor's change to the session object: in memory only. */
    method Replace(next: SessionObject)
      modifies this
      ensures obj == next && log == old(log) && uuid == old(uuid)
    {
      obj := next;
    }

    /** `clean()`: the session is reset. */
    method Clean()
      modifies this
      ensures obj == Cleared && log == old(log) + [Cleaned] && uuid == old(uuid)
    {
      obj := Cleared;
      log := log + [Cleaned];
    }

    /** `write()`: the current session object is persisted. */
    method Write()
      modifies this
      ensures obj == old(obj) && log == old(log) + [Written(old(obj))] && uuid == old(uuid)
    {
      log := log + [Written(obj)];
    }
  }

  class Bot {
    var requestParams: map<string, string>
    var quResult: Option<QuResult>

    constructor ()
      ensures requestParams == map[] && quResult == None
    {
      requestParams := map[];
      quResult := None;
    }

    method SetRequestParams(params: map<string, string>)
      modifies this
      ensures requestParams == params && quResult == old(quResult)
    {
      requestParams := params;
    }

    method SetQuResult(qu: QuResult)
      modifies this
      ensures quResult == Some(qu) && requestParams == old(requestParams)
    {
      quResult := Some(qu);
    }
  }
}
