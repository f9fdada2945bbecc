/** `process_message` and `poll_queue`: what one agent does, as a run of the transition system. */
module AgentProcess {
  import opened Wrappers
  import opened UploadAgent

  /** Requests to S3 may raise, and JSON that is no object has no `get`; the exception leaves the polling loop. */
  datatype AgentError = ServiceError | AttributeError

  class Agent {
    const env: Env
    const me: nat
    /** Whether requests to the services always succeed. */
    const reliable: bool
    var store: map<Location, Object>
    var undeleted: set<Message>
    ghost var run: seq<State>

    ghost function Now(): State
      reads this
      requires run != []
    {
      run[|run| - 1]
    }

    /** The recorded states form steps of the transition system, and the last one has this agent in it. */
    ghost predicate Recorded()
      reads this
    {
      run != [] && me < |Now().agents| && forall k | 0 <= k < |run| - 1 :: Next(env, run[k], run[k + 1])
    }

    ghost predicate Valid()
      reads this
    {
      Recorded() && Now().store == store && Now().undeleted == undeleted
    }

    /** Since `before`, only this agent acted; it is now in phase `p`. */
    ghost predicate Reached(before: seq<State>, p: Phase)
      reads this
      requires before != []
    {
      && Valid() && before <= run && me < |before[|before| - 1].agents|
      && Now().agents == before[|before| - 1].agents[me := p] && Now().sent == before[|before| - 1].sent
    }

    constructor (env: Env, me: nat, reliable: bool, s: State)
      requires me < |s.agents|
      ensures Valid() && run == [s] && this.env == env && this.me == me && this.reliable == reliable
    {
      this.env, this.me, this.reliable, this.store, this.undeleted, this.run
        := env, me, reliable, s.store, s.undeleted, [s];
    }

    ghost method RecordAct()
      requires Recorded() && CanAct(env, Now().agents[me])
      requires store == Act(env, Now().store, Now().agents[me]).0
      requires undeleted ==
               if Now().agents[me].Processed? then Now().undeleted - {Now().agents[me].m} else Now().undeleted
      modifies this`run
      ensures Reached(old(run), Act(env, old(Now()).store, old(Now()).agents[me]).1)
    {
      hide Act, CanAct;
      var s := Now();
      var next := Act(env, s.store, s.agents[me]);
      var s' := State(next.0, s.sent, undeleted, s.agents[me := next.1]);
      assert ActStep(env, s, s', me);
      run := run + [s'];
    }

    ghost method RecordReceive(m: Message)
      requires Valid() && Now().agents[me].Idle? && m in Now().sent
      modifies this`run
      ensures Reached(old(run), Received(m))
    {
      var s := Now();
      var s' := s.(agents := s.agents[me := Received(m)]);
      assert ReceiveStep(s, s', me, m);
      run := run + [s'];
    }

    ghost method RecordCrash()
      requires Valid()
      modifies this`run
      ensures Reached(old(run), Idle)
    {
      var s := Now();
      var s' := s.(agents := s.agents[me := Idle]);
      assert CrashStep(s, s', me);
      run := run + [s'];
    }

    /** A request may fail, unless the services are reliable. */
    method RequestFails() returns (fails: bool)
      ensures fails ==> !reliable
    {
      fails := *;
      if reliable { fails := false; }
    }

    /** `process_message`. JSON that is no object raises, and any other malformed request gives false; otherwise there
        is a marker when this returns, and if there was none before it is the one the file calls for. */
    method ProcessMessage(m: Message) returns (r: Result<bool, AgentError>)
      requires Valid() && Now().agents[me] == Received(m)
      modifies this
      ensures Reached(old(run), if r == Ok(true) then Processed(m) else Idle) && undeleted == old(undeleted)
      ensures r.Ok? ==> r.value == WellFormedRequest(m.body)
      ensures m.body.NotAnObject? ==> r == Err(AttributeError)
      ensures r.Err? && !m.body.NotAnObject? ==> r.error == ServiceError && !reliable
      ensures store.Keys >= old(store).Keys && (!WellFormedRequest(m.body) ==> store == old(store))
      ensures r == Ok(true) ==>
                store == if MarkerAt(env, m.body) in old(store) then old(store) else AfterServing(env, old(store), m)
      ensures r == Ok(true) ==> MarkerAt(env, m.body) in store
    {
      hide MarkerAt, ObjectAt, MarkerFor, OutcomeOf, Next;
      if m.body.NotAnObject? {
        RecordCrash();
        return Err(AttributeError);
      }
      if !WellFormedRequest(m.body) {
        RecordAct();
        return Ok(false);
      }
      var fails := RequestFails();
      if fails { RecordCrash(); return Err(ServiceError); }
      var markerExists := MarkerAt(env, m.body) in store;
      RecordAct();
      if markerExists { return Ok(true); }
      var served := ServeFile(m);
      r := if served.Ok? then Ok(true) else Err(ServiceError);
    }

    /** The rest of `process_message`, for a request without a marker: the file, its object, the marker. */
    method ServeFile(m: Message) returns (r: Result<(), AgentError>)
      requires Valid() && Now().agents[me] == Unmarked(m) && m.body.Request?
      modifies this
      ensures Reached(old(run), if r.Ok? then Processed(m) else Idle) && undeleted == old(undeleted)
      ensures r.Err? ==> !reliable && store.Keys >= old(store).Keys
      ensures r.Ok? ==> store == AfterServing(env, old(store), m)
    {
      hide MarkerAt, ObjectAt, MarkerFor, OutcomeOf, Next;
      var fails := RequestFails();
      if fails { RecordCrash(); return Err(ServiceError); }
      var outcome := OutcomeOf(env, m.body);
      if outcome.Fails? {
        store := store[MarkerAt(env, m.body) := MarkerFor(env, m.body)];
        RecordAct();
        return Ok(());
      }
      RecordAct();
      fails := RequestFails();
      if fails { RecordCrash(); return Err(ServiceError); }
      var stored := UploadToCas(m);
      if stored.Err? { return Err(ServiceError); }
      fails := RequestFails();
      if fails { RecordCrash(); return Err(ServiceError); }
      store := store[MarkerAt(env, m.body) := MarkerFor(env, m.body)];
      RecordAct();
      r := Ok(());
    }

    /** `upload_to_cas`: upload unless the object is there already. */
    method UploadToCas(m: Message) returns (r: Result<(), AgentError>)
      requires Valid() && Now().agents[me] == Hashed(m) && CanAct(env, Now().agents[me])
      modifies this
      ensures Reached(old(run), if r.Ok? then Stored(m) else Idle) && undeleted == old(undeleted)
      ensures var at := ObjectOf(env, m.body);
        store == if r.Err? || at in old(store) then old(store)
                 else old(store)[at := Data(OutcomeOf(env, m.body).content)]
      ensures r.Ok? ==> CanAct(env, Stored(m))
      ensures r.Err? ==> r.error == ServiceError && !reliable
    {
      hide MarkerAt, ObjectAt, MarkerFor, OutcomeOf, Next;
      var at, content := ObjectAt(env, m.body, OutcomeOf(env, m.body).content), OutcomeOf(env, m.body).content;
      var present := at in store;
      RecordAct();
      if present { return Ok(()); }
      var fails := RequestFails();
      if fails { RecordCrash(); return Err(ServiceError); }
      store := store[at := Data(content)];
      RecordAct();
      r := Ok(());
    }

    /** `delete_message`. If it raises, the message stays in the queue, with its marker written. */
    method DeleteMessage(m: Message) returns (r: Result<(), AgentError>)
      requires Valid() && Now().agents[me] == Processed(m)
      modifies this
      ensures Reached(old(run), Idle) && store == old(store)
      ensures undeleted == if r.Ok? then old(undeleted) - {m} else old(undeleted)
      ensures r.Err? ==> r.error == ServiceError && !reliable
    {
      hide Next;
      var fails := RequestFails();
      if fails { RecordCrash(); return Err(ServiceError); }
      undeleted := undeleted - {m};
      RecordAct();
      r := Ok(());
    }

    /** Every well-formed one of these has its marker. */
    ghost predicate AllMarked(messages: seq<Message>)
      reads this
    {
      forall m | m in messages && WellFormedRequest(m.body) :: MarkerAt(env, m.body) in store
    }

    /** One turn of the polling loop. */
    method PollOne(m: Message) returns (r: Result<bool, AgentError>)
      requires Valid() && Now().agents[me].Idle? && m in Now().sent
      modifies this
      ensures Reached(old(run), Idle) && store.Keys >= old(store).Keys
      ensures r.Ok? ==> r.value == WellFormedRequest(m.body) && !m.body.NotAnObject?
      ensures undeleted == if r == Ok(true) then old(undeleted) - {m} else old(undeleted)
      ensures r == Ok(true) ==> MarkerAt(env, m.body) in store
      ensures r == Err(AttributeError) ==> m.body.NotAnObject?
      ensures r.Err? ==> m.body.NotAnObject? || !reliable
    {
      hide MarkerAt, Next, WellFormedRequest, AfterServing;
      RecordReceive(m);
      r := ProcessMessage(m);
      if r == Ok(true) {
        var deleted := DeleteMessage(m);
        if deleted.Err? { return Err(deleted.error); }
      }
    }

    /** `poll_queue` on the messages the queue returned: what was processed is deleted and counted, a malformed
        request stays in the queue. A body that is JSON but no object ends the loop, in every poll that meets it.
        However the loop ends, only well-formed messages of the batch are gone, and each of them has its marker. */
    method PollQueue(messages: seq<Message>) returns (r: Result<nat, AgentError>)
      requires Valid() && Now().agents[me].Idle? && forall m | m in messages :: m in Now().sent
      modifies this
      ensures Reached(old(run), Idle)
      ensures r.Ok? ==> undeleted == old(undeleted) - Processable(messages) && r.value == CountWellFormed(messages)
      ensures r.Ok? ==> AllMarked(messages) && forall m | m in messages :: !m.body.NotAnObject?
      ensures r == Err(AttributeError) ==> exists m :: m in messages && m.body.NotAnObject?
      ensures reliable && (forall m | m in messages :: !m.body.NotAnObject?) ==> r.Ok?
      ensures undeleted <= old(undeleted)
      ensures forall m | m in old(undeleted) && m !in undeleted ::
                m in messages && WellFormedRequest(m.body) && MarkerAt(env, m.body) in store
    {
      hide MarkerAt, Next, WellFormedRequest;
      var processed: nat := 0;
      for k := 0 to |messages|
        invariant Reached(old(run), Idle)
        invariant undeleted == old(undeleted) - Processable(messages[..k])
                  && processed == CountWellFormed(messages[..k])
        invariant AllMarked(messages[..k]) && forall m | m in messages[..k] :: !m.body.NotAnObject?
      {
        assert messages[..k + 1][..k] == messages[..k];
        ProcessableExtends(messages, k);
        assert messages[k] in messages;
        var success := PollOne(messages[k]);
        if success.Err? { return Err(success.error); }
        if success.value { processed := processed + 1; }
      }
      assert messages[..|messages|] == messages;
      r := Ok(processed);
    }
  }

  lemma ProcessableExtends(messages: seq<Message>, k: nat)
    requires k < |messages|
    ensures Processable(messages[..k + 1]) ==
            Processable(messages[..k]) + if WellFormedRequest(messages[k].body) then {messages[k]} else {}
  {
    assert messages[..k + 1] == messages[..k] + [messages[k]];
  }

  /** The messages of a batch that get deleted. */
  function Processable(messages: seq<Message>): set<Message> {
    set m | m in messages && WellFormedRequest(m.body)
  }

  /** The count is that of the positions with a well-formed message: a message listed twice counts twice. */
  lemma {:induction false} CountIsCardinality(messages: seq<Message>)
    ensures CountWellFormed(messages) == |set k | 0 <= k < |messages| && WellFormedRequest(messages[k].body)|
  {
    hide WellFormedRequest;
    if messages != [] {
      var n := |messages| - 1;
      CountIsCardinality(messages[..n]);
      var before := set k | 0 <= k < n && WellFormedRequest(messages[k].body);
      assert before == set k | 0 <= k < n && WellFormedRequest(messages[..n][k].body);
      assert (set k | 0 <= k < |messages| && WellFormedRequest(messages[k].body)) ==
             before + if WellFormedRequest(messages[n].body) then {n} else {};
    }
  }

  function CountWellFormed(messages: seq<Message>): nat {
    if messages == [] then 0
    else CountWellFormed(messages[..|messages| - 1]) + if WellFormedRequest(messages[|messages| - 1].body) then 1 else 0
  }
}
