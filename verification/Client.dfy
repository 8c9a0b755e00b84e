/**
 hazectl/clients/mpackrpc_client.go: many goroutines in Call and one in readLoop, as a state
 machine whose steps are the atomic actions on the counter, the locked map and the one-slot
 channels.  Incoming responses are arbitrary.
 */
module Client {
  import opened Wire
  import opened Objects
  import Responses

  type Response = Responses.Response

  /** make(chan *Response, 1): one slot; `closes` counts close(ch). */
  datatype Channel = Channel(slot: Option<Response>, closed: bool, closes: nat)

  const NEW_CHANNEL := Channel(None, false, 0)

  /** Where a goroutine is inside Call; `sent` counts the copies of the request written so far. */
  datatype Stage = Fresh | Numbered | Writing(sent: nat) | Waiting | Returned(resp: Response) | Failed

  /** One invocation of Call; `late` records that it registered after the reader had gone. */
  datatype Call = Call(stage: Stage, id: UInt32, chan: Channel, late: bool, name: Bytes, params: seq<Object>)

  datatype ReadLoop = Idle | Holding(c: nat, resp: Response) | Exited

  /** `counter` is c.seq; `taken` counts the calls that have an id. */
  datatype State = State(calls: seq<Call>, counter: UInt32, taken: nat, pending: map<UInt32, nat>, reader: ReadLoop)

  const INITIAL := State([], 0, 0, map[], Idle)

  /** Each Call writes its request once with conn.Write and twice with the encoder. */
  const COPIES: nat := 3

  datatype Event =
    | Spawn(name: Bytes, params: seq<Object>)
    | TakeId(c: nat)                // atomic.AddUint32
    | Register(c: nat)              // make the channel, store it in pending under the lock
    | WriteCopy(c: nat)             // a write that succeeds
    | GiveUp(c: nat)                // a conversion or write error: removePending and return the error
    | Await(c: nat)                 // the receive on the channel completes
    | Incoming(resp: Response)      // Decode succeeds; look up and delete under the lock
    | Deliver                       // ch <- &resp
    | Disconnect                    // Decode fails; close every pending channel under the lock

  predicate Active(k: Call) { k.stage.Writing? || k.stage.Waiting? }

  predicate Enabled(s: State, e: Event)
  {
    match e
    case Spawn(_, _) => true
    case TakeId(c) => c < |s.calls| && s.calls[c].stage.Fresh? && s.taken + 1 < UINT32_LIMIT
    case Register(c) => c < |s.calls| && s.calls[c].stage.Numbered?
    case WriteCopy(c) => c < |s.calls| && s.calls[c].stage.Writing?
    case GiveUp(c) => c < |s.calls| && s.calls[c].stage.Writing?
    case Await(c) =>
      && c < |s.calls| && s.calls[c].stage.Waiting?
      && (s.calls[c].chan.slot.Some? || s.calls[c].chan.closed)
    case Incoming(_) => s.reader.Idle?
    case Deliver => s.reader.Holding? && s.reader.c < |s.calls|
    case Disconnect => s.reader.Idle?
  }

  function Put(s: State, c: nat, k: Call): State
    requires c < |s.calls|
  {
    s.(calls := s.calls[c := k])
  }

  /** The calls after close(ch) on every channel in the map. */
  function CloseAll(calls: seq<Call>, pending: map<UInt32, nat>): (r: seq<Call>)
    ensures |r| == |calls|
  {
    seq(|calls|, i requires 0 <= i < |calls| =>
      if calls[i].id in pending && pending[calls[i].id] == i
      then calls[i].(chan := calls[i].chan.(closed := true, closes := calls[i].chan.closes + 1))
      else calls[i])
  }

  function Step(s: State, e: Event): (s': State)
    requires Enabled(s, e)
  {
    match e
    case Spawn(name, params) =>
      s.(calls := s.calls + [Call(Fresh, 0, NEW_CHANNEL, false, name, params)])
    case TakeId(c) =>
      var id := (s.counter + 1) % UINT32_LIMIT;
      Put(s, c, s.calls[c].(stage := Numbered, id := id)).(counter := id, taken := s.taken + 1)
    case Register(c) =>
      Put(s, c, s.calls[c].(stage := Writing(0), chan := NEW_CHANNEL, late := s.reader.Exited?))
        .(pending := s.pending[s.calls[c].id := c])
    case WriteCopy(c) =>
      var sent := s.calls[c].stage.sent + 1;
      Put(s, c, s.calls[c].(stage := if sent >= COPIES then Waiting else Writing(sent)))
    case GiveUp(c) =>
      Put(s, c, s.calls[c].(stage := Failed)).(pending := s.pending - {s.calls[c].id})
    case Await(c) =>
      var k := s.calls[c];
      if k.chan.slot.Some? then Put(s, c, k.(stage := Returned(k.chan.slot.value), chan := k.chan.(slot := None)))
      else Put(s, c, k.(stage := Failed))
    case Incoming(resp) =>
      if resp.kind == Responses.RPC_RESPONSE && resp.msgid in s.pending
      then s.(pending := s.pending - {resp.msgid}, reader := Holding(s.pending[resp.msgid], resp))
      else s
    case Deliver =>
      var k := s.calls[s.reader.c];
      Put(s, s.reader.c, k.(chan := k.chan.(slot := Some(s.reader.resp)))).(reader := Idle)
    case Disconnect =>
      s.(calls := CloseAll(s.calls, s.pending), pending := map[], reader := Exited)
  }

  // ---------------------------------------------------------------- invariant

  predicate Listed(s: State, c: nat)
    requires c < |s.calls|
  {
    s.calls[c].id in s.pending && s.pending[s.calls[c].id] == c
  }

  predicate Held(s: State, c: nat) { s.reader.Holding? && s.reader.c == c }

  predicate HasId(k: Call) { !k.stage.Fresh? }

  predicate ChannelOk(k: Call)
  {
    && k.chan.closes == (if k.chan.closed then 1 else 0)
    && (k.chan.closed ==> k.chan.slot.None?)
    && (k.chan.slot.Some? ==> k.chan.slot.value.msgid == k.id)
    && (k.stage.Fresh? || k.stage.Numbered? ==> k.chan == NEW_CHANNEL && !k.late)
    && (k.stage.Returned? ==> k.stage.resp.msgid == k.id)
  }

  /** A registered call that has not ended is in exactly one of four places. */
  predicate Accounted(s: State, c: nat)
    requires c < |s.calls|
  {
    var k := s.calls[c];
    if k.late then Listed(s, c) && k.chan == NEW_CHANNEL
    else if s.reader.Exited? then !Listed(s, c) && (k.chan.slot.Some? || k.chan.closed)
    else if Listed(s, c) then k.chan == NEW_CHANNEL && !Held(s, c)
    else if Held(s, c) then k.chan == NEW_CHANNEL
    else k.chan.slot.Some? && !k.chan.closed
  }

  predicate CallOk(s: State, c: nat)
    requires c < |s.calls|
  {
    var k := s.calls[c];
    && ChannelOk(k)
    && (HasId(k) ==> 1 <= k.id <= s.taken)
    && (Active(k) ==> Accounted(s, c))
    && (!Active(k) ==> !Listed(s, c))
    && (k.late ==> s.reader.Exited?)
  }

  predicate ReaderOk(s: State)
  {
    s.reader.Holding? ==>
      && s.reader.c < |s.calls|
      && var k := s.calls[s.reader.c];
         && k.chan == NEW_CHANNEL && k.id == s.reader.resp.msgid && !Listed(s, s.reader.c)
         && (Active(k) || k.stage.Failed?)
  }

  predicate IdsDistinct(s: State)
  {
    forall i, j :: 0 <= i < j < |s.calls| && HasId(s.calls[i]) && HasId(s.calls[j]) ==> s.calls[i].id != s.calls[j].id
  }

  predicate PendingOk(s: State)
  {
    forall id :: id in s.pending ==>
      && s.pending[id] < |s.calls|
      && s.calls[s.pending[id]].id == id && Active(s.calls[s.pending[id]])
  }

  predicate Inv(s: State)
  {
    && s.counter == s.taken < UINT32_LIMIT
    && (forall c :: 0 <= c < |s.calls| ==> CallOk(s, c))
    && ReaderOk(s) && IdsDistinct(s) && PendingOk(s)
  }

  lemma KeepsSpawn(s: State, name: Bytes, params: seq<Object>)
    requires Inv(s)
    ensures Inv(Step(s, Spawn(name, params)))
  {
    var s' := Step(s, Spawn(name, params));
    forall i | 0 <= i < |s'.calls| ensures CallOk(s', i) {
      if i < |s.calls| {
        assert CallOk(s, i) && s'.calls[i] == s.calls[i];
      } else {
        assert !Listed(s', i);
      }
    }
  }

  lemma KeepsTakeId(s: State, c: nat)
    requires Inv(s) && Enabled(s, TakeId(c))
    ensures Inv(Step(s, TakeId(c)))
  {
    var s' := Step(s, TakeId(c));
    assert CallOk(s, c);
    assert s'.counter == s.taken + 1;
    forall id | id in s.pending ensures id <= s.taken {
      assert CallOk(s, s.pending[id]);
    }
    forall i | 0 <= i < |s'.calls| ensures CallOk(s', i) {
      assert CallOk(s, i);
    }
    forall i, j | 0 <= i < j < |s'.calls| && HasId(s'.calls[i]) && HasId(s'.calls[j])
      ensures s'.calls[i].id != s'.calls[j].id
    {
      assert CallOk(s, i) && CallOk(s, j);
    }
  }

  lemma KeepsRegister(s: State, c: nat)
    requires Inv(s) && Enabled(s, Register(c))
    ensures Inv(Step(s, Register(c)))
  {
    var s' := Step(s, Register(c));
    forall i | 0 <= i < |s'.calls| ensures CallOk(s', i) {
      assert CallOk(s, i);
      if i != c && HasId(s.calls[i]) {
        assert s.calls[i].id != s.calls[c].id;
      }
    }
    assert !Held(s, c);
  }

  lemma KeepsWriteCopy(s: State, c: nat)
    requires Inv(s) && Enabled(s, WriteCopy(c))
    ensures Inv(Step(s, WriteCopy(c)))
  {
    var s' := Step(s, WriteCopy(c));
    forall i | 0 <= i < |s'.calls| ensures CallOk(s', i) {
      assert CallOk(s, i);
    }
  }

  lemma KeepsGiveUp(s: State, c: nat)
    requires Inv(s) && Enabled(s, GiveUp(c))
    ensures Inv(Step(s, GiveUp(c)))
  {
    var s' := Step(s, GiveUp(c));
    forall i | 0 <= i < |s'.calls| ensures CallOk(s', i) {
      assert CallOk(s, i);
      if i != c && HasId(s.calls[i]) {
        assert s.calls[i].id != s.calls[c].id;
      }
    }
  }

  lemma KeepsAwait(s: State, c: nat)
    requires Inv(s) && Enabled(s, Await(c))
    ensures Inv(Step(s, Await(c)))
  {
    var s' := Step(s, Await(c));
    assert CallOk(s, c);
    assert !Held(s, c) && !Listed(s, c);
    forall i | 0 <= i < |s'.calls| ensures CallOk(s', i) {
      assert CallOk(s, i);
    }
    forall id | id in s'.pending ensures s'.pending[id] != c {
      assert s.calls[s.pending[id]].id == id;
    }
  }

  lemma KeepsIncoming(s: State, resp: Response)
    requires Inv(s) && Enabled(s, Incoming(resp))
    ensures Inv(Step(s, Incoming(resp)))
  {
    var s' := Step(s, Incoming(resp));
    if s' != s {
      var h := s.pending[resp.msgid];
      assert CallOk(s, h);
      forall i | 0 <= i < |s'.calls| ensures CallOk(s', i) {
        assert CallOk(s, i);
        if i != h && HasId(s.calls[i]) {
          assert s.calls[i].id != s.calls[h].id;
        }
      }
    }
  }

  lemma KeepsDeliver(s: State)
    requires Inv(s) && Enabled(s, Deliver)
    ensures Inv(Step(s, Deliver))
  {
    var s' := Step(s, Deliver);
    forall i | 0 <= i < |s'.calls| ensures CallOk(s', i) {
      assert CallOk(s, i);
    }
  }

  lemma KeepsDisconnect(s: State)
    requires Inv(s) && Enabled(s, Disconnect)
    ensures Inv(Step(s, Disconnect))
  {
    var s' := Step(s, Disconnect);
    forall i | 0 <= i < |s'.calls| ensures CallOk(s', i) {
      assert CallOk(s, i);
      assert s'.calls[i].stage == s.calls[i].stage;
    }
  }

  lemma StepKeepsInv(s: State, e: Event)
    requires Inv(s) && Enabled(s, e)
    ensures Inv(Step(s, e))
  {
    hide Inv;
    hide Step;
    match e
    case Spawn(name, params) => KeepsSpawn(s, name, params);
    case TakeId(c) => KeepsTakeId(s, c);
    case Register(c) => KeepsRegister(s, c);
    case WriteCopy(c) => KeepsWriteCopy(s, c);
    case GiveUp(c) => KeepsGiveUp(s, c);
    case Await(c) => KeepsAwait(s, c);
    case Incoming(resp) => KeepsIncoming(s, resp);
    case Deliver => KeepsDeliver(s);
    case Disconnect => KeepsDisconnect(s);
  }

  // ---------------------------------------------------------------- every interleaving

  predicate Runs(s: State, es: seq<Event>)
    decreases |es|
  {
    es == [] || (Enabled(s, es[0]) && Runs(Step(s, es[0]), es[1..]))
  }

  function Run(s: State, es: seq<Event>): (s': State)
    requires Runs(s, es)
    decreases |es|
  {
    if es == [] then s else Run(Step(s, es[0]), es[1..])
  }

  lemma {:induction false} RunKeepsInv(s: State, es: seq<Event>)
    requires Inv(s) && Runs(s, es)
    ensures Inv(Run(s, es))
    decreases |es|
  {
    hide Inv;
    hide Step;
    if es != [] {
      StepKeepsInv(s, es[0]);
      RunKeepsInv(Step(s, es[0]), es[1..]);
    }
  }

  /**
   Channel safety over every interleaving and every sequence of responses: what the reader is
   about to send goes to an open, empty channel of the call that has the response's id, no
   channel is ever closed twice, and a call only ever returns a response with its own id.
   */
  lemma ChannelSafety(es: seq<Event>)
    requires Runs(INITIAL, es)
    ensures var s := Run(INITIAL, es);
            && (s.reader.Holding? ==>
                  && s.reader.c < |s.calls|
                  && !s.calls[s.reader.c].chan.closed && s.calls[s.reader.c].chan.slot.None?
                  && s.calls[s.reader.c].id == s.reader.resp.msgid)
            && forall c :: 0 <= c < |s.calls| ==>
                 && s.calls[c].chan.closes <= 1
                 && (s.calls[c].stage.Returned? ==> s.calls[c].stage.resp.msgid == s.calls[c].id)
  {
    hide Step;
    assert Inv(INITIAL);
    RunKeepsInv(INITIAL, es);
    var s := Run(INITIAL, es);
    forall c | 0 <= c < |s.calls|
      ensures s.calls[c].chan.closes <= 1
      ensures s.calls[c].stage.Returned? ==> s.calls[c].stage.resp.msgid == s.calls[c].id
    {
      assert CallOk(s, c);
    }
  }

  /** A response whose id nobody waits for, or of another kind, changes nothing at all. */
  lemma UnknownIdIgnored(s: State, resp: Response)
    requires Inv(s) && Enabled(s, Incoming(resp))
    requires resp.kind != Responses.RPC_RESPONSE
             || forall c :: 0 <= c < |s.calls| ==> !(Listed(s, c) && s.calls[c].id == resp.msgid)
    ensures Step(s, Incoming(resp)) == s
  {
    if resp.msgid in s.pending {
      var c := s.pending[resp.msgid];
      assert s.calls[c].id == resp.msgid;
    }
  }

  /** A call that has registered and is no longer listed. */
  predicate Taken(s: State, c: nat)
  {
    c < |s.calls| && !s.calls[c].stage.Fresh? && !s.calls[c].stage.Numbered? && !Listed(s, c)
  }

  lemma StepKeepsTaken(s: State, e: Event, c: nat)
    requires Inv(s) && Enabled(s, e) && Taken(s, c)
    ensures Taken(Step(s, e), c) && Step(s, e).calls[c].id == s.calls[c].id
  {
    if e.Register? {
      assert IdsDistinct(s);
    }
  }

  lemma {:induction false} RunKeepsTaken(s: State, es: seq<Event>, c: nat)
    requires Inv(s) && Runs(s, es) && Taken(s, c)
    ensures Taken(Run(s, es), c) && Run(s, es).calls[c].id == s.calls[c].id
    decreases |es|
  {
    hide Inv;
    hide Step;
    hide Taken;
    if es != [] {
      TakenInRange(s, c);
      StepKeepsInv(s, es[0]);
      StepKeepsTaken(s, es[0], c);
      TakenInRange(Step(s, es[0]), c);
      RunKeepsTaken(Step(s, es[0]), es[1..], c);
    }
  }

  lemma TakenInRange(s: State, c: nat)
    requires Taken(s, c)
    ensures c < |s.calls|
  {
  }

  /**
   Once a response has been taken for a pending call, no later response with the same id
   changes anything, whatever happened in between.
   */
  lemma DuplicateIgnored(s: State, first: Response, es: seq<Event>, second: Response)
    requires Inv(s) && Enabled(s, Incoming(first))
    requires first.kind == Responses.RPC_RESPONSE && first.msgid in s.pending
    requires Runs(Step(s, Incoming(first)), es)
    requires second.msgid == first.msgid && Enabled(Run(Step(s, Incoming(first)), es), Incoming(second))
    ensures var s' := Run(Step(s, Incoming(first)), es); Step(s', Incoming(second)) == s'
  {
    var s1 := Step(s, Incoming(first));
    var c := s.pending[first.msgid];
    StepKeepsInv(s, Incoming(first));
    assert Taken(s1, c) && s1.calls[c].id == first.msgid;
    RunKeepsInv(s1, es);
    RunKeepsTaken(s1, es, c);
    hide Step;
    var s' := Run(s1, es);
    forall d | 0 <= d < |s'.calls| ensures !(Listed(s', d) && s'.calls[d].id == second.msgid) {
      assert d != c && Listed(s', d) ==> HasId(s'.calls[d]) by { assert CallOk(s', d); }
    }
    UnknownIdIgnored(s', second);
  }

  /** Delivering a response touches the channel of one call and no other call. */
  lemma DeliverTouchesOne(s: State, c: nat)
    requires Inv(s) && Enabled(s, Deliver) && c < |s.calls| && c != s.reader.c
    ensures Step(s, Deliver).calls[c] == s.calls[c]
    ensures Step(s, Deliver).pending == s.pending
    ensures s.calls[c].id != s.reader.resp.msgid || !HasId(s.calls[c])
  {
    assert CallOk(s, c);
    var h := s.reader.c;
    if HasId(s.calls[c]) {
      assert s.calls[if h < c then h else c].id != s.calls[if h < c then c else h].id;
    }
  }

  /**
   Shutdown: right after the reader exits the pending map is empty, and every call that had
   registered has ended, holds a response, or has a closed channel.
   */
  lemma Shutdown(s: State)
    requires Inv(s) && Enabled(s, Disconnect)
    ensures var s' := Step(s, Disconnect);
            && s'.pending == map[] && s'.reader.Exited?
            && forall c :: 0 <= c < |s'.calls| && Active(s'.calls[c]) ==>
                 s'.calls[c].chan.slot.Some? || s'.calls[c].chan.closed
  {
    KeepsDisconnect(s);
    var s' := Step(s, Disconnect);
    forall c | 0 <= c < |s'.calls| && Active(s'.calls[c])
      ensures s'.calls[c].chan.slot.Some? || s'.calls[c].chan.closed
    {
      assert CallOk(s', c) && CallOk(s, c);
    }
  }

  /**
   Once the reader is gone, a waiting call can go on exactly when it had registered before;
   one that registers later waits, whatever happens.
   */
  lemma WaitsForeverIffLate(s: State, c: nat)
    requires Inv(s) && s.reader.Exited? && c < |s.calls| && s.calls[c].stage.Waiting?
    ensures Enabled(s, Await(c)) <==> !s.calls[c].late
  {
    assert CallOk(s, c);
  }

  lemma {:induction false} LateCallHangs(s: State, c: nat, es: seq<Event>)
    requires Inv(s) && s.reader.Exited? && c < |s.calls| && s.calls[c].stage.Waiting? && s.calls[c].late
    requires Runs(s, es)
    ensures var s' := Run(s, es); c < |s'.calls| && s'.calls[c].stage.Waiting? && s'.reader.Exited?
    decreases |es|
  {
    hide Inv;
    if es != [] {
      WaitsForeverIffLate(s, c);
      StepKeepsInv(s, es[0]);
      LateCallHangs(Step(s, es[0]), c, es[1..]);
    }
  }

  lemma RunCons(s: State, e: Event, es: seq<Event>)
    requires Enabled(s, e) && Runs(Step(s, e), es)
    ensures Runs(s, [e] + es) && Run(s, [e] + es) == Run(Step(s, e), es)
  {
    hide Step;
    hide Enabled;
    assert ([e] + es)[1..] == es;
  }

  /** The connection drops, and only then does a call begin. */
  function LateRun(name: Bytes, params: seq<Object>): seq<Event>
  {
    [Disconnect] + ([Spawn(name, params)] + ([TakeId(0)] + ([Register(0)] + Copies(0))))
  }

  /** So late calls exist. */
  lemma LateCallReachable(name: Bytes, params: seq<Object>)
    ensures Runs(INITIAL, LateRun(name, params))
    ensures var s := Run(INITIAL, LateRun(name, params));
            |s.calls| == 1 && s.calls[0].stage.Waiting? && s.calls[0].late && s.reader.Exited?
  {
    var s1 := Step(INITIAL, Disconnect);
    var s2 := Step(s1, Spawn(name, params));
    var s3 := Step(s2, TakeId(0));
    var s4 := Step(s3, Register(0));
    CopiesWait(s4, 0);
    hide Step;
    RunCons(s3, Register(0), Copies(0));
    RunCons(s2, TakeId(0), [Register(0)] + Copies(0));
    RunCons(s1, Spawn(name, params), [TakeId(0)] + ([Register(0)] + Copies(0)));
    RunCons(INITIAL, Disconnect, [Spawn(name, params)] + ([TakeId(0)] + ([Register(0)] + Copies(0))));
  }

  // ---------------------------------------------------------------- answers arrive

  /** The three steps of an answer: taken, delivered, received. */
  lemma AnswerSteps(s: State, c: nat, resp: Response)
    requires Inv(s) && s.reader.Idle? && c < |s.calls| && s.calls[c].stage.Waiting? && Listed(s, c)
    requires resp.kind == 1 && resp.msgid == s.calls[c].id
    ensures var s1 := Step(s, Incoming(resp));
            && Enabled(s1, Deliver)
            && var s2 := Step(s1, Deliver);
               && Enabled(s2, Await(c))
               && var s3 := Step(s2, Await(c));
                  c < |s3.calls| && s3.calls[c].stage == Returned(resp)
  {
    assert CallOk(s, c);
    var s1 := Step(s, Incoming(resp));
    assert s1.reader == Holding(c, resp);
    var s2 := Step(s1, Deliver);
    assert s2.calls[c].chan.slot == Some(resp) && s2.calls[c].stage.Waiting?;
  }

  /**
   From every reachable state, a response for a waiting call can be taken, delivered and
   received, and then the call has returned exactly that response.
   */
  lemma AnswerReturns(s: State, c: nat, resp: Response)
    requires Inv(s) && s.reader.Idle? && c < |s.calls| && s.calls[c].stage.Waiting? && Listed(s, c)
    requires resp.kind == 1 && resp.msgid == s.calls[c].id
    ensures var es := [Incoming(resp)] + ([Deliver] + ([Await(c)] + []));
            Runs(s, es) && c < |Run(s, es).calls| && Run(s, es).calls[c].stage == Returned(resp)
  {
    AnswerSteps(s, c, resp);
    var s1 := Step(s, Incoming(resp));
    var s2 := Step(s1, Deliver);
    hide Step;
    RunCons(s2, Await(c), []);
    RunCons(s1, Deliver, [Await(c)] + []);
    RunCons(s, Incoming(resp), [Deliver] + ([Await(c)] + []));
  }

  /** The call waits and its response is with the reader or in its channel, or it has returned it. */
  predicate Has(s: State, c: nat, resp: Response)
  {
    && c < |s.calls|
    && var k := s.calls[c];
       || k.stage == Returned(resp)
       || (k.stage.Waiting? && (s.reader == Holding(c, resp) || k.chan.slot == Some(resp)))
  }

  lemma StepKeepsHas(s: State, e: Event, c: nat, resp: Response)
    requires Inv(s) && Enabled(s, e) && Has(s, c, resp)
    ensures Has(Step(s, e), c, resp)
  {
    assert CallOk(s, c);
    if e.Disconnect? { assert !Listed(s, c); }
  }

  /** Once taken, a response is not lost: whatever happens, the call still waits or has returned just that. */
  lemma {:induction false} TakenIsReturned(s: State, es: seq<Event>, c: nat, resp: Response)
    requires Inv(s) && Runs(s, es) && Has(s, c, resp)
    ensures Has(Run(s, es), c, resp)
    decreases |es|
  {
    hide Inv;
    hide Step;
    hide Has;
    if es != [] {
      StepKeepsInv(s, es[0]);
      StepKeepsHas(s, es[0], c, resp);
      TakenIsReturned(Step(s, es[0]), es[1..], c, resp);
    }
  }

  /** A waiting call ends only in its own receive: it returns what the channel holds, or fails on a closed empty one. */
  lemma WaitingEndsIff(s: State, e: Event, c: nat)
    requires Inv(s) && Enabled(s, e) && c < |s.calls| && s.calls[c].stage.Waiting?
    ensures var k, k' := s.calls[c], Step(s, e).calls[c];
            && (k'.stage.Failed? <==> e == Await(c) && k.chan.slot.None? && k.chan.closed)
            && (k'.stage.Returned? <==> e == Await(c) && k.chan.slot.Some?)
            && (k'.stage.Returned? ==> k'.stage.resp == k.chan.slot.value)
            && (k'.stage.Waiting? <==> e != Await(c))
  {
  }

  /** A call that gives up has failed and is no longer listed; no other call changes. */
  lemma GivingUp(s: State, c: nat)
    requires Inv(s) && c < |s.calls| && s.calls[c].stage.Writing?
    ensures Enabled(s, GiveUp(c))
    ensures var s' := Step(s, GiveUp(c));
            && s'.calls[c].stage.Failed? && s.calls[c].id !in s'.pending
            && (forall d :: 0 <= d < |s.calls| && d != c ==> s'.calls[d] == s.calls[d])
            && (forall d :: 0 <= d < |s.calls| && d != c ==> (Listed(s', d) <==> Listed(s, d)))
  {
    assert CallOk(s, c);
    forall d | 0 <= d < |s.calls| && d != c ensures Listed(Step(s, GiveUp(c)), d) <==> Listed(s, d) {
      if Listed(s, d) {
        assert CallOk(s, d);
        assert Active(s.calls[d]);
        assert s.calls[if d < c then d else c].id != s.calls[if d < c then c else d].id;
      }
    }
  }

  /** When the reader exits, exactly the channels of the listed calls are closed. */
  lemma DisconnectCloses(s: State, c: nat)
    requires Inv(s) && Enabled(s, Disconnect) && c < |s.calls|
    ensures var k, k' := s.calls[c], Step(s, Disconnect).calls[c];
            if Listed(s, c) then k' == k.(chan := Channel(None, true, 1)) else k' == k
  {
    assert CallOk(s, c);
  }

  /** The three steps of a call before it writes. */
  lemma BeginSteps(s: State, name: Bytes, params: seq<Object>)
    requires s.reader.Idle? && s.counter == s.taken && s.taken + 1 < 0x1_0000_0000
    ensures var c := |s.calls|;
            && Enabled(s, Spawn(name, params))
            && var s1 := Step(s, Spawn(name, params));
               && Enabled(s1, TakeId(c))
               && var s2 := Step(s1, TakeId(c));
                  && Enabled(s2, Register(c))
                  && Begun(Step(s2, Register(c)), c, s.counter + 1, name, params)
  {
  }

  /** Call `c` is registered under `id`, idle reader, nothing written yet. */
  predicate Begun(s: State, c: nat, id: UInt32, name: Bytes, params: seq<Object>)
  {
    && s.reader.Idle? && |s.calls| == c + 1 && id in s.pending && s.pending[id] == c
    && s.calls[c] == Call(Writing(0), id, NEW_CHANNEL, false, name, params)
  }

  /** A call that begins while the reader is idle gets the next id, is listed, and waits once it has written. */
  lemma CallBegins(s: State, name: Bytes, params: seq<Object>)
    requires Inv(s) && s.reader.Idle? && s.taken + 1 < 0x1_0000_0000
    ensures var c := |s.calls|;
            var es := [Spawn(name, params)] + ([TakeId(c)] + ([Register(c)] + Copies(c)));
            && Runs(s, es)
            && var s' := Run(s, es);
               && c < |s'.calls| && s'.calls[c] == Call(Waiting, s.counter + 1, NEW_CHANNEL, false, name, params)
               && Listed(s', c) && s'.reader.Idle? && Inv(s')
  {
    var c := |s.calls|;
    var s1 := Step(s, Spawn(name, params));
    var s2 := Step(s1, TakeId(c));
    var s3 := Step(s2, Register(c));
    BeginSteps(s, name, params);
    CopiesWait(s3, c);
    hide Step;
    hide Enabled;
    var es := [Spawn(name, params)] + ([TakeId(c)] + ([Register(c)] + Copies(c)));
    RunCons(s2, Register(c), Copies(c));
    RunCons(s1, TakeId(c), [Register(c)] + Copies(c));
    RunCons(s, Spawn(name, params), [TakeId(c)] + ([Register(c)] + Copies(c)));
    RunKeepsInv(s, es);
  }

  function Copies(c: nat): seq<Event> { [WriteCopy(c)] + ([WriteCopy(c)] + ([WriteCopy(c)] + [])) }

  lemma CopiesWait(s: State, c: nat)
    requires c < |s.calls| && s.calls[c].stage == Writing(0)
    ensures Runs(s, Copies(c)) && Run(s, Copies(c)) == Put(s, c, s.calls[c].(stage := Waiting))
  {
    var s1 := Step(s, WriteCopy(c));
    var s2 := Step(s1, WriteCopy(c));
    var s3 := Step(s2, WriteCopy(c));
    assert s3 == Put(s, c, s.calls[c].(stage := Waiting));
    RunCons(s2, WriteCopy(c), []);
    RunCons(s1, WriteCopy(c), [WriteCopy(c)] + []);
    RunCons(s, WriteCopy(c), [WriteCopy(c)] + ([WriteCopy(c)] + []));
  }
}
