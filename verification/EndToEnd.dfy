/**
 The client, the wire and the server together: what a Call returns is what the dispatcher
 answered to that Call.  The transport carries whole messages, may repeat them, and may
 reorder them.  A request may be encoded in any way that the server's decoder understands;
 replies are encoded and decoded by the codecs of this project.
 */
module EndToEnd {
  import opened Wire
  import opened Dispatcher
  import opened Objects
  import Answers
  import Client
  import RequestForms
  import Requests
  import Responses
  import Server

  type Response = Responses.Response

  /** A request on the wire and the call that wrote it. */
  datatype Sent = Sent(owner: nat, bytes: Bytes)

  /** One dispatch: for which call, in which context, with which answer. */
  datatype Entry = Entry(owner: nat, ctx: Context, env: Oracle, request: Requests.Request, response: Option<Response>)

  /** A reply on the wire and the dispatch that produced it. */
  datatype Reply = Reply(entry: nat, bytes: Bytes)

  datatype System = System(client: Client.State, server: Server.State,
                           requests: seq<Sent>, log: seq<Entry>, replies: seq<Reply>)

  datatype Event =
    | ClientStep(e: Client.Event)        // anything but a message going out or coming in
    | SendCopy(c: nat, bytes: Bytes)     // one of the copies a Call writes
    | GiveUpAfterSending(c: nat, bytes: Bytes) // a write reports an error though the request got through
    | OtherRequest(bytes: Bytes)         // the server works for another connection
    | ServeRequest(i: nat)               // a request arrives at the server, maybe not for the first time
    | ReceiveReply(j: nat)               // a reply arrives at the client, maybe not for the first time

  function RequestOf(k: Client.Call): Requests.Request
  {
    Requests.Request(Requests.RPC_REQUEST, k.id, Some(k.name), k.params)
  }

  /** Bytes from which the server reads exactly this request and nothing more. */
  predicate Carries(q: Requests.Request, bytes: Bytes)
    requires q.name.Some?
  {
    Requests.Decode(bytes) == (Some(Requests.Normal(q)), |bytes|)
  }

  /** The writer of Request.c makes such bytes for every request with flat parameters. */
  lemma WriterCarries(q: Requests.Request)
    requires Server.Sendable(q)
    ensures Carries(q, Requests.Marshal(q))
  {
    hide Requests.Decode;
    hide Requests.Marshal;
    hide Requests.Normal;
    Requests.RequestFraming(q, []);
    assert Requests.Marshal(q) + [] == Requests.Marshal(q);
  }

  /** And so are all others that spell the request as the server hands it to the dispatcher. */
  lemma SpellingCarries(q: Requests.Request, bytes: Bytes)
    requires q.name.Some? && RequestForms.SpelledRequest(Requests.Normal(q), bytes)
    ensures Carries(q, bytes)
  {
    hide Requests.Decode;
    hide Requests.Normal;
    hide RequestForms.SpelledRequest;
    assert bytes + [] == bytes;
    RequestForms.SpelledRequestReads(Requests.Normal(q), bytes, []);
  }

  /** The response as the client decodes it. */
  function Delivered(r: Response): Response
  {
    Responses.Response(Responses.RPC_RESPONSE, r.msgid, Responses.DropNil(Responses.Canon(r.error)),
                       Responses.DropNil(Responses.Canon(r.result)))
  }

  predicate Enabled(s: System, e: Event)
  {
    match e
    case ClientStep(e) =>
      Client.Enabled(s.client, e) && !e.WriteCopy? && !e.Incoming?
    case SendCopy(c, bytes) =>
      Client.Enabled(s.client, Client.WriteCopy(c)) && Carries(RequestOf(s.client.calls[c]), bytes)
    case GiveUpAfterSending(c, bytes) =>
      Client.Enabled(s.client, Client.GiveUp(c)) && Carries(RequestOf(s.client.calls[c]), bytes)
    case OtherRequest(_) => true
    case ServeRequest(i) => i < |s.requests|
    case ReceiveReply(j) =>
      && j < |s.replies| && s.client.reader.Idle?
      && Responses.Unmarshal(s.replies[j].bytes).Some?
  }

  function Step(w: Server.World, s: System, e: Event): (s': System)
    requires Enabled(s, e)
  {
    match e
    case ClientStep(e) => s.(client := Client.Step(s.client, e))
    case SendCopy(c, bytes) =>
      s.(client := Client.Step(s.client, Client.WriteCopy(c)), requests := s.requests + [Sent(c, bytes)])
    case GiveUpAfterSending(c, bytes) =>
      s.(client := Client.Step(s.client, Client.GiveUp(c)), requests := s.requests + [Sent(c, bytes)])
    case OtherRequest(bytes) =>
      var db := ServerDispatch(s.server.ctx, w(s.server.served), bytes);
      if !db.ok then s else s.(server := Server.State(db.ctx, s.server.served + 1))
    case ServeRequest(i) =>
      var m := s.requests[i];
      var env := w(s.server.served);
      var q := Requests.Decode(m.bytes).0;
      var db := ServerDispatch(s.server.ctx, env, m.bytes);
      if q.None? then s
      else
        s.(server := Server.State(db.ctx, s.server.served + 1),
           log := s.log + [Entry(m.owner, s.server.ctx, env, q.value, Dispatch(s.server.ctx, env, q.value).1)],
           replies := if db.response.None? then s.replies else s.replies + [Reply(|s.log|, db.response.value)])
    case ReceiveReply(j) =>
      s.(client := Client.Step(s.client, Client.Incoming(Responses.Unmarshal(s.replies[j].bytes).value)))
  }

  // ---------------------------------------------------------------- invariant

  /** A response that some dispatch in the log produced. */
  predicate Genuine(log: seq<Entry>, r: Response)
  {
    exists k :: 0 <= k < |log| && log[k].response.Some? && r == Delivered(log[k].response.value)
  }

  predicate CallGenuine(log: seq<Entry>, k: Client.Call)
  {
    && (k.chan.slot.Some? ==> Genuine(log, k.chan.slot.value))
    && (k.stage.Returned? ==> Genuine(log, k.stage.resp))
  }

  predicate ClientGenuine(log: seq<Entry>, c: Client.State)
  {
    && (forall i :: 0 <= i < |c.calls| ==> CallGenuine(log, c.calls[i]))
    && (c.reader.Holding? ==> Genuine(log, c.reader.resp))
  }

  predicate Owned(c: Client.State, owner: nat)
  {
    owner < |c.calls| && Client.HasId(c.calls[owner])
  }

  predicate SentOk(c: Client.State, m: Sent)
  {
    Owned(c, m.owner) && Carries(RequestOf(c.calls[m.owner]), m.bytes)
  }

  predicate EntryOk(c: Client.State, e: Entry)
  {
    && Owned(c, e.owner) && e.request == Requests.Normal(RequestOf(c.calls[e.owner]))
    && e.response == Dispatch(e.ctx, e.env, e.request).1
  }

  predicate ReplyOk(log: seq<Entry>, r: Reply)
  {
    r.entry < |log| && log[r.entry].response.Some? && r.bytes == Responses.Marshal(log[r.entry].response.value)
  }

  predicate Inv(s: System)
  {
    && Client.Inv(s.client)
    && (forall i :: 0 <= i < |s.requests| ==> SentOk(s.client, s.requests[i]))
    && (forall i :: 0 <= i < |s.log| ==> EntryOk(s.client, s.log[i]))
    && (forall i :: 0 <= i < |s.replies| ==> ReplyOk(s.log, s.replies[i]))
    && ClientGenuine(s.log, s.client)
  }

  // ---------------------------------------------------------------- steps

  /** What identifies a call never changes once it has its id. */
  lemma CallsStable(c: Client.State, e: Client.Event, i: nat)
    requires Client.Enabled(c, e) && i < |c.calls|
    ensures var c' := Client.Step(c, e);
            && i < |c'.calls|
            && (Client.HasId(c.calls[i]) ==>
                  Client.HasId(c'.calls[i]) && RequestOf(c'.calls[i]) == RequestOf(c.calls[i]))
  {
  }

  lemma OwnedStable(c: Client.State, e: Client.Event, owner: nat)
    requires Client.Enabled(c, e) && Owned(c, owner)
    ensures Owned(Client.Step(c, e), owner)
    ensures RequestOf(Client.Step(c, e).calls[owner]) == RequestOf(c.calls[owner])
  {
    CallsStable(c, e, owner);
  }

  /** Responses inside the client only move; they come in through the reader alone. */
  lemma ProvenanceKept(log: seq<Entry>, c: Client.State, e: Client.Event)
    requires Client.Enabled(c, e) && ClientGenuine(log, c)
    requires e.Incoming? ==> Genuine(log, e.resp)
    ensures ClientGenuine(log, Client.Step(c, e))
  {
    hide Genuine;
    var c' := Client.Step(c, e);
    forall i | 0 <= i < |c'.calls| ensures CallGenuine(log, c'.calls[i]) {
      if i < |c.calls| {
        assert CallGenuine(log, c.calls[i]);
      }
    }
  }

  lemma ClientStepKeeps(s: System, e: Client.Event)
    requires Inv(s) && Client.Enabled(s.client, e)
    requires e.Incoming? ==> Genuine(s.log, e.resp)
    ensures Inv(s.(client := Client.Step(s.client, e)))
  {
    hide Client.Inv;
    hide Client.Enabled;
    hide Genuine;
    hide Carries;
    hide Dispatch;
    hide Requests.Normal;
    Client.StepKeepsInv(s.client, e);
    ProvenanceKept(s.log, s.client, e);
    var c' := Client.Step(s.client, e);
    hide Client.Step;
    forall i | 0 <= i < |s.requests| ensures SentOk(c', s.requests[i]) {
      OwnedStable(s.client, e, s.requests[i].owner);
    }
    forall i | 0 <= i < |s.log| ensures EntryOk(c', s.log[i]) {
      OwnedStable(s.client, e, s.log[i].owner);
    }
  }

  /** A copy of a request on the wire is recorded with the call that wrote it. */
  lemma RecordSent(s: System, c: nat, bytes: Bytes)
    requires Inv(s) && c < |s.client.calls| && Client.HasId(s.client.calls[c])
    requires Carries(RequestOf(s.client.calls[c]), bytes)
    ensures Inv(s.(requests := s.requests + [Sent(c, bytes)]))
  {
    hide Client.Inv;
    hide Genuine;
    hide Dispatch;
    hide Carries;
    hide Requests.Normal;
  }

  lemma GenuineGrows(log: seq<Entry>, e: Entry, c: Client.State)
    requires ClientGenuine(log, c)
    ensures ClientGenuine(log + [e], c)
  {
    forall r | Genuine(log, r) ensures Genuine(log + [e], r) {
      var k :| 0 <= k < |log| && log[k].response.Some? && r == Delivered(log[k].response.value);
      assert (log + [e])[k] == log[k];
    }
    hide Genuine;
    forall i | 0 <= i < |c.calls| ensures CallGenuine(log + [e], c.calls[i]) {
      assert CallGenuine(log, c.calls[i]);
    }
  }

  lemma ServeKeeps(w: Server.World, s: System, i: nat)
    requires Inv(s) && Enabled(s, ServeRequest(i))
    ensures Inv(Step(w, s, ServeRequest(i)))
  {
    hide Client.Inv;
    hide Genuine;
    hide Dispatch;
    hide Requests.Decode;
    hide Requests.Normal;
    hide Responses.Marshal;
    hide ClientGenuine;
    assert SentOk(s.client, s.requests[i]);
    var s' := Step(w, s, ServeRequest(i));
    var e := s'.log[|s.log|];
    assert s'.log == s.log + [e] && EntryOk(s.client, e);
    GenuineGrows(s.log, e, s.client);
    forall j | 0 <= j < |s'.replies| ensures ReplyOk(s'.log, s'.replies[j]) {
      if j < |s.replies| {
        assert ReplyOk(s.log, s.replies[j]);
      }
    }
  }

  /** A reply on the wire decodes to the response that was dispatched. */
  lemma ReplyDecodes(c: Client.State, log: seq<Entry>, r: Reply)
    requires ReplyOk(log, r) && EntryOk(c, log[r.entry])
    ensures Responses.Unmarshal(r.bytes) == Some(Delivered(log[r.entry].response.value))
    ensures Genuine(log, Delivered(log[r.entry].response.value))
  {
    hide Dispatch;
    hide Responses.Marshal;
    hide Responses.Decode;
    hide Responses.Canon;
    hide Requests.Normal;
    var e := log[r.entry];
    OneSided(e.ctx, e.env, e.request);
    var resp := e.response.value;
    assert r.bytes + [] == r.bytes;
    Responses.ResponseRoundTrip(resp, []);
  }

  lemma StepKeepsInv(w: Server.World, s: System, e: Event)
    requires Inv(s) && Enabled(s, e)
    ensures Inv(Step(w, s, e))
  {
    hide Inv;
    hide Client.Step;
    hide Client.Enabled;
    hide Carries;
    hide Responses.Unmarshal;
    hide ServerDispatch;
    hide Dispatch;
    hide Requests.Decode;
    match e
    case ClientStep(ce) => ClientStepKeeps(s, ce);
    case SendCopy(c, bytes) => SendKeeps(s, Client.WriteCopy(c), c, bytes);
    case GiveUpAfterSending(c, bytes) => SendKeeps(s, Client.GiveUp(c), c, bytes);
    case OtherRequest(bytes) =>
      var db := ServerDispatch(s.server.ctx, w(s.server.served), bytes);
      ServerStateIsFree(s, Server.State(db.ctx, s.server.served + 1));
    case ServeRequest(i) => ServeKeeps(w, s, i);
    case ReceiveReply(j) =>
      var resp := Responses.Unmarshal(s.replies[j].bytes).value;
      ReplyIsGenuine(s, j);
      IdleTakes(s.client, resp);
      ClientStepKeeps(s, Client.Incoming(resp));
  }

  lemma IdleTakes(c: Client.State, resp: Response)
    requires c.reader.Idle?
    ensures Client.Enabled(c, Client.Incoming(resp))
  {
  }

  /** The invariant does not depend on the server's context: each entry keeps the one it was dispatched in. */
  lemma ServerStateIsFree(s: System, server: Server.State)
    requires Inv(s)
    ensures Inv(s.(server := server))
  {
    hide Client.Inv;
    hide Dispatch;
    hide Carries;
    hide Genuine;
    hide Requests.Normal;
    hide Responses.Marshal;
  }

  lemma SendKeeps(s: System, ce: Client.Event, c: nat, bytes: Bytes)
    requires Inv(s) && Client.Enabled(s.client, ce) && (ce == Client.WriteCopy(c) || ce == Client.GiveUp(c))
    requires Carries(RequestOf(s.client.calls[c]), bytes)
    ensures Inv(s.(client := Client.Step(s.client, ce), requests := s.requests + [Sent(c, bytes)]))
  {
    hide Inv;
    hide Client.Step;
    hide Carries;
    ClientStepKeeps(s, ce);
    CallsStable(s.client, ce, c);
    RecordSent(s.(client := Client.Step(s.client, ce)), c, bytes);
  }

  /** Whatever the client decodes from the wire, a dispatch produced. */
  lemma ReplyIsGenuine(s: System, j: nat)
    requires Inv(s) && j < |s.replies|
    ensures Responses.Unmarshal(s.replies[j].bytes).Some?
    ensures Genuine(s.log, Responses.Unmarshal(s.replies[j].bytes).value)
  {
    hide Client.Inv;
    hide Genuine;
    hide Responses.Unmarshal;
    hide Responses.Marshal;
    hide Requests.Marshal;
    hide Requests.Normal;
    hide Dispatch;
    var r := s.replies[j];
    assert ReplyOk(s.log, r) && EntryOk(s.client, s.log[r.entry]);
    ReplyDecodes(s.client, s.log, r);
  }

  // ---------------------------------------------------------------- whole runs

  predicate Runs(w: Server.World, s: System, es: seq<Event>)
    decreases |es|
  {
    es == [] || (Enabled(s, es[0]) && Runs(w, Step(w, s, es[0]), es[1..]))
  }

  function Run(w: Server.World, s: System, es: seq<Event>): (s': System)
    requires Runs(w, s, es)
    decreases |es|
  {
    if es == [] then s else Run(w, Step(w, s, es[0]), es[1..])
  }

  lemma {:induction false} RunKeepsInv(w: Server.World, s: System, es: seq<Event>)
    requires Inv(s) && Runs(w, s, es)
    ensures Inv(Run(w, s, es))
    decreases |es|
  {
    hide Inv;
    hide Step;
    if es != [] {
      StepKeepsInv(w, s, es[0]);
      RunKeepsInv(w, Step(w, s, es[0]), es[1..]);
    }
  }

  function Start(ctx: Context): System
  {
    System(Client.INITIAL, Server.State(ctx, 0), [], [], [])
  }

  /** The dispatch that explains what a call returned. */
  predicate Explains(e: Entry, c: nat, k: Client.Call)
  {
    && k.stage.Returned?
    && e.owner == c && e.request == Requests.Normal(RequestOf(k))
    && e.response == Dispatch(e.ctx, e.env, e.request).1
    && e.response.Some? && e.response.value.msgid == k.id
    && k.stage.resp == Delivered(e.response.value)
    && (k.stage.resp.error.Null? || k.stage.resp.result.Null?)
  }

  /**
   Over every interleaving of fewer than 2^32 calls, however their requests are encoded and
   whatever other connections do: whatever a Call returns is the answer the dispatcher gave to a
   request with that Call's own id, method and parameters, and it never carries both an error
   and a result.
   */
  lemma EveryCallGetsItsOwnAnswer(w: Server.World, ctx: Context, es: seq<Event>, c: nat)
    requires Runs(w, Start(ctx), es)
    requires var s := Run(w, Start(ctx), es); c < |s.client.calls| && s.client.calls[c].stage.Returned?
    ensures var s := Run(w, Start(ctx), es);
            exists k :: 0 <= k < |s.log| && Explains(s.log[k], c, s.client.calls[c])
  {
    hide Runs;
    hide Run;
    assert Inv(Start(ctx));
    RunKeepsInv(w, Start(ctx), es);
    var s := Run(w, Start(ctx), es);
    ReturnedExplained(s, c);
  }

  lemma ReturnedExplained(s: System, c: nat)
    requires Inv(s) && c < |s.client.calls| && s.client.calls[c].stage.Returned?
    ensures exists k :: 0 <= k < |s.log| && Explains(s.log[k], c, s.client.calls[c])
  {
    hide Dispatch;
    hide Requests.Normal;
    hide Requests.Marshal;
    hide Responses.Marshal;
    var call := s.client.calls[c];
    assert CallGenuine(s.log, call) && Client.CallOk(s.client, c);
    var k :| 0 <= k < |s.log| && s.log[k].response.Some? && call.stage.resp == Delivered(s.log[k].response.value);
    var e := s.log[k];
    assert EntryOk(s.client, e);
    OneSided(e.ctx, e.env, e.request);
    NormalKeepsId(RequestOf(s.client.calls[e.owner]));
    SameIdSameCall(s.client, e.owner, c);
    assert Explains(e, c, call);
  }

  lemma NormalKeepsId(q: Requests.Request)
    requires q.name.Some?
    ensures Requests.Normal(q).msgid == q.msgid
  {
  }

  lemma SameIdSameCall(s: Client.State, a: nat, b: nat)
    requires Client.Inv(s) && a < |s.calls| && b < |s.calls|
    requires Client.HasId(s.calls[a]) && Client.HasId(s.calls[b]) && s.calls[a].id == s.calls[b].id
    ensures a == b
  {
    assert Client.IdsDistinct(s);
  }

  // ---------------------------------------------------------------- answers arrive

  lemma RunCons(w: Server.World, s: System, e: Event, es: seq<Event>)
    requires Enabled(s, e) && Runs(w, Step(w, s, e), es)
    ensures Runs(w, s, [e] + es) && Run(w, s, [e] + es) == Run(w, Step(w, s, e), es)
  {
    hide Step;
    hide Enabled;
    assert ([e] + es)[1..] == es;
  }

  /** What the dispatcher would say now to the request of call `c`. */
  function AnswerTo(w: Server.World, s: System, c: nat): Option<Response>
    requires c < |s.client.calls|
  {
    Dispatch(s.server.ctx, w(s.server.served), Requests.Normal(RequestOf(s.client.calls[c]))).1
  }

  /** One reply more, which the client will decode as `resp`. */
  predicate ReplyAdded(s: System, s': System, resp: Response)
  {
    && s'.client == s.client && |s'.replies| == |s.replies| + 1
    && Responses.Unmarshal(s'.replies[|s.replies|].bytes) == Some(resp)
  }

  /** Serving a request that has an answer puts that answer on the wire. */
  lemma ServingReplies(w: Server.World, s: System, i: nat, c: nat, answer: Response)
    requires Enabled(s, ServeRequest(i)) && c < |s.client.calls| && s.requests[i].owner == c
    requires SentOk(s.client, s.requests[i])
    ensures AnswerTo(w, s, c) == Some(answer) ==> ReplyAdded(s, Step(w, s, ServeRequest(i)), Delivered(answer))
  {
    hide Dispatch;
    hide Requests.Decode;
    hide Requests.Normal;
    hide Responses.Marshal;
    hide Responses.Decode;
    var q := Requests.Normal(RequestOf(s.client.calls[c]));
    OneSided(s.server.ctx, w(s.server.served), q);
    assert Responses.Marshal(answer) + [] == Responses.Marshal(answer);
    Responses.ResponseRoundTrip(answer, []);
  }

  /** The server after handling whatever request these bytes begin with, alone. */
  function ServedAlone(w: Server.World, server: Server.State, bytes: Bytes): Server.State
  {
    match Requests.Decode(bytes).0
    case None => server
    case Some(q) => Server.Serve(w, server, q).0
  }

  /** Serving a request of a call, or of another connection, moves the server as handling it alone would. */
  lemma ServingAdvances(w: Server.World, s: System, i: nat, bytes: Bytes)
    requires Enabled(s, ServeRequest(i)) && i < |s.requests|
    ensures Step(w, s, ServeRequest(i)).server == ServedAlone(w, s.server, s.requests[i].bytes)
    ensures Step(w, s, OtherRequest(bytes)) == s.(server := ServedAlone(w, s.server, bytes))
  {
    hide Requests.Decode;
    hide Dispatch;
    hide Responses.Marshal;
  }

  lemma AnswerIsForCall(w: Server.World, s: System, c: nat)
    requires c < |s.client.calls| && AnswerTo(w, s, c).Some?
    ensures var resp := Delivered(AnswerTo(w, s, c).value); resp.kind == 1 && resp.msgid == s.client.calls[c].id
  {
    hide Dispatch;
    hide Requests.Normal;
    hide Responses.Canon;
    OneSided(s.server.ctx, w(s.server.served), Requests.Normal(RequestOf(s.client.calls[c])));
    NormalKeepsId(RequestOf(s.client.calls[c]));
  }

  /**
   From every reachable state: when a waiting call's request is served, taken, delivered and
   received, the call returns the answer that the dispatcher gives to it.
   */
  lemma ServedCallReturns(w: Server.World, s: System, i: nat, c: nat)
    requires s.client.reader.Idle? && i < |s.requests| && s.requests[i].owner == c
    requires c < |s.client.calls| && s.client.calls[c].stage.Waiting? && Client.Listed(s.client, c)
    requires AnswerTo(w, s, c).Some?
    requires Inv(s)
    ensures var es := ServeAndReturn(i, |s.replies|, c);
            && Runs(w, s, es) && c < |Run(w, s, es).client.calls|
            && Run(w, s, es).client.calls[c].stage == Client.Returned(Delivered(AnswerTo(w, s, c).value))
  {
    hide AnswerTo;
    hide SentOk;
    hide Client.Inv;
    assert Client.Inv(s.client) && SentOk(s.client, s.requests[i]);
    hide Inv;
    AnswerIsForCall(w, s, c);
    ServingReplies(w, s, i, c, AnswerTo(w, s, c).value);
    var resp := Delivered(AnswerTo(w, s, c).value);
    var s1 := Step(w, s, ServeRequest(i));
    var rest := [ClientStep(Client.Deliver)] + ([ClientStep(Client.Await(c))] + []);
    hide Delivered;
    ReceivingReturns(w, s1, |s.replies|, c, resp);
    hide Step;
    RunCons(w, s, ServeRequest(i), [ReceiveReply(|s.replies|)] + rest);
  }

  /** A reply on the wire that carries the id of a waiting call makes it return. */
  lemma ReceivingReturns(w: Server.World, s: System, j: nat, c: nat, resp: Response)
    requires s.client.reader.Idle? && j < |s.replies| && Responses.Unmarshal(s.replies[j].bytes) == Some(resp)
    requires Client.Inv(s.client) && c < |s.client.calls| && s.client.calls[c].stage.Waiting?
    requires Client.Listed(s.client, c) && resp.kind == 1 && resp.msgid == s.client.calls[c].id
    ensures var es := [ReceiveReply(j)] + ([ClientStep(Client.Deliver)] + ([ClientStep(Client.Await(c))] + []));
            && Runs(w, s, es) && c < |Run(w, s, es).client.calls|
            && Run(w, s, es).client.calls[c].stage == Client.Returned(resp)
  {
    hide Responses.Unmarshal;
    hide Client.Inv;
    Client.AnswerSteps(s.client, c, resp);
    hide Client.Step;
    var s2 := Step(w, s, ReceiveReply(j));
    var s3 := Step(w, s2, ClientStep(Client.Deliver));
    RunCons(w, s3, ClientStep(Client.Await(c)), []);
    RunCons(w, s2, ClientStep(Client.Deliver), [ClientStep(Client.Await(c))] + []);
    RunCons(w, s, ReceiveReply(j), [ClientStep(Client.Deliver)] + ([ClientStep(Client.Await(c))] + []));
  }

  function ServeAndReturn(i: nat, j: nat, c: nat): seq<Event>
  {
    [ServeRequest(i)] + ([ReceiveReply(j)] + ([ClientStep(Client.Deliver)] + ([ClientStep(Client.Await(c))] + [])))
  }

  lemma {:induction false} RunConcat(w: Server.World, s: System, a: seq<Event>, b: seq<Event>)
    requires Runs(w, s, a) && Runs(w, Run(w, s, a), b)
    ensures Runs(w, s, a + b) && Run(w, s, a + b) == Run(w, Run(w, s, a), b)
    decreases |a|
  {
    hide Step;
    hide Enabled;
    if a == [] {
      assert a + b == b;
    } else {
      RunConcat(w, Step(w, s, a[0]), a[1..], b);
      assert (a + b)[1..] == a[1..] + b && (a + b)[0] == a[0];
    }
  }

  /** A call that is under way: its request is on the wire and it waits for the answer. */
  predicate UnderWay(s: System, c: nat, i: nat)
  {
    && s.client.reader.Idle? && i < |s.requests| && s.requests[i].owner == c
    && c < |s.client.calls| && s.client.calls[c].stage.Waiting? && Client.Listed(s.client, c)
  }

  function Begin(c: nat, name: Bytes, params: seq<Object>): seq<Event>
  {
    [ClientStep(Client.Spawn(name, params))]
    + ([ClientStep(Client.TakeId(c))] + ([ClientStep(Client.Register(c))] + []))
  }

  function Send(c: nat, bytes: Bytes): seq<Event>
  {
    [SendCopy(c, bytes)] + ([SendCopy(c, bytes)] + ([SendCopy(c, bytes)] + []))
  }

  lemma Begins(w: Server.World, s: System, name: Bytes, params: seq<Object>)
    requires s.client.reader.Idle? && s.client.counter + 1 < 0x1_0000_0000 && s.client.counter == s.client.taken
    ensures var c := |s.client.calls|;
            && Runs(w, s, Begin(c, name, params))
            && var s' := Run(w, s, Begin(c, name, params));
               && s' == s.(client := s'.client) && Client.Begun(s'.client, c, s.client.counter + 1, name, params)
  {
    hide Client.Step;
    hide Client.Enabled;
    hide Client.Begun;
    Client.BeginSteps(s.client, name, params);
    var c := |s.client.calls|;
    var s1 := Step(w, s, ClientStep(Client.Spawn(name, params)));
    var s2 := Step(w, s1, ClientStep(Client.TakeId(c)));
    RunCons(w, s2, ClientStep(Client.Register(c)), []);
    RunCons(w, s1, ClientStep(Client.TakeId(c)), [ClientStep(Client.Register(c))] + []);
    RunCons(w, s, ClientStep(Client.Spawn(name, params)),
            [ClientStep(Client.TakeId(c))] + ([ClientStep(Client.Register(c))] + []));
  }

  lemma Sends(w: Server.World, s: System, c: nat, bytes: Bytes)
    requires c < |s.client.calls| && s.client.calls[c].stage == Client.Writing(0)
    requires s.client.reader.Idle? && Client.Listed(s.client, c) && Carries(RequestOf(s.client.calls[c]), bytes)
    ensures Runs(w, s, Send(c, bytes))
    ensures var s' := Run(w, s, Send(c, bytes));
            && UnderWay(s', c, |s.requests|) && s'.server == s.server && s'.replies == s.replies
            && RequestOf(s'.client.calls[c]) == RequestOf(s.client.calls[c])
  {
    hide Carries;
    var s1 := Step(w, s, SendCopy(c, bytes));
    var s2 := Step(w, s1, SendCopy(c, bytes));
    var s3 := Step(w, s2, SendCopy(c, bytes));
    assert UnderWay(s3, c, |s.requests|);
    hide Step;
    RunCons(w, s2, SendCopy(c, bytes), []);
    RunCons(w, s1, SendCopy(c, bytes), [SendCopy(c, bytes)] + []);
    RunCons(w, s, SendCopy(c, bytes), [SendCopy(c, bytes)] + ([SendCopy(c, bytes)] + []));
  }

  /**
   From every reachable state with an idle reader, a new call can be made and, if the
   dispatcher answers its request, that answer is what it returns.
   */
  lemma CallCanReturn(w: Server.World, s: System, name: Bytes, params: seq<Object>, bytes: Bytes, answer: Response)
    returns (es: seq<Event>)
    requires s.client.reader.Idle? && s.client.counter + 1 < 0x1_0000_0000
    requires var q := Requests.Request(0, s.client.counter + 1, Some(name), params);
             && Carries(q, bytes)
             && Dispatch(s.server.ctx, w(s.server.served), Requests.Normal(q)).1 == Some(answer)
    requires Inv(s)
    ensures Runs(w, s, es) && |s.client.calls| < |Run(w, s, es).client.calls|
    ensures Run(w, s, es).client.calls[|s.client.calls|].stage == Client.Returned(Delivered(answer))
  {
    var c := |s.client.calls|;
    hide Carries;
    hide Dispatch;
    hide Requests.Normal;
    assert s.client.counter == s.client.taken;
    hide Inv;
    Begins(w, s, name, params);
    var s1 := Run(w, s, Begin(c, name, params));
    Sends(w, s1, c, bytes);
    var s2 := Run(w, s1, Send(c, bytes));
    RunKeepsInv(w, s, Begin(c, name, params));
    RunKeepsInv(w, s1, Send(c, bytes));
    assert AnswerTo(w, s2, c) == Some(answer);
    hide AnswerTo;
    hide Runs;
    hide Run;
    ServedCallReturns(w, s2, |s1.requests|, c);
    var last := ServeAndReturn(|s1.requests|, |s2.replies|, c);
    RunConcat(w, s1, Send(c, bytes), last);
    RunConcat(w, s, Begin(c, name, params), Send(c, bytes) + last);
    es := Begin(c, name, params) + (Send(c, bytes) + last);
  }

  /** In particular the first call of a client, a ping, can return "pong!". */
  lemma PingReturns(w: Server.World, ctx: Context) returns (es: seq<Event>)
    ensures Runs(w, Start(ctx), es) && 0 < |Run(w, Start(ctx), es).client.calls|
    ensures Run(w, Start(ctx), es).client.calls[0].stage
         == Client.Returned(Responses.Response(1, 1, Null, Str(Words(Pong))))
  {
    hide Inv;
    hide Carries;
    hide Requests.Marshal;
    hide Dispatch;
    hide Requests.Normal;
    hide Name;
    hide Words;
    hide Delivered;
    hide Run;
    hide Runs;
    StartKeeps(ctx);
    PingAnswered(ctx, w(0));
    PongDelivered();
    var q := Requests.Request(0, 1, Some(Name(Ping)), []);
    var answer := Responses.Response(1, 1, Null, Str(Words(Pong)));
    es := CallCanReturn(w, Start(ctx), Name(Ping), [], Requests.Marshal(q), answer);
  }

  lemma StartKeeps(ctx: Context)
    ensures Inv(Start(ctx))
  {
  }

  lemma PingAnswered(ctx: Context, env: Oracle)
    ensures var q := Requests.Request(0, 1, Some(Name(Ping)), []);
            && Carries(q, Requests.Marshal(q))
            && Dispatch(ctx, env, Requests.Normal(q)).1 == Some(Responses.Response(1, 1, Null, Str(Words(Pong))))
  {
    hide Carries;
    hide Requests.Marshal;
    hide Requests.Normal;
    hide Dispatch;
    hide Name;
    hide Words;
    var q := Requests.Request(0, 1, Some(Name(Ping)), []);
    PingRequest(q);
    WriterCarries(q);
    Answers.PingAnswers(ctx, env, q);
  }

  lemma PingRequest(q: Requests.Request)
    requires q == Requests.Request(0, 1, Some(Name(Ping)), [])
    ensures Server.Sendable(q) && Requests.Normal(q) == q
  {
    Answers.NamePlain(Ping);
    hide Name;
    assert Requests.Counted(q.params) == [];
    assert Cut(Name(Ping)) == Name(Ping);
  }

  lemma PongDelivered()
    ensures var r := Responses.Response(1, 1, Null, Str(Words(Pong))); Delivered(r) == r
  {
    Answers.WordsPlain(Pong);
    assert |Words(Pong)| == 5;
    hide Words;
    hide Delivered;
    hide CString;
    TextDelivered(1, Words(Pong));
  }

  /** A short text without NUL is delivered as it is. */
  lemma TextDelivered(id: UInt32, words: Bytes)
    requires CString(words) == words && |words| < UINT32_LIMIT
    ensures var r := Responses.Response(1, id, Null, Str(words)); Delivered(r) == r
  {
    hide CString;
    assert Cut(words) == words;
    hide Cut;
  }
}
