/**
 source/server/HazeServer.c, haze_on_read: bytes arrive in chunks, are appended to a growing
 buffer, and requests are decoded from its front until it is empty or the connection closes.
 */
module Server {
  import opened Wire
  import opened Dispatcher
  import Requests
  import Responses

  /** What the outside world answers to the n-th dispatch. */
  type World = nat -> Oracle

  /** The server side of a connection: the shared context and how many requests were dispatched. */
  datatype State = State(ctx: Context, served: nat)

  const BUFFER_LIMIT: nat := 4 * 1024 * 1024

  // ---------------------------------------------------------------- the simple form

  /** Handle one message. */
  function Serve(w: World, s: State, q: Requests.Request): (res: (State, seq<Bytes>))
  {
    var (ctx, reply) := Reply(s.ctx, w(s.served), q);
    (State(ctx, s.served + 1), if reply.None? then [] else [reply.value])
  }

  /** Handle messages one by one. */
  function ServeAll(w: World, s: State, qs: seq<Requests.Request>): (res: (State, seq<Bytes>))
    decreases |qs|
  {
    if qs == [] then (s, [])
    else
      var (s1, sent) := Serve(w, s, qs[0]);
      var (s2, more) := ServeAll(w, s1, qs[1..]);
      (s2, sent + more)
  }

  /** What the dispatcher answers to messages handled one by one; an import has no answer yet. */
  function AnswersTo(w: World, s: State, qs: seq<Requests.Request>): (rs: seq<Responses.Response>)
    decreases |qs|
  {
    if qs == [] then []
    else
      var (ctx, r) := Dispatch(s.ctx, w(s.served), qs[0]);
      (if r.None? then [] else [r.value]) + AnswersTo(w, State(ctx, s.served + 1), qs[1..])
  }

  /** The bytes sent are exactly the answers, in order: each decodes to one of them. */
  lemma {:induction false} SentAreAnswers(w: World, s: State, qs: seq<Requests.Request>)
    ensures var sent, answers := ServeAll(w, s, qs).1, AnswersTo(w, s, qs);
            && |sent| == |answers|
            && forall k :: 0 <= k < |sent| ==>
                 Responses.Unmarshal(sent[k]) == Some(Responses.CanonResponse(answers[k]))
    decreases |qs|
  {
    hide Dispatch;
    hide Responses.Marshal;
    hide Responses.Decode;
    hide Responses.CanonResponse;
    if qs != [] {
      var (ctx, r) := Dispatch(s.ctx, w(s.served), qs[0]);
      SentAreAnswers(w, State(ctx, s.served + 1), qs[1..]);
      if r.Some? {
        OneSided(s.ctx, w(s.served), qs[0]);
        ScalarsFit(r.value);
        assert Responses.Marshal(r.value) + [] == Responses.Marshal(r.value);
        Responses.ResponseRoundTrip(r.value, []);
      }
    }
  }

  lemma ScalarsFit(r: Responses.Response)
    requires Scalar(r.error) && Scalar(r.result)
    ensures Responses.CountableFields(r)
  {
  }

  // ---------------------------------------------------------------- the drain loop

  /** What one read callback leaves: `taken` are the bytes consumed, `left` those still buffered. */
  datatype Drained = Drained(state: State, sent: seq<Bytes>, dispatched: seq<Requests.Request>,
                             taken: Bytes, left: Bytes, closed: bool)

  function Drain(w: World, s: State, bytes: Bytes): (d: Drained)
    decreases |bytes|
  {
    if bytes == [] then Drained(s, [], [], [], [], false)
    else
      var db := ServerDispatch(s.ctx, w(s.served), bytes);
      if !db.ok then Drained(s, [], [], [], bytes, true)
      else
        var d := Drain(w, State(db.ctx, s.served + 1), bytes[db.consumed..]);
        Drained(d.state,
                Replies(db) + d.sent,
                [Requests.Decode(bytes).0.value] + d.dispatched,
                bytes[..db.consumed] + d.taken, d.left, d.closed)
  }

  /** Where draining `bytes` leads, when `sent` has already been sent: state, replies, what is left, closed. */
  function Outcome(w: World, s: State, bytes: Bytes, sent: seq<Bytes>): (State, seq<Bytes>, Bytes, bool)
  {
    var d := Drain(w, s, bytes);
    (d.state, sent + d.sent, d.left, d.closed)
  }

  lemma DrainNothing(w: World, s: State)
    ensures Drain(w, s, []) == Drained(s, [], [], [], [], false)
  {
  }

  lemma OutcomeDone(w: World, s: State, sent: seq<Bytes>)
    ensures Outcome(w, s, [], sent) == (s, sent, [], false)
  {
    assert sent + [] == sent;
  }

  /** One turn of the loop does not change where it leads. */
  lemma OutcomeStep(w: World, s: State, bytes: Bytes, sent: seq<Bytes>, db: DispatchBytes)
    requires |bytes| > 0 && db == ServerDispatch(s.ctx, w(s.served), bytes)
    ensures !db.ok ==> Outcome(w, s, bytes, sent) == (s, sent, bytes, true)
    ensures db.ok ==>
              var s' := State(db.ctx, s.served + 1);
              Outcome(w, s, bytes, sent) == Outcome(w, s', bytes[db.consumed..], sent + Replies(db))
  {
    hide Requests.Decode;
    hide Reply;
    assert sent + [] == sent;
    if db.ok {
      var d := Drain(w, State(db.ctx, s.served + 1), bytes[db.consumed..]);
      assert sent + (Replies(db) + d.sent) == sent + Replies(db) + d.sent;
    }
  }

  /** What is sent for one dispatch. */
  function Replies(db: DispatchBytes): seq<Bytes>
  {
    if db.response.None? then [] else [db.response.value]
  }

  /** Every byte is consumed or still there; afterwards the connection closes or the buffer is empty. */
  lemma {:induction false} DrainConserves(w: World, s: State, bytes: Bytes)
    ensures var d := Drain(w, s, bytes);
            && d.taken + d.left == bytes
            && (d.closed <==> d.left != [])
            && d.state.served == s.served + |d.dispatched|
    decreases |bytes|
  {
    hide ServerDispatch;
    hide Requests.Decode;
    if bytes != [] {
      var db := ServerDispatch(s.ctx, w(s.served), bytes);
      if db.ok {
        DrainConserves(w, State(db.ctx, s.served + 1), bytes[db.consumed..]);
        assert bytes == bytes[..db.consumed] + bytes[db.consumed..];
      }
    }
  }

  /** Whatever arrives, the loop serves exactly the requests it decodes, in order. */
  lemma {:induction false} DrainServes(w: World, s: State, bytes: Bytes)
    ensures var d := Drain(w, s, bytes);
            ServeAll(w, s, d.dispatched) == (d.state, d.sent)
    decreases |bytes|
  {
    hide Reply;
    hide Requests.Decode;
    if bytes != [] {
      var db := ServerDispatch(s.ctx, w(s.served), bytes);
      if db.ok {
        var d := Drain(w, State(db.ctx, s.served + 1), bytes[db.consumed..]);
        DrainServes(w, State(db.ctx, s.served + 1), bytes[db.consumed..]);
        var q := Requests.Decode(bytes).0.value;
        assert ([q] + d.dispatched)[1..] == d.dispatched;
      }
    }
  }

  /** What no request can be read from: it depends on the bytes alone. */
  function Unread(bytes: Bytes): (left: Bytes)
    decreases |bytes|
  {
    if bytes == [] then []
    else
      var (q, consumed) := Requests.Decode(bytes);
      if q.None? then bytes else Unread(bytes[consumed..])
  }

  /** Whatever the context and the world, the loop leaves the unread bytes, and closes if there are any. */
  lemma {:induction false} DrainLeavesUnread(w: World, s: State, bytes: Bytes)
    ensures Drain(w, s, bytes).left == Unread(bytes)
    ensures Drain(w, s, bytes).closed <==> Unread(bytes) != []
    decreases |bytes|
  {
    hide Requests.Decode;
    hide Reply;
    if bytes != [] {
      var db := ServerDispatch(s.ctx, w(s.served), bytes);
      if db.ok {
        DrainLeavesUnread(w, State(db.ctx, s.served + 1), bytes[db.consumed..]);
      }
    }
  }

  // ---------------------------------------------------------------- the connection object

  datatype ReadEvent = Data(chunk: Bytes) | Nothing | ReadError

  class HazeConn {
    var buffer: array<Byte>
    var bufferLen: nat
    var state: State
    var sent: seq<Bytes>
    var closeRequests: nat

    ghost predicate Valid()
      reads this
    {
      bufferLen <= buffer.Length
    }

    ghost function Contents(): Bytes
      requires Valid()
      reads this, buffer
    {
      buffer[..bufferLen]
    }

    constructor (ctx: Context)
      ensures Valid() && Contents() == [] && fresh(buffer)
      ensures state == State(ctx, 0) && sent == [] && closeRequests == 0
    {
      buffer, bufferLen := new Byte[0], 0;
      state, sent, closeRequests := State(ctx, 0), [], 0;
    }

    method Close()
      modifies this`closeRequests
      ensures closeRequests == old(closeRequests) + 1
    {
      closeRequests := closeRequests + 1;
    }

    /** The growth step: double from 1024 until the new length fits; realloc may fail. */
    method Reserve(needed: nat, memory: bool) returns (ok: bool)
      requires Valid()
      modifies this`buffer
      ensures Valid() && Contents() == old(Contents())
      ensures ok <==> memory || needed <= old(buffer.Length)
      ensures ok ==> needed <= buffer.Length
      ensures buffer == old(buffer) || fresh(buffer)
    {
      ok := true;
      if needed > buffer.Length {
        var cap := if buffer.Length == 0 then 1024 else buffer.Length;
        while cap < needed
          invariant cap > 0 && cap >= buffer.Length
          decreases needed - cap
        {
          cap := cap * 2;
        }
        ok := memory;
        if ok {
          var old_buffer, len := buffer, bufferLen;
          var grown := new Byte[cap](i requires i >= 0 reads this, old_buffer =>
                                     if i < len && i < old_buffer.Length then old_buffer[i] else 0);
          assert grown[..len] == old_buffer[..len];
          buffer := grown;
        }
      }
    }

    method Store(chunk: Bytes)
      requires Valid() && bufferLen + |chunk| <= buffer.Length
      modifies this`bufferLen, buffer
      ensures Valid() && Contents() == old(Contents()) + chunk
    {
      for i := 0 to |chunk|
        invariant bufferLen == old(bufferLen)
        invariant buffer[..bufferLen + i] == old(Contents()) + chunk[..i]
      {
        ghost var before := buffer[..];
        buffer[bufferLen + i] := chunk[i];
        assert buffer[..bufferLen + i] == before[..bufferLen + i];
        assert chunk[..i + 1] == chunk[..i] + [chunk[i]];
        assert buffer[..bufferLen + i + 1] == buffer[..bufferLen + i] + [chunk[i]];
      }
      assert chunk[..|chunk|] == chunk;
      bufferLen := bufferLen + |chunk|;
    }

    /** memmove of what is left to the front of the buffer. */
    method Consume(n: nat)
      requires Valid() && n <= bufferLen
      modifies this`bufferLen, buffer
      ensures Valid() && Contents() == old(Contents())[n..]
    {
      bufferLen := bufferLen - n;
      for i := 0 to bufferLen
        invariant bufferLen == old(bufferLen) - n
        invariant buffer[..i] == old(buffer[n..n + i])
        invariant buffer[i + n..] == old(buffer[i + n..])
      {
        ghost var before := buffer[..];
        buffer[i] := buffer[i + n];
        assert buffer[..i] == before[..i];
        assert buffer[i + 1 + n..] == before[i + 1 + n..];
        assert buffer[..i + 1] == buffer[..i] + [before[i + n]];
        assert old(buffer[n..n + i + 1]) == old(buffer[n..n + i]) + [old(buffer[n + i])];
      }
    }

    /** Where the loop leads from here. */
    ghost function Goal(w: World): (State, seq<Bytes>, Bytes, bool)
      requires Valid()
      reads this, buffer
    {
      Outcome(w, state, Contents(), sent)
    }

    /** One turn of the drain loop: dispatch what is in the buffer, then close or consume. */
    method DispatchFront(w: World) returns (db: DispatchBytes)
      requires Valid() && bufferLen > 0
      modifies this, buffer
      ensures Valid() && buffer == old(buffer)
      ensures |old(Contents())| > 0 && db == ServerDispatch(old(state).ctx, w(old(state).served), old(Contents()))
      ensures closeRequests == old(closeRequests) + (if db.ok then 0 else 1)
      ensures !db.ok ==> Contents() == old(Contents()) && state == old(state) && sent == old(sent)
      ensures db.ok ==> bufferLen < old(bufferLen) && Contents() == old(Contents())[db.consumed..]
      ensures db.ok ==> state == State(db.ctx, old(state).served + 1) && sent == old(sent) + Replies(db)
    {
      hide ServerDispatch;
      db := ServerDispatch(state.ctx, w(state.served), buffer[..bufferLen]);
      if !db.ok {
        Close();
        return;
      }
      if db.response.Some? {
        sent := sent + [db.response.value];
      }
      state := State(db.ctx, state.served + 1);
      if db.consumed == 0 || db.consumed > bufferLen {
        // "Invalid API buffer consumption" closes here; the decoder never lets it happen.
        assert false;
      }
      Consume(db.consumed);
    }

    /** A turn does not change where the loop leads; it is there when the turn closes. */
    method Turn(w: World) returns (ok: bool)
      requires Valid() && bufferLen > 0
      modifies this, buffer
      ensures Valid() && buffer == old(buffer)
      ensures closeRequests == old(closeRequests) + (if ok then 0 else 1)
      ensures ok ==> bufferLen < old(bufferLen) && Goal(w) == old(Goal(w))
      ensures !ok ==> old(Goal(w)) == (state, sent, Contents(), true)
    {
      hide ServerDispatch;
      hide Outcome;
      hide Replies;
      hide HazeConn.Contents;
      ghost var s, bytes, replies := state, Contents(), sent;
      var db := DispatchFront(w);
      OutcomeStep(w, s, bytes, replies, db);
      ok := db.ok;
    }

    /** The drain loop of haze_on_read. */
    method DrainBuffer(w: World)
      requires Valid()
      modifies this, buffer
      ensures Valid() && buffer == old(buffer)
      ensures var d := Drain(w, old(state), old(Contents()));
              && Contents() == d.left && state == d.state && sent == old(sent) + d.sent
              && closeRequests == old(closeRequests) + (if d.closed then 1 else 0)
    {
      hide Drain;
      Loop(w);
    }

    /** The loop gets where it leads. */
    method Loop(w: World)
      requires Valid()
      modifies this, buffer
      ensures Valid() && buffer == old(buffer)
      ensures var (s, replies, left, closed) := old(Goal(w));
              && Contents() == left && state == s && sent == replies
              && closeRequests == old(closeRequests) + (if closed then 1 else 0)
    {
      hide Goal;
      while bufferLen > 0
        invariant Valid() && buffer == old(buffer) && closeRequests == old(closeRequests)
        invariant Goal(w) == old(Goal(w))
        decreases bufferLen
      {
        var ok := Turn(w);
        if !ok { return; }
      }
      GoalReached(w);
    }

    lemma GoalReached(w: World)
      requires Valid() && bufferLen == 0
      ensures Goal(w) == (state, sent, Contents(), false)
    {
      hide Outcome;
      assert Contents() == [];
      OutcomeDone(w, state, sent);
    }

    /** haze_on_read; `memory` says whether realloc would succeed. */
    method OnRead(w: World, event: ReadEvent, memory: bool) returns (stored: bool)
      requires Valid()
      modifies this, buffer
      ensures Valid() && (buffer == old(buffer) || fresh(buffer))
      ensures stored <==> event.Data? && (memory || old(bufferLen) + |event.chunk| <= old(buffer.Length))
      ensures !stored ==> Contents() == old(Contents()) && state == old(state) && sent == old(sent)
      ensures event.Nothing? ==> closeRequests == old(closeRequests)
      ensures event.ReadError? || (event.Data? && !stored) ==> closeRequests == old(closeRequests) + 1
      ensures stored ==>
                var d := Drain(w, old(state), old(Contents()) + event.chunk);
                && Contents() == d.left && state == d.state && sent == old(sent) + d.sent
                && closeRequests == old(closeRequests) + Closes(d)
    {
      hide Drain;
      stored := false;
      match event {
        case ReadError => Close();
        case Nothing =>
        case Data(chunk) =>
          var ok := Reserve(bufferLen + |chunk|, memory);
          if !ok {
            Close();
            return;
          }
          stored := true;
          Store(chunk);
          DrainBuffer(w);
          if bufferLen > BUFFER_LIMIT {
            Close();
          }
      }
    }
  }

  /** uv_close calls made by one data callback. */
  function Closes(d: Drained): (n: nat)
  {
    (if d.closed then 1 else 0) + (if |d.left| > BUFFER_LIMIT then 1 else 0)
  }

  // ---------------------------------------------------------------- whole streams

  /** The abstract connection after some callbacks. */
  datatype Stream = Stream(state: State, sent: seq<Bytes>, dispatched: seq<Requests.Request>,
                           taken: Bytes, buffer: Bytes, closed: bool)

  function Start(ctx: Context): Stream { Stream(State(ctx, 0), [], [], [], [], false) }

  /** One data callback; a closing handle gets no more of them. */
  function Feed(w: World, c: Stream, chunk: Bytes): (c': Stream)
  {
    if c.closed || chunk == [] then c
    else
      var d := Drain(w, c.state, c.buffer + chunk);
      Stream(d.state, c.sent + d.sent, c.dispatched + d.dispatched, c.taken + d.taken, d.left, d.closed)
  }

  function FeedAll(w: World, c: Stream, chunks: seq<Bytes>): (c': Stream)
    decreases |chunks|
  {
    if chunks == [] then c else FeedAll(w, Feed(w, c, chunks[0]), chunks[1..])
  }

  lemma {:induction false} FeedAllSnoc(w: World, c: Stream, chunks: seq<Bytes>, chunk: Bytes)
    ensures FeedAll(w, c, chunks + [chunk]) == Feed(w, FeedAll(w, c, chunks), chunk)
    decreases |chunks|
  {
    hide Feed;
    if chunks == [] {
      assert [chunk][1..] == [];
      assert chunks + [chunk] == [chunk];
      assert FeedAll(w, c, [chunk]) == FeedAll(w, Feed(w, c, chunk), []);
    } else {
      FeedAllSnoc(w, Feed(w, c, chunks[0]), chunks[1..], chunk);
      assert (chunks + [chunk])[1..] == chunks[1..] + [chunk];
    }
  }

  /** `conn` stands where the stream `c` does. */
  ghost predicate Agrees(conn: HazeConn, c: Stream)
    reads conn, conn.buffer
  {
    && conn.Valid() && conn.Contents() == c.buffer && conn.state == c.state && conn.sent == c.sent
    && (conn.closeRequests > 0 <==> c.closed)
  }

  /** One callback takes the connection object to where Feed takes the stream. */
  lemma FeedIsDrain(w: World, c: Stream, chunk: Bytes)
    requires !c.closed && chunk != []
    ensures var d := Drain(w, c.state, c.buffer + chunk);
            var c' := Feed(w, c, chunk);
            && c'.state == d.state && c'.sent == c.sent + d.sent && c'.buffer == d.left
            && (c'.closed <==> Closes(d) > 0)
  {
    hide Drain;
    DrainConserves(w, c.state, c.buffer + chunk);
  }

  /**
   The connection object through a list of reads: `n` of them are taken, all of them unless
   the buffer cannot grow, and then it is where FeedAll puts the stream.  A closing handle gets
   no more callbacks.
   */
  method Receive(conn: HazeConn, w: World, ghost start: Stream, chunks: seq<Bytes>, memory: nat -> bool)
    returns (n: nat)
    requires Agrees(conn, start)
    modifies conn, conn.buffer
    ensures n <= |chunks| && conn.Valid()
    ensures (forall i: nat :: memory(i)) ==> n == |chunks|
    ensures n == |chunks| ==> Agrees(conn, FeedAll(w, start, chunks))
    ensures n < |chunks| ==>
              var c := FeedAll(w, start, chunks[..n]);
              && !memory(n) && !c.closed && conn.closeRequests > 0
              && conn.Contents() == c.buffer && conn.state == c.state && conn.sent == c.sent
  {
    hide Drain;
    hide Feed;
    hide FeedAll;
    n := 0;
    FeedNothing(w, start);
    ghost var c := start;
    while n < |chunks|
      invariant n <= |chunks| && (conn.buffer == old(conn.buffer) || fresh(conn.buffer))
      invariant c == FeedAll(w, start, chunks[..n]) && Agrees(conn, c)
    {
      FeedAllSnoc(w, start, chunks[..n], chunks[n]);
      assert chunks[..n + 1] == chunks[..n] + [chunks[n]];
      if conn.closeRequests > 0 || chunks[n] == [] {
        FeedIdle(w, c, chunks[n]);
      } else {
        FeedIsDrain(w, c, chunks[n]);
        var stored := conn.OnRead(w, Data(chunks[n]), memory(n));
        if !stored { return; }
        c := Feed(w, c, chunks[n]);
      }
      n := n + 1;
    }
    assert chunks[..n] == chunks;
  }

  lemma FeedNothing(w: World, c: Stream)
    ensures FeedAll(w, c, []) == c
  {
  }

  lemma FeedIdle(w: World, c: Stream, chunk: Bytes)
    requires c.closed || chunk == []
    ensures Feed(w, c, chunk) == c
  {
  }

  /** The bytes received before the connection began to close. */
  function Received(w: World, c: Stream, chunks: seq<Bytes>): (b: Bytes)
    decreases |chunks|
  {
    if chunks == [] || c.closed then []
    else chunks[0] + Received(w, Feed(w, c, chunks[0]), chunks[1..])
  }

  /**
   Over every sequence of chunks, cut anywhere and holding anything: bytes received are bytes
   consumed followed by bytes buffered, and after each callback the connection is closing or
   its buffer is empty.
   */
  lemma {:induction false} StreamConserves(w: World, c: Stream, chunks: seq<Bytes>)
    requires c.closed || c.buffer == []
    ensures var c' := FeedAll(w, c, chunks);
            && c'.taken + c'.buffer == c.taken + c.buffer + Received(w, c, chunks)
            && (c'.closed || c'.buffer == [])
    decreases |chunks|
  {
    hide Drain;
    if chunks != [] {
      var c1 := Feed(w, c, chunks[0]);
      DrainConserves(w, c.state, c.buffer + chunks[0]);
      StreamConserves(w, c1, chunks[1..]);
      if !c.closed {
        if chunks[0] == [] {
          assert c.taken + c.buffer + chunks[0] == c.taken + c.buffer;
        } else {
          var d := Drain(w, c.state, c.buffer + chunks[0]);
          assert c1.taken + c1.buffer == c.taken + (d.taken + d.left);
          assert c.taken + (c.buffer + chunks[0]) == c.taken + c.buffer + chunks[0];
        }
        assert c.taken + c.buffer + Received(w, c, chunks)
            == c.taken + c.buffer + chunks[0] + Received(w, c1, chunks[1..]);
      }
    }
  }

  predicate Sendable(q: Requests.Request)
  {
    q.kind == Requests.RPC_REQUEST && q.name.Some? && Requests.Flat(Requests.Counted(q.params))
  }

  predicate AllSendable(qs: seq<Requests.Request>) { forall k :: 0 <= k < |qs| ==> Sendable(qs[k]) }

  function EncodeAll(qs: seq<Requests.Request>): (b: Bytes)
  {
    if qs == [] then [] else Requests.Marshal(qs[0]) + EncodeAll(qs[1..])
  }

  /** The requests as the decoder hands them to the dispatcher. */
  function NormalAll(qs: seq<Requests.Request>): (ns: seq<Requests.Request>)
    requires AllSendable(qs)
  {
    if qs == [] then [] else [Requests.Normal(qs[0])] + NormalAll(qs[1..])
  }

  /** A buffer that holds whole requests is drained to the last byte, as if served one by one. */
  lemma {:induction false} DrainWhole(w: World, s: State, qs: seq<Requests.Request>)
    requires AllSendable(qs)
    ensures var d := Drain(w, s, EncodeAll(qs));
            && d.dispatched == NormalAll(qs) && !d.closed
            && ServeAll(w, s, NormalAll(qs)) == (d.state, d.sent)
    decreases |qs|
  {
    hide Drain;
    hide ServerDispatch;
    hide Requests.Marshal;
    hide Requests.Normal;
    hide Sendable;
    if qs == [] {
      DrainNothing(w, s);
    } else {
      var db := DrainOne(w, s, qs[0], EncodeAll(qs[1..]));
      DrainWhole(w, State(db.ctx, s.served + 1), qs[1..]);
      DrainServes(w, s, EncodeAll(qs));
    }
  }

  /** One whole request at the front of the buffer. */
  lemma DrainOne(w: World, s: State, q: Requests.Request, rest: Bytes) returns (db: DispatchBytes)
    requires Sendable(q)
    ensures var d := Drain(w, s, Requests.Marshal(q) + rest);
            var d' := Drain(w, State(db.ctx, s.served + 1), rest);
            d.dispatched == [Requests.Normal(q)] + d'.dispatched && d.closed == d'.closed
  {
    hide Requests.Decode;
    hide Requests.Marshal;
    hide Requests.Normal;
    hide Reply;
    var b := Requests.Marshal(q) + rest;
    Requests.RequestFraming(q, rest);
    db := ServerDispatch(s.ctx, w(s.served), b);
    assert b[|Requests.Marshal(q)|..] == rest;
  }

  /** A way of cutting a list of requests into chunks at message boundaries. */
  function Flatten(groups: seq<seq<Requests.Request>>): (qs: seq<Requests.Request>)
  {
    if groups == [] then [] else groups[0] + Flatten(groups[1..])
  }

  function Chunks(groups: seq<seq<Requests.Request>>): (cs: seq<Bytes>)
  {
    if groups == [] then [] else [EncodeAll(groups[0])] + Chunks(groups[1..])
  }

  lemma {:induction false} NormalAllConcat(a: seq<Requests.Request>, b: seq<Requests.Request>)
    requires AllSendable(a) && AllSendable(b)
    ensures AllSendable(a + b) && NormalAll(a + b) == NormalAll(a) + NormalAll(b)
  {
    hide Requests.Normal;
    assert a != [] ==> a[0].name.Some?;
    hide Sendable;
    if a == [] {
      assert a + b == b;
    } else {
      NormalAllConcat(a[1..], b);
      assert (a + b)[1..] == a[1..] + b && (a + b)[0] == a[0];
      assert a + b == [a[0]] + (a[1..] + b);
      assert NormalAll(a + b) == [Requests.Normal(a[0])] + (NormalAll(a[1..]) + NormalAll(b));
    }
  }

  lemma {:induction false} ServeAllConcat(w: World, s: State, a: seq<Requests.Request>, b: seq<Requests.Request>)
    ensures var (s1, sent) := ServeAll(w, s, a);
            var (s2, more) := ServeAll(w, s1, b);
            ServeAll(w, s, a + b) == (s2, sent + more)
    decreases |a|
  {
    hide Serve;
    if a == [] {
      assert a + b == b;
      assert [] + ServeAll(w, s, b).1 == ServeAll(w, s, b).1;
    } else {
      var (s0, sent0) := Serve(w, s, a[0]);
      ServeAllConcat(w, s0, a[1..], b);
      assert (a + b)[1..] == a[1..] + b;
      var (s1, sent1) := ServeAll(w, s0, a[1..]);
      var more := ServeAll(w, s1, b).1;
      assert sent0 + (sent1 + more) == sent0 + sent1 + more;
    }
  }

  lemma SplitSendable(a: seq<Requests.Request>, b: seq<Requests.Request>)
    requires AllSendable(a + b)
    ensures AllSendable(a) && AllSendable(b)
  {
    assert forall k :: 0 <= k < |a| ==> (a + b)[k] == a[k];
    assert forall k :: 0 <= k < |b| ==> (a + b)[|a| + k] == b[k];
  }

  /**
   The stream loop refines "handle messages one by one": however a list of requests is cut
   into chunks at message boundaries, the dispatches, the replies and the final state are
   those of serving the list in order, and nothing stays in the buffer.
   */
  lemma {:induction false} StreamRefines(w: World, c: Stream, groups: seq<seq<Requests.Request>>)
    requires !c.closed && c.buffer == [] && AllSendable(Flatten(groups))
    ensures var qs := NormalAll(Flatten(groups));
            var c' := FeedAll(w, c, Chunks(groups));
            && c'.dispatched == c.dispatched + qs
            && c'.state == ServeAll(w, c.state, qs).0 && c'.sent == c.sent + ServeAll(w, c.state, qs).1
            && !c'.closed && c'.buffer == []
    decreases |groups|
  {
    hide Feed;
    hide ServeAll;
    hide NormalAll;
    hide EncodeAll;
    hide AllSendable;
    if groups == [] {
      NothingToServe(w, c.state);
    } else {
      var g, rest := groups[0], Flatten(groups[1..]);
      SplitSendable(g, rest);
      FeedGroup(w, c, g);
      var c1 := Feed(w, c, EncodeAll(g));
      StreamRefines(w, c1, groups[1..]);
      NormalAllConcat(g, rest);
      ServeAllConcat(w, c.state, NormalAll(g), NormalAll(rest));
      var s1 := ServeAll(w, c.state, NormalAll(g)).0;
      assert c.sent + ServeAll(w, c.state, NormalAll(g)).1 + ServeAll(w, s1, NormalAll(rest)).1
          == c.sent + (ServeAll(w, c.state, NormalAll(g)).1 + ServeAll(w, s1, NormalAll(rest)).1);
      assert c.dispatched + NormalAll(g) + NormalAll(rest) == c.dispatched + (NormalAll(g) + NormalAll(rest));
    }
  }

  lemma NothingToServe(w: World, s: State)
    ensures NormalAll([]) == [] && ServeAll(w, s, []) == (s, [])
  {
  }

  lemma FeedGroup(w: World, c: Stream, g: seq<Requests.Request>)
    requires !c.closed && c.buffer == [] && AllSendable(g)
    ensures var c' := Feed(w, c, EncodeAll(g));
            && c'.dispatched == c.dispatched + NormalAll(g) && !c'.closed && c'.buffer == []
            && c'.state == ServeAll(w, c.state, NormalAll(g)).0
            && c'.sent == c.sent + ServeAll(w, c.state, NormalAll(g)).1
  {
    hide Drain;
    hide ServeAll;
    hide Sendable;
    hide AllSendable;
    DrainWhole(w, c.state, g);
    DrainConserves(w, c.state, EncodeAll(g));
    NothingToServe(w, c.state);
    if g != [] {
      EncodeAllNonEmpty(g);
      assert c.buffer + EncodeAll(g) == EncodeAll(g);
    }
  }

  lemma EncodeAllNonEmpty(g: seq<Requests.Request>)
    requires g != []
    ensures EncodeAll(g) != []
  {
  }

  /** In particular two cuts of the same requests cannot be told apart afterwards. */
  lemma CutsAgree(w: World, ctx: Context, a: seq<seq<Requests.Request>>, b: seq<seq<Requests.Request>>)
    requires Flatten(a) == Flatten(b) && AllSendable(Flatten(a))
    ensures FeedAll(w, Start(ctx), Chunks(a)) == FeedAll(w, Start(ctx), Chunks(b))
  {
    hide ServeAll;
    hide FeedAll;
    hide Received;
    hide AllSendable;
    hide NormalAll;
    hide EncodeAll;
    hide Flatten;
    hide Chunks;
    var c := Start(ctx);
    StreamRefines(w, c, a);
    StreamRefines(w, c, b);
    StreamConserves(w, c, Chunks(a));
    StreamConserves(w, c, Chunks(b));
    WholeReceived(w, c, a);
    WholeReceived(w, c, b);
    var ca, cb := FeedAll(w, c, Chunks(a)), FeedAll(w, c, Chunks(b));
    assert ca.taken == ca.taken + ca.buffer && cb.taken == cb.taken + cb.buffer;
  }

  lemma {:induction false} EncodeAllConcat(a: seq<Requests.Request>, b: seq<Requests.Request>)
    ensures EncodeAll(a + b) == EncodeAll(a) + EncodeAll(b)
  {
    hide Requests.Marshal;
    if a == [] {
      assert a + b == b;
    } else {
      EncodeAllConcat(a[1..], b);
      assert (a + b)[1..] == a[1..] + b;
      var m := Requests.Marshal(a[0]);
      assert m + (EncodeAll(a[1..]) + EncodeAll(b)) == m + EncodeAll(a[1..]) + EncodeAll(b);
    }
  }

  lemma {:induction false} WholeReceived(w: World, c: Stream, groups: seq<seq<Requests.Request>>)
    requires !c.closed && c.buffer == [] && AllSendable(Flatten(groups))
    ensures Received(w, c, Chunks(groups)) == EncodeAll(Flatten(groups))
    decreases |groups|
  {
    hide Feed;
    hide ServeAll;
    hide EncodeAll;
    hide AllSendable;
    if groups == [] {
      NothingToEncode();
    } else {
      var g, rest := groups[0], Flatten(groups[1..]);
      SplitSendable(g, rest);
      FeedGroup(w, c, g);
      WholeReceived(w, Feed(w, c, EncodeAll(g)), groups[1..]);
      EncodeAllConcat(g, rest);
    }
  }

  lemma NothingToEncode()
    ensures EncodeAll([]) == []
  {
  }

  /**
   Message boundaries are needed: a first chunk that stops inside a request closes the
   connection exactly when it stops in the header; otherwise the buffer is emptied and the
   stump is dispatched as a request of its own, cut parameter zeroed and the rest nil.
   */
  lemma SplitRequest(w: World, s: State, q: Requests.Request, p: Bytes)
    requires Sendable(q) && [] < p < Requests.Marshal(q)
    ensures var d := Drain(w, s, p);
            && (d.closed <==> |p| < |Requests.Header(q)|)
            && (d.closed ==> d.dispatched == [] && d.left == p)
            && (!d.closed ==> d.dispatched == [Requests.Truncated(q, p)] && d.taken == p)
  {
    hide Requests.Decode;
    hide Requests.Marshal;
    hide Requests.Header;
    hide Requests.Truncated;
    hide Reply;
    Requests.RequestTruncation(q, p);
    if |Requests.Header(q)| <= |p| {
      var db := ServerDispatch(s.ctx, w(s.served), p);
      assert p[db.consumed..] == [];
      DrainConserves(w, s, p);
    }
  }
}
