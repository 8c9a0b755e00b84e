/**
 source/server/HazeServer.c: the table of connections with its swap-removal, and the life of
 connections and write requests over every run of libuv callbacks.
 */
module Connections {
  import opened Wire
  import opened Server
  import Requests

  // ---------------------------------------------------------------- the table

  predicate NoDuplicates(s: seq<nat>) { forall i, j :: 0 <= i < j < |s| ==> s[i] != s[j] }

  /** HazeServerRemoveConnection: the last entry takes the place of the first match. */
  function SwapRemove(s: seq<nat>, c: nat): (r: seq<nat>)
  {
    if s == [] then []
    else if s[0] == c then (if |s| == 1 then [] else [s[|s| - 1]] + s[1..|s| - 1])
    else [s[0]] + SwapRemove(s[1..], c)
  }

  class HazeServer {
    var connections: array<nat>
    var connLen: nat

    ghost predicate Valid()
      reads this
    {
      connLen <= connections.Length
    }

    ghost function Contents(): seq<nat>
      requires Valid()
      reads this, connections
    {
      connections[..connLen]
    }

    constructor ()
      ensures Valid() && Contents() == [] && fresh(connections)
    {
      connections, connLen := new nat[0], 0;
    }

    /** HazeServerAddConnection: -1 when the table cannot grow. */
    method Add(c: nat, memory: bool) returns (rc: int)
      requires Valid()
      modifies this, connections
      ensures Valid() && (connections == old(connections) || fresh(connections))
      ensures rc == if memory || old(connLen < connections.Length) then 0 else -1
      ensures Contents() == if rc == 0 then old(Contents()) + [c] else old(Contents())
    {
      if connLen >= connections.Length {
        var cap := if connections.Length == 0 then 8 else connections.Length * 2;
        if !memory { return -1; }
        var source, len := connections, connLen;
        var grown := new nat[cap](i requires i >= 0 reads source =>
                                  if i < len && i < source.Length then source[i] else 0);
        assert grown[..len] == source[..len];
        connections := grown;
      }
      connections[connLen] := c;
      connLen := connLen + 1;
      rc := 0;
    }

    method Remove(c: nat)
      requires Valid()
      modifies this`connLen, connections
      ensures Valid() && Contents() == SwapRemove(old(Contents()), c)
    {
      for i := 0 to connLen
        invariant connLen == old(connLen) && connections[..] == old(connections[..])
        invariant forall k :: 0 <= k < i ==> connections[k] != c
      {
        if connections[i] == c {
          SwapRemoveAt(Contents(), c, i);
          connections[i] := connections[connLen - 1];
          connLen := connLen - 1;
          return;
        }
      }
      SwapRemoveAbsent(Contents(), c);
    }

    /** HazeServerBroadcast: the handles that haze_send is called with, in order. */
    method Broadcast() returns (targets: seq<nat>)
      requires Valid()
      ensures targets == Contents()
    {
      targets := [];
      for i := 0 to connLen
        invariant targets == connections[..i]
      {
        targets := targets + [connections[i]];
      }
    }
  }

  lemma {:induction false} SwapRemoveAt(s: seq<nat>, c: nat, i: nat)
    requires i < |s| && s[i] == c && forall k :: 0 <= k < i ==> s[k] != c
    ensures SwapRemove(s, c) == s[i := s[|s| - 1]][..|s| - 1]
  {
    if i > 0 {
      SwapRemoveAt(s[1..], c, i - 1);
      assert s[i := s[|s| - 1]][..|s| - 1] == [s[0]] + s[1..][i - 1 := s[|s| - 1]][..|s| - 2];
    }
  }

  lemma {:induction false} SwapRemoveAbsent(s: seq<nat>, c: nat)
    requires c !in s
    ensures SwapRemove(s, c) == s
  {
    if s != [] {
      SwapRemoveAbsent(s[1..], c);
    }
  }

  /** Swap-removal takes out one entry and keeps the rest, in some order. */
  lemma {:induction false} SwapRemoveMultiset(s: seq<nat>, c: nat)
    ensures multiset(SwapRemove(s, c)) == multiset(s) - multiset{c}
  {
    if s != [] {
      hide SwapRemove;
      hide Rotated;
      SwapRemoveSteps(s, c);
      HeadMultiset(s);
      if s[0] == c {
        LastToFront(s[1..]);
        MinusBack(c, multiset(s[1..]));
      } else {
        SwapRemoveMultiset(s[1..], c);
        OtherStays(s[0], c, multiset(s[1..]));
      }
    }
  }

  lemma SwapRemoveSteps(s: seq<nat>, c: nat)
    requires s != []
    ensures s[0] == c ==> SwapRemove(s, c) == Rotated(s[1..])
    ensures s[0] != c ==> multiset(SwapRemove(s, c)) == multiset{s[0]} + multiset(SwapRemove(s[1..], c))
  {
  }

  /** The last element in front of the others. */
  function Rotated(s: seq<nat>): seq<nat>
  {
    if s == [] then [] else [s[|s| - 1]] + s[..|s| - 1]
  }

  lemma LastToFront(s: seq<nat>)
    ensures multiset(Rotated(s)) == multiset(s)
  {
    if s != [] {
      assert s == s[..|s| - 1] + [s[|s| - 1]];
    }
  }

  lemma HeadMultiset(s: seq<nat>)
    requires s != []
    ensures multiset(s) == multiset{s[0]} + multiset(s[1..])
  {
    assert s == [s[0]] + s[1..];
  }

  lemma MinusBack(c: nat, m: multiset<nat>)
    ensures multiset{c} + m - multiset{c} == m
  {
  }

  lemma OtherStays(x: nat, c: nat, m: multiset<nat>)
    requires x != c
    ensures multiset{x} + (m - multiset{c}) == multiset{x} + m - multiset{c}
  {
  }

  lemma {:induction false} NoDuplicatesCount(s: seq<nat>)
    ensures NoDuplicates(s) <==> forall c :: multiset(s)[c] <= 1
  {
    if s != [] {
      var n := |s| - 1;
      NoDuplicatesCount(s[..n]);
      assert s == s[..n] + [s[n]];
      assert multiset(s) == multiset(s[..n]) + multiset{s[n]};
      if NoDuplicates(s) {
        assert s[n] !in s[..n];
        assert multiset(s[..n])[s[n]] == 0;
      } else if NoDuplicates(s[..n]) {
        var i :| 0 <= i < n && s[i] == s[n];
        assert s[n] in s[..n];
        assert multiset(s)[s[n]] >= 2;
      } else {
        var c :| multiset(s[..n])[c] > 1;
        assert multiset(s)[c] > 1;
      }
    }
  }

  lemma SwapRemoveNoDuplicates(s: seq<nat>, c: nat)
    requires NoDuplicates(s)
    ensures NoDuplicates(SwapRemove(s, c))
    ensures forall d :: d in SwapRemove(s, c) <==> d in s && d != c
  {
    SwapRemoveMultiset(s, c);
    NoDuplicatesCount(s);
    NoDuplicatesCount(SwapRemove(s, c));
    var r := SwapRemove(s, c);
    forall d ensures d in r <==> d in s && d != c {
      assert d in r <==> multiset(r)[d] > 0;
      assert d in s <==> multiset(s)[d] > 0;
    }
  }

  /** A broadcast addresses every registered connection exactly once and nobody else. */
  lemma BroadcastOnce(table: seq<nat>, c: nat)
    requires NoDuplicates(table)
    ensures multiset(table)[c] == if c in table then 1 else 0
  {
    NoDuplicatesCount(table);
    assert c in table <==> multiset(table)[c] > 0;
  }

  // ---------------------------------------------------------------- life cycle

  datatype Phase = Open | Closing | Freed

  /** A connection ever made; the counters record uv_close calls and frees. */
  datatype Conn = Conn(phase: Phase, closes: nat, frees: nat, buffer: Bytes)

  /** A write request ever allocated, and how often it was released. */
  datatype Write = Write(conn: nat, pending: bool, releases: nat)

  datatype Net = Net(state: State, conns: seq<Conn>, table: seq<nat>, writes: seq<Write>)

  /** What becomes of one haze_send: no memory, uv_write refuses, or uv_write starts. */
  datatype Sending = NoMemory | Refused | Started

  datatype Event =
    | ConnectRefused                             // bad status, no memory or uv_tcp_init failed
    | ConnectDropped                             // uv_accept or uv_read_start failed
    | Connected(registered: bool)                // registered is false when the table could not grow
    | ReadFailed(c: nat)                         // nread < 0, or the buffer could not grow
    | ReadChunk(c: nat, chunk: Bytes, sends: nat -> Sending)
    | BroadcastAll(sends: nat -> Sending)
    | WriteDone(w: nat, failed: bool)
    | CloseDone(c: nat)

  predicate PendingOn(writes: seq<Write>, c: nat)
  {
    exists k :: 0 <= k < |writes| && writes[k].pending && writes[k].conn == c
  }

  /** When libuv may run the callback: never on a freed handle, reads only on open ones, close last. */
  predicate Enabled(n: Net, e: Event)
  {
    match e
    case ReadFailed(c) => c < |n.conns| && n.conns[c].phase.Open?
    case ReadChunk(c, chunk, _) => c < |n.conns| && n.conns[c].phase.Open? && |chunk| <= BUFFER_LIMIT
    case WriteDone(w, _) => w < |n.writes| && n.writes[w].pending
    case CloseDone(c) => c < |n.conns| && n.conns[c].phase.Closing? && !PendingOn(n.writes, c)
    case _ => true
  }

  function CloseBy(conn: Conn, times: nat): Conn
  {
    if times == 0 then conn else conn.(phase := Closing, closes := conn.closes + times)
  }

  /** `count` sends to the targets given by `to`, each with its own outcome. */
  function SendTo(writes: seq<Write>, to: seq<nat>, sends: nat -> Sending): (ws: seq<Write>)
    decreases |to|
  {
    if to == [] then writes
    else
      var rest := SendTo(writes, to[..|to| - 1], sends);
      var c := to[|to| - 1];
      match sends(|to| - 1)
      case NoMemory => rest
      case Refused => rest + [Write(c, false, 1)]
      case Started => rest + [Write(c, true, 0)]
  }

  function Step(w: World, n: Net, e: Event): (n': Net)
    requires Enabled(n, e)
  {
    match e
    case ConnectRefused => n
    case ConnectDropped => n.(conns := n.conns + [Conn(Closing, 1, 0, [])])
    case Connected(registered) =>
      n.(conns := n.conns + [Conn(Open, 0, 0, [])],
         table := if registered then n.table + [|n.conns|] else n.table)
    case ReadFailed(c) => n.(conns := n.conns[c := CloseBy(n.conns[c], 1)])
    case ReadChunk(c, chunk, sends) =>
      if chunk == [] then n
      else
        var d := Drain(w, n.state, n.conns[c].buffer + chunk);
        n.(state := d.state,
           conns := n.conns[c := CloseBy(n.conns[c].(buffer := d.left), Closes(d))],
           writes := SendTo(n.writes, seq(|d.sent|, _ => c), sends))
    case BroadcastAll(sends) => n.(writes := SendTo(n.writes, n.table, sends))
    case WriteDone(k, failed) =>
      var c := n.writes[k].conn;
      n.(writes := n.writes[k := n.writes[k].(pending := false, releases := n.writes[k].releases + 1)],
         conns := if failed && c < |n.conns| && n.conns[c].phase.Open?
                  then n.conns[c := CloseBy(n.conns[c], 1)] else n.conns)
    case CloseDone(c) =>
      n.(table := SwapRemove(n.table, c),
         conns := n.conns[c := n.conns[c].(phase := Freed, frees := n.conns[c].frees + 1)])
  }

  /** Each connection is closed at most once and freed at most once, in that order. */
  predicate ConnOk(c: Conn)
  {
    && c.closes == (if c.phase.Open? then 0 else 1)
    && c.frees == (if c.phase.Freed? then 1 else 0)
    && (c.phase.Open? ==> c.buffer == [])
  }

  /** A write is released exactly when it is no longer pending, and pends only on a living handle. */
  predicate WriteOk(conns: seq<Conn>, x: Write)
  {
    && x.conn < |conns|
    && x.releases == (if x.pending then 0 else 1)
    && (x.pending ==> !conns[x.conn].phase.Freed?)
  }

  predicate WritesOk(conns: seq<Conn>, ws: seq<Write>)
  {
    forall k :: 0 <= k < |ws| ==> WriteOk(conns, ws[k])
  }

  predicate TableOk(conns: seq<Conn>, table: seq<nat>)
  {
    && NoDuplicates(table)
    && forall k :: 0 <= k < |table| ==> table[k] < |conns| && !conns[table[k]].phase.Freed?
  }

  predicate Inv(n: Net)
  {
    && (forall c :: 0 <= c < |n.conns| ==> ConnOk(n.conns[c]))
    && WritesOk(n.conns, n.writes)
    && TableOk(n.conns, n.table)
  }

  /** A chunk of at most 4 MB on an empty buffer asks for at most one close: when it is not all requests. */
  lemma AtMostOneClose(w: World, s: State, chunk: Bytes)
    requires |chunk| <= 4 * 1024 * 1024
    ensures Closes(Drain(w, s, chunk)) == if Unread(chunk) == [] then 0 else 1
  {
    hide Drain;
    hide Unread;
    DrainConserves(w, s, chunk);
    DrainLeavesUnread(w, s, chunk);
  }

  /** Beyond 4 MB the handle may be closed twice: exactly when more than that is not a request. */
  lemma DoubleCloseIff(w: World, s: State, chunk: Bytes)
    ensures Closes(Drain(w, s, chunk)) == 2 <==> |Unread(chunk)| > 4 * 1024 * 1024
  {
    hide Drain;
    hide Unread;
    DrainLeavesUnread(w, s, chunk);
  }

  /** Such chunks exist: any large one whose first byte is not a request. */
  lemma DoubleCloseHappens(w: World, s: State, chunk: Bytes)
    requires |chunk| > 4 * 1024 * 1024 && chunk[0] == 0xc1
    ensures Closes(Drain(w, s, chunk)) == 2
  {
    hide Requests.Decode;
    Requests.NotARequest(chunk);
    DoubleCloseIff(w, s, chunk);
  }

  lemma {:induction false} SendToOk(conns: seq<Conn>, writes: seq<Write>, to: seq<nat>, sends: nat -> Sending)
    requires WritesOk(conns, writes)
    requires forall k :: 0 <= k < |to| ==> to[k] < |conns| && !conns[to[k]].phase.Freed?
    ensures WritesOk(conns, SendTo(writes, to, sends))
    decreases |to|
  {
    if to != [] {
      var n := |to| - 1;
      SendToOk(conns, writes, to[..n], sends);
      var rest, ws := SendTo(writes, to[..n], sends), SendTo(writes, to, sends);
      assert to[n] < |conns| && !conns[to[n]].phase.Freed?;
      assert ws == rest || ws == rest + [Write(to[n], false, 1)] || ws == rest + [Write(to[n], true, 0)];
    }
  }

  lemma CloseKeepsInv(w: World, n: Net, c: nat)
    requires Inv(n) && Enabled(n, CloseDone(c))
    ensures Inv(Step(w, n, CloseDone(c)))
  {
    SwapRemoveNoDuplicates(n.table, c);
    var n' := Step(w, n, CloseDone(c));
    forall k | 0 <= k < |n'.table| ensures n'.table[k] < |n'.conns| && !n'.conns[n'.table[k]].phase.Freed? {
      assert n'.table[k] in n'.table;
      var i :| 0 <= i < |n.table| && n.table[i] == n'.table[k];
    }
    forall k | 0 <= k < |n.writes| ensures WriteOk(n'.conns, n.writes[k]) {
      assert WriteOk(n.conns, n.writes[k]);
    }
  }

  /** A connection that is not freed may change, as long as it stays so and in order. */
  lemma ConnChanges(n: Net, c: nat, conn: Conn)
    requires Inv(n) && c < |n.conns| && ConnOk(conn) && !conn.phase.Freed?
    ensures Inv(n.(conns := n.conns[c := conn]))
  {
    var conns := n.conns[c := conn];
    forall k | 0 <= k < |n.writes| ensures WriteOk(conns, n.writes[k]) {
      assert WriteOk(n.conns, n.writes[k]);
    }
    forall k | 0 <= k < |n.table| ensures n.table[k] < |conns| && !conns[n.table[k]].phase.Freed? {
      assert !n.conns[n.table[k]].phase.Freed?;
    }
  }

  lemma ConnAppears(n: Net, conn: Conn, registered: bool)
    requires Inv(n) && ConnOk(conn) && !conn.phase.Freed?
    ensures Inv(n.(conns := n.conns + [conn], table := if registered then n.table + [|n.conns|] else n.table))
  {
    var conns := n.conns + [conn];
    forall k | 0 <= k < |n.writes| ensures WriteOk(conns, n.writes[k]) {
      assert WriteOk(n.conns, n.writes[k]);
    }
  }

  lemma WritesGrow(n: Net, to: seq<nat>, sends: nat -> Sending)
    requires Inv(n) && forall k :: 0 <= k < |to| ==> to[k] < |n.conns| && !n.conns[to[k]].phase.Freed?
    ensures Inv(n.(writes := SendTo(n.writes, to, sends)))
  {
    hide SendTo;
    SendToOk(n.conns, n.writes, to, sends);
  }

  /** What a read of at most 4 MB makes of an open connection. */
  lemma ReadConnOk(w: World, s: State, conn: Conn, chunk: Bytes)
    requires ConnOk(conn) && conn.phase.Open? && |chunk| <= BUFFER_LIMIT
    ensures conn.buffer + chunk == chunk
    ensures var d := Drain(w, s, chunk);
            var conn' := CloseBy(conn.(buffer := d.left), Closes(d));
            ConnOk(conn') && !conn'.phase.Freed?
  {
    hide Drain;
    hide Unread;
    AtMostOneClose(w, s, chunk);
    DrainConserves(w, s, chunk);
    DrainLeavesUnread(w, s, chunk);
  }

  lemma ReadKeepsInv(w: World, n: Net, c: nat, chunk: Bytes, sends: nat -> Sending)
    requires Inv(n) && chunk != [] && Enabled(n, ReadChunk(c, chunk, sends))
    ensures Inv(Step(w, n, ReadChunk(c, chunk, sends)))
  {
    hide Drain;
    hide SendTo;
    hide Closes;
    hide CloseBy;
    ReadConnOk(w, n.state, n.conns[c], chunk);
    var d := Drain(w, n.state, chunk);
    var conn := CloseBy(n.conns[c].(buffer := d.left), Closes(d));
    ConnChanges(n, c, conn);
    hide Inv;
    hide ConnOk;
    var n1 := n.(conns := n.conns[c := conn]);
    var to := seq(|d.sent|, _ => c);
    WritesGrow(n1, to, sends);
    StateIsFree(n1.(writes := SendTo(n1.writes, to, sends)), d.state);
  }

  lemma StateIsFree(n: Net, s: State)
    requires Inv(n)
    ensures Inv(n.(state := s))
  {
  }

  lemma WriteKeepsInv(w: World, n: Net, k: nat, failed: bool)
    requires Inv(n) && Enabled(n, WriteDone(k, failed))
    ensures Inv(Step(w, n, WriteDone(k, failed)))
  {
    var c := n.writes[k].conn;
    var done := n.writes[k].(pending := false, releases := n.writes[k].releases + 1);
    assert WriteOk(n.conns, n.writes[k]);
    assert Inv(n.(writes := n.writes[k := done]));
    if failed && n.conns[c].phase.Open? {
      ConnChanges(n.(writes := n.writes[k := done]), c, CloseBy(n.conns[c], 1));
    }
  }

  lemma StepKeepsInv(w: World, n: Net, e: Event)
    requires Inv(n) && Enabled(n, e)
    ensures Inv(Step(w, n, e))
  {
    hide Drain;
    hide SendTo;
    hide SwapRemove;
    match e
    case ConnectRefused =>
    case ConnectDropped => ConnAppears(n, Conn(Closing, 1, 0, []), false);
    case Connected(registered) => ConnAppears(n, Conn(Open, 0, 0, []), registered);
    case ReadFailed(c) => ConnChanges(n, c, CloseBy(n.conns[c], 1));
    case ReadChunk(c, chunk, sends) => if chunk != [] { ReadKeepsInv(w, n, c, chunk, sends); }
    case BroadcastAll(sends) => WritesGrow(n, n.table, sends);
    case WriteDone(k, failed) => WriteKeepsInv(w, n, k, failed);
    case CloseDone(c) => CloseKeepsInv(w, n, c);
  }

  predicate Runs(w: World, n: Net, es: seq<Event>)
    decreases |es|
  {
    es == [] || (Enabled(n, es[0]) && Runs(w, Step(w, n, es[0]), es[1..]))
  }

  function Run(w: World, n: Net, es: seq<Event>): (n': Net)
    requires Runs(w, n, es)
    decreases |es|
  {
    if es == [] then n else Run(w, Step(w, n, es[0]), es[1..])
  }

  /** The invariant holds over every run of callbacks. */
  lemma {:induction false} LifeCycle(w: World, n: Net, es: seq<Event>)
    requires Inv(n) && Runs(w, n, es)
    ensures Inv(Run(w, n, es))
    decreases |es|
  {
    if es != [] {
      StepKeepsInv(w, n, es[0]);
      LifeCycle(w, Step(w, n, es[0]), es[1..]);
    }
  }

  /**
   The life cycle over every run from a server without connections: the table has no
   duplicates and names only unfreed connections, so a broadcast addresses each registered one
   exactly once; nothing is closed or freed twice, or freed unclosed; a write request is
   released exactly once, and only when it is no longer pending.
   */
  lemma LifeCycleFromStart(w: World, s: State, es: seq<Event>)
    requires Runs(w, Net(s, [], [], []), es)
    ensures var n := Run(w, Net(s, [], [], []), es);
            && (forall c :: multiset(n.table)[c] == if c in n.table then 1 else 0)
            && (forall c :: c in n.table ==> c < |n.conns| && n.conns[c].frees == 0)
            && (forall c :: 0 <= c < |n.conns| ==> n.conns[c].frees <= n.conns[c].closes <= 1)
            && (forall k :: 0 <= k < |n.writes| ==> n.writes[k].releases == if n.writes[k].pending then 0 else 1)
  {
    hide Runs;
    hide Run;
    LifeCycle(w, Net(s, [], [], []), es);
    var n := Run(w, Net(s, [], [], []), es);
    forall c ensures multiset(n.table)[c] == if c in n.table then 1 else 0 { BroadcastOnce(n.table, c); }
    forall k | 0 <= k < |n.writes| ensures n.writes[k].releases == if n.writes[k].pending then 0 else 1 {
      assert WriteOk(n.conns, n.writes[k]);
    }
  }

  // ---------------------------------------------------------------- what each callback does

  /** When every send starts, there is exactly one pending write more for each target, in order. */
  lemma {:induction false} SendToStarted(writes: seq<Write>, to: seq<nat>, sends: nat -> Sending)
    requires forall k: nat :: k < |to| ==> sends(k) == Started
    ensures SendTo(writes, to, sends) == writes + seq(|to|, k requires 0 <= k < |to| => Write(to[k], true, 0))
    decreases |to|
  {
    if to != [] {
      var n := |to| - 1;
      SendToStarted(writes, to[..n], sends);
      assert sends(n) == Started;
    }
  }

  /** A broadcast starts exactly one write to each registered connection. */
  lemma BroadcastReaches(w: World, n: Net, sends: nat -> Sending)
    requires forall k: nat :: k < |n.table| ==> sends(k) == Started
    ensures var n' := Step(w, n, BroadcastAll(sends));
            && n' == n.(writes := n'.writes) && |n'.writes| == |n.writes| + |n.table| && n.writes <= n'.writes
            && forall k :: 0 <= k < |n.table| ==> n'.writes[|n.writes| + k] == Write(n.table[k], true, 0)
  {
    SendToStarted(n.writes, n.table, sends);
  }

  /** A connection that could be registered is open and in the table. */
  lemma ConnectedRegisters(w: World, n: Net, registered: bool)
    ensures var n', c := Step(w, n, Connected(registered)), |n.conns|;
            && |n'.conns| == c + 1 && n'.conns[c] == Conn(Open, 0, 0, []) && n.conns <= n'.conns
            && (forall d :: d in n'.table <==> d in n.table || (registered && d == c))
            && n'.writes == n.writes
  {
  }

  /** A read that fails, or that is not all requests, asks for a close; any other leaves the connection open. */
  lemma ReadsClose(w: World, n: Net, c: nat, chunk: Bytes, sends: nat -> Sending)
    requires Inv(n) && chunk != [] && Enabled(n, ReadChunk(c, chunk, sends))
    ensures Step(w, n, ReadFailed(c)).conns[c] == n.conns[c].(phase := Closing, closes := 1)
    ensures var conn := Step(w, n, ReadChunk(c, chunk, sends)).conns[c];
            if Unread(chunk) == [] then conn == n.conns[c] else conn.phase.Closing? && conn.closes == 1
  {
    hide Drain;
    hide Unread;
    hide SendTo;
    ReadConnOk(w, n.state, n.conns[c], chunk);
    AtMostOneClose(w, n.state, chunk);
    DrainLeavesUnread(w, n.state, chunk);
  }

  /** The replies to a chunk are written to the connection it came from, one write each. */
  lemma ReadsAnswer(w: World, n: Net, c: nat, chunk: Bytes, sends: nat -> Sending)
    requires Inv(n) && chunk != [] && Enabled(n, ReadChunk(c, chunk, sends)) && forall k: nat :: sends(k) == Started
    ensures var sent := Drain(w, n.state, chunk).sent;
            var n' := Step(w, n, ReadChunk(c, chunk, sends));
            && n'.state == Drain(w, n.state, chunk).state && n'.table == n.table
            && |n'.writes| == |n.writes| + |sent| && n.writes <= n'.writes
            && forall k :: |n.writes| <= k < |n'.writes| ==> n'.writes[k] == Write(c, true, 0)
  {
    hide Drain;
    ReadConnOk(w, n.state, n.conns[c], chunk);
    var sent := Drain(w, n.state, chunk).sent;
    SendToStarted(n.writes, seq(|sent|, _ => c), sends);
    hide SendTo;
  }

  /** A completed write is released; a failed one also closes its connection, if that is still open. */
  lemma WriteReleases(w: World, n: Net, k: nat, failed: bool)
    requires Inv(n) && Enabled(n, WriteDone(k, failed))
    ensures var n', c := Step(w, n, WriteDone(k, failed)), n.writes[k].conn;
            && n'.writes == n.writes[k := Write(c, false, 1)] && n'.table == n.table
            && c < |n.conns| == |n'.conns|
            && n'.conns[c] == (if failed && n.conns[c].phase.Open? then n.conns[c].(phase := Closing, closes := 1)
                               else n.conns[c])
  {
    assert WriteOk(n.conns, n.writes[k]);
  }

  /** The close callback frees the connection and takes it, and only it, out of the table. */
  lemma CloseFrees(w: World, n: Net, c: nat)
    requires Inv(n) && Enabled(n, CloseDone(c))
    ensures var n' := Step(w, n, CloseDone(c));
            && n'.conns[c].phase.Freed? && n'.conns[c].frees == 1
            && (forall d :: d in n'.table <==> d in n.table && d != c)
            && (forall d :: 0 <= d < |n.conns| && d != c ==> n'.conns[d] == n.conns[d])
  {
    SwapRemoveNoDuplicates(n.table, c);
  }

  /** A registered connection stays in the table until its close callback. */
  lemma {:induction false} RegisteredStays(w: World, n: Net, es: seq<Event>, c: nat)
    requires Inv(n) && Runs(w, n, es) && c in n.table && CloseDone(c) !in es
    ensures c in Run(w, n, es).table
    decreases |es|
  {
    hide Inv;
    hide Step;
    hide Enabled;
    if es != [] {
      StepKeepsInv(w, n, es[0]);
      StepKeepsRegistered(w, n, es[0], c);
      RegisteredStays(w, Step(w, n, es[0]), es[1..], c);
    }
  }

  lemma StepKeepsRegistered(w: World, n: Net, e: Event, c: nat)
    requires Inv(n) && Enabled(n, e) && c in n.table && e != CloseDone(c)
    ensures c in Step(w, n, e).table
  {
    hide Drain;
    hide SendTo;
    if e.CloseDone? { CloseFrees(w, n, e.c); }
    hide SwapRemove;
  }

  /** One send: nothing, a request released at once, or one that is pending. */
  lemma OneSend(writes: seq<Write>, to: seq<nat>, c: nat, sends: nat -> Sending)
    ensures var before, after := SendTo(writes, to, sends), SendTo(writes, to + [c], sends);
            && (sends(|to|) == NoMemory ==> after == before)
            && (sends(|to|) == Refused ==> after == before + [Write(c, false, 1)])
            && (sends(|to|) == Started ==> after == before + [Write(c, true, 0)])
  {
    assert (to + [c])[..|to|] == to;
  }

  /** A connection that is dropped at once is closing; one that is refused never exists. */
  lemma DroppedCloses(w: World, n: Net)
    ensures Step(w, n, ConnectDropped) == n.(conns := n.conns + [Conn(Closing, 1, 0, [])])
    ensures Step(w, n, ConnectRefused) == n
  {
  }

  /** An open connection can be read, a pending write can complete, and what is closing without one can be freed. */
  lemma CallbacksHappen(n: Net, c: nat, chunk: Bytes, sends: nat -> Sending, k: nat, failed: bool)
    ensures c < |n.conns| && n.conns[c].phase.Open? ==> Enabled(n, ReadFailed(c))
    ensures c < |n.conns| && n.conns[c].phase.Open? && |chunk| <= 4 * 1024 * 1024 ==>
              Enabled(n, ReadChunk(c, chunk, sends))
    ensures k < |n.writes| && n.writes[k].pending ==> Enabled(n, WriteDone(k, failed))
    ensures c < |n.conns| && n.conns[c].phase.Closing? && !PendingOn(n.writes, c) ==> Enabled(n, CloseDone(c))
  {
  }
}
