/**
 The bytes of whole messages, first byte to last, as a peer sees them.
 */
module Envelopes {
  import opened Wire
  import opened Objects
  import opened Dispatcher
  import Notifications
  import Requests
  import Responses
  import CppResponses
  import Grammar
  import StrictGrammar

  lemma FixedBytes()
    ensures WriteTag(TNil) == [0xc0] && WriteTag(TBool(false)) == [0xc2] && WriteTag(TBool(true)) == [0xc3]
    ensures WriteTag(TArray(3)) == [0x93] && WriteTag(TArray(4)) == [0x94]
    ensures forall u: UInt64 :: u < 0x80 ==> WriteTag(TUInt(u)) == [u]
  {
  }

  /** A response begins with 94 01, then come its id, its error and its result. */
  lemma ResponseBytes(s: Responses.Response)
    requires s.kind == 1
    ensures Responses.Marshal(s)
         == [0x94, 0x01] + WriteTag(TUInt(s.msgid)) + Responses.Lenient(s.error) + Responses.Lenient(s.result)
  {
    FixedBytes();
    hide WriteTag;
    hide Responses.Lenient;
    assert [0x94] + [0x01] == [0x94, 0x01];
  }

  /** A request begins with 94 00, then come its id, its method and its parameters. */
  lemma RequestBytes(q: Requests.Request)
    requires q.kind == 0 && q.name.Some? && NulFree(q.name.value) && |q.name.value| < UINT32_LIMIT
    requires |q.params| < UINT32_LIMIT
    ensures Requests.Marshal(q)
         == [0x94, 0x00] + WriteTag(TUInt(q.msgid)) + WriteTag(TStr(|q.name.value|)) + q.name.value
            + WriteTag(TArray(|q.params|)) + Responses.LenientAll(q.params)
  {
    FixedBytes();
    assert Requests.WireName(q.name.value) == q.name.value && Requests.Counted(q.params) == q.params;
    hide WriteTag;
    hide Responses.LenientAll;
    hide Requests.WireName;
    hide Requests.Counted;
    hide NulFree;
    var id, size, name := WriteTag(TUInt(q.msgid)), WriteTag(TStr(|q.name.value|)), q.name.value;
    var count, body := WriteTag(TArray(|q.params|)), Responses.LenientAll(q.params);
    assert Requests.Header(q) == [0x94] + [0x00] + id + (size + name) + count;
    hide Requests.Header;
    Regroup(id, size, name, count, body);
  }

  lemma Regroup(id: Bytes, size: Bytes, name: Bytes, count: Bytes, body: Bytes)
    ensures [0x94] + [0x00] + id + (size + name) + count + body == [0x94, 0x00] + id + size + name + count + body
  {
    assert [0x94] + [0x00] + id + (size + name) == [0x94, 0x00] + id + size + name;
  }

  /** A notification begins with 93 02, then come its method and its parameters. */
  lemma NotificationBytes(n: Notifications.Notification)
    requires Notifications.Marshal(n).Some? && NulFree(n.name.value)
    ensures |n.name.value| < UINT32_LIMIT && |n.params| < UINT32_LIMIT && Notifications.StrictAll(n.params).Some?
    ensures Notifications.Marshal(n).value
         == [0x93, 0x02] + WriteTag(TStr(|n.name.value|)) + n.name.value
            + WriteTag(TArray(|n.params|)) + Notifications.StrictAll(n.params).value
  {
    FixedBytes();
    hide WriteTag;
    hide Notifications.StrictAll;
    assert CString(n.name.value) == n.name.value;
    hide CString;
    assert [0x93] + [0x02] == [0x93, 0x02];
  }

  /** What the server writes is in the grammar of responses. */
  lemma ResponseInGrammar(s: Responses.Response)
    requires s.kind == 1 && Responses.CountableFields(s)
    ensures Grammar.SpelledResponse(CppResponses.ReceivedResponse(s), Responses.Marshal(s))
  {
    hide CppResponses.Decode;
    hide Grammar.SpelledResponse;
    hide Responses.CountableFields;
    hide Responses.Marshal;
    var b := Responses.Marshal(s);
    assert b + [] == b && b[|b|..] == [] && b[..|b|] == b;
    CppResponses.ServerToCppClient(s, []);
    Grammar.DecodeIff(b, CppResponses.ReceivedResponse(s), |b|);
  }

  /** What the strict writer writes is in the grammar of notifications, when it can be delivered. */
  lemma NotificationInGrammar(n: Notifications.Notification)
    requires Notifications.Marshal(n).Some? && Notifications.Deliverable(n)
    ensures var norm := Notifications.Notification(Some(CString(n.name.value)), Notifications.NormAll(n.params));
            StrictGrammar.SpelledNotification(norm, Notifications.Marshal(n).value)
  {
    hide StrictGrammar.SpelledNotification;
    hide Notifications.Decode;
    hide Notifications.Deliverable;
    hide Notifications.NormAll;
    hide CString;
    hide EverywhereIn;
    NotificationHasName(n);
    var b := Notifications.Marshal(n).value;
    var norm := Notifications.Notification(Some(CString(n.name.value)), Notifications.NormAll(n.params));
    assert b + [] == b && b[|b|..] == [] && b[..|b|] == b;
    Notifications.NotificationRoundTrip(n, []);
    hide Notifications.Marshal;
    StrictGrammar.DecodeIff(b, norm, |b|);
  }

  lemma NotificationHasName(n: Notifications.Notification)
    requires Notifications.Marshal(n).Some?
    ensures n.name.Some?
  {
  }

  /** The answer to a ping with a small id, byte for byte. */
  lemma PongBytes(id: UInt32)
    requires id < 0x80
    ensures Responses.Marshal(Responses.Response(1, id, Null, Str(Words(Pong))))
         == [0x94, 0x01, id, 0xc0, 0xa5, 0x70, 0x6f, 0x6e, 0x67, 0x21]
  {
    var words := Words(Pong);
    assert words == [0x70, 0x6f, 0x6e, 0x67, 0x21];
    hide Words;
    TextBytes(id, words);
  }

  lemma TextBytes(id: UInt32, words: Bytes)
    requires id < 0x80 && |words| < 0x20
    ensures Responses.Marshal(Responses.Response(1, id, Null, Str(words)))
         == [0x94, 0x01, id, 0xc0, 0xa0 + |words|] + words
  {
    var s := Responses.Response(1, id, Null, Str(words));
    FixedBytes();
    assert Cut(words) == words && WriteTag(TStr(|words|)) == [0xa0 + |words|];
    hide WriteTag;
    ResponseBytes(s);
    hide Responses.Marshal;
  }
}
