/**
 The strict notification writer against the lenient one of requests and responses.
 */
module Encoders {
  import opened Wire
  import opened Objects
  import Notifications
  import Responses

  /** A buffer without data is the one node the two writers treat differently. */
  predicate HasData(o: Object) { !o.BinNoData? }

  lemma NilIsShorter()
    ensures |WriteTag(TNil)| < |WriteTag(TBin(0))|
  {
  }

  lemma {:induction false} LenientNoLonger(o: Object)
    requires Notifications.Strict(o).Some?
    ensures |Responses.Lenient(o)| <= |Notifications.Strict(o).value|
    ensures |Responses.Lenient(o)| == |Notifications.Strict(o).value| ==> Everywhere(HasData, o)
    ensures Everywhere(HasData, o) ==> Responses.Lenient(o) == Notifications.Strict(o).value
    decreases o, 1
  {
    hide WriteTag;
    hide Cut;
    NilIsShorter();
    match o
    case Str(s) => assert Cut(s) == s;
    case Bin(d) => assert Cut(d) == d;
    case Arr(items) =>
      assert |items| % UINT32_LIMIT == |items|;
      LenientNoLongerAll(items);
      assert EverywhereIn(HasData, items) <==> Everywhere(HasData, o);
    case _ =>
  }

  lemma {:induction false} LenientNoLongerAll(os: seq<Object>)
    requires Notifications.StrictAll(os).Some?
    ensures |Responses.LenientAll(os)| <= |Notifications.StrictAll(os).value|
    ensures |Responses.LenientAll(os)| == |Notifications.StrictAll(os).value| ==> EverywhereIn(HasData, os)
    ensures EverywhereIn(HasData, os) ==> Responses.LenientAll(os) == Notifications.StrictAll(os).value
    decreases os, 0
  {
    if os != [] {
      EverywhereInCons(HasData, os);
      LenientNoLonger(os[0]);
      LenientNoLongerAll(os[1..]);
    }
  }

  /** On every tree the strict writer accepts, both emit the same bytes exactly when every buffer has data. */
  lemma EncodersAgree(o: Object)
    requires Notifications.Strict(o).Some?
    ensures Responses.Lenient(o) == Notifications.Strict(o).value <==> Everywhere(HasData, o)
  {
    LenientNoLonger(o);
  }
}
