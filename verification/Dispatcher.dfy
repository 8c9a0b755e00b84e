/**
 source/api/Dispatcher.c and source/server/Dispatch.c: one decoded request to at most one
 response.  The clock and the audio device answer through an Oracle.
 */
module Dispatcher {
  import opened Wire
  import opened Objects
  import opened Samples
  import Requests
  import Responses

  /** A queued import: what the audio worker will need to answer later. */
  datatype Job = Job(msgid: UInt32, path: Bytes)

  /** The part of Context that dispatching can see; ContextNew always makes a session. */
  datatype Context = Context(sessionName: Bytes, samples: seq<Sample>, jobs: seq<Job>)

  /** What the outside world would say during one dispatch. */
  datatype Oracle = Oracle(workingTime: Int64, play: ResultAudio)

  // ---------------------------------------------------------------- names and texts

  datatype Method = Ping | CreateSession | GetName | GetWorkingTime | ImportSample | Remove | Play

  /** The name a method is called by. */
  function Name(m: Method): Bytes
  {
    match m
    case Ping => Ascii("test/ping")
    case CreateSession => Ascii("session/create")
    case GetName => Ascii("session/get_name")
    case GetWorkingTime => Ascii("session/get_working_time")
    case ImportSample => Ascii("samplelist/import")
    case Remove => Ascii("samplelist/remove")
    case Play => Ascii("samplelist/play")
  }

  /** No two methods have the same name. */
  lemma NamesDistinct(m: Method, k: Method)
    ensures Name(m) == Name(k) ==> m == k
  {
    assert |Name(Ping)| == 9 && |Name(CreateSession)| == 14 && |Name(GetName)| == 16 && |Name(GetWorkingTime)| == 24;
    assert |Name(ImportSample)| == 17 && |Name(Remove)| == 17 && |Name(Play)| == 15;
    assert Name(ImportSample)[11] != Name(Remove)[11];
    hide Name;
  }

  datatype Phrase =
    | InvalidSampleName
    | NotInList
    | NothingToPlay
    | ExpectedOne
    | ExpectedNone
    | ExpectedString
    | NoMethod
    | PongButArguments
    | Pong
    | AlreadyStarted
    | UnknownMethod

  /** The texts that answers are made of. */
  function Words(p: Phrase): Bytes
  {
    match p
    case InvalidSampleName => Ascii("Invalid sample name.")
    case NotInList => Ascii("sample not found")
    case NothingToPlay => Ascii("Sample not found.")
    case ExpectedOne => Ascii("Expected 1 parameter.")
    case ExpectedNone => Ascii("Expected 0 parameters.")
    case ExpectedString => Ascii("Expected a string.")
    case NoMethod => Ascii("Method not specified.")
    case PongButArguments => Ascii("Pong, but those arguments weren't necessary.")
    case Pong => Ascii("pong!")
    case AlreadyStarted => Ascii("Session already started!")
    case UnknownMethod => Ascii("Method not found.")
  }

  // ---------------------------------------------------------------- response constructors

  function ErrorResponse(msgid: UInt32, text: Bytes): Responses.Response
  {
    Responses.Response(Responses.RPC_RESPONSE, msgid, Str(CString(text)), Null)
  }

  function ResultResponse(msgid: UInt32, result: Object): Responses.Response
  {
    Responses.Response(Responses.RPC_RESPONSE, msgid, Null, result)
  }

  /** ResponseCreateResultAudio: nil on success, otherwise the message, or nil when it is null. */
  function AudioResponse(msgid: UInt32, r: ResultAudio): Responses.Response
  {
    match r
    case Ok => ResultResponse(msgid, Nil)
    case Err(None) => Responses.Response(Responses.RPC_RESPONSE, msgid, Nil, Null)
    case Err(Some(text)) => ErrorResponse(msgid, text)
  }

  // ---------------------------------------------------------------- methods

  function RemoveSample(ctx: Context, name: Bytes): (res: (Context, ResultAudio))
  {
    if name == [] then (ctx, Err(Some(Words(InvalidSampleName))))
    else if FirstNamed(ctx.samples, name) == |ctx.samples| then (ctx, Err(Some(Words(NotInList))))
    else (ctx.(samples := Deleted(ctx.samples, name)), Ok)
  }

  function PlaySample(ctx: Context, env: Oracle, name: Bytes): (r: ResultAudio)
  {
    if name == [] then Err(Some(Words(InvalidSampleName)))
    else if Find(ctx.samples, name).None? then Err(Some(Words(NothingToPlay)))
    else env.play
  }

  function Expect(n: nat, q: Requests.Request): (complaint: Option<Responses.Response>)
  {
    if |q.params| != n then
      Some(ErrorResponse(q.msgid, Words(if n == 1 then ExpectedOne else ExpectedNone)))
    else if n == 1 && !q.params[0].Str? then Some(ErrorResponse(q.msgid, Words(ExpectedString)))
    else None
  }

  /** DispatchRPCMessage up to "Method not found."; it never produces a notification. */
  function Dispatch(ctx: Context, env: Oracle, q: Requests.Request): (res: (Context, Option<Responses.Response>))
  {
    if q.name.None? then (ctx, Some(ErrorResponse(q.msgid, Words(NoMethod))))
    else
      var name := q.name.value;
      if name == Name(Ping) then
        if |q.params| != 0 then (ctx, Some(ErrorResponse(q.msgid, Words(PongButArguments))))
        else (ctx, Some(ResultResponse(q.msgid, Str(Words(Pong)))))
      else if name == Name(CreateSession) then
        if Expect(1, q).Some? then (ctx, Expect(1, q))
        else (ctx, Some(ResultResponse(q.msgid, Str(Words(AlreadyStarted)))))
      else if name == Name(GetName) then
        if Expect(0, q).Some? then (ctx, Expect(0, q))
        else (ctx, Some(ResultResponse(q.msgid, Str(CString(ctx.sessionName)))))
      else if name == Name(GetWorkingTime) then
        if Expect(0, q).Some? then (ctx, Expect(0, q))
        else (ctx, Some(ResultResponse(q.msgid, Int(env.workingTime))))
      else DispatchSamples(ctx, env, q, name)
  }

  /** The methods of the sample list, and the end of the chain. */
  function DispatchSamples(ctx: Context, env: Oracle, q: Requests.Request, name: Bytes)
    : (res: (Context, Option<Responses.Response>))
  {
    if name == Name(ImportSample) then
      if Expect(1, q).Some? then (ctx, Expect(1, q))
      else (ctx.(jobs := ctx.jobs + [Job(q.msgid, q.params[0].s)]), None)
    else if name == Name(Remove) then
      if Expect(1, q).Some? then (ctx, Expect(1, q))
      else
        var (ctx', r) := RemoveSample(ctx, q.params[0].s);
        (ctx', Some(AudioResponse(q.msgid, r)))
    else if name == Name(Play) then
      if Expect(1, q).Some? then (ctx, Expect(1, q))
      else (ctx, Some(AudioResponse(q.msgid, PlaySample(ctx, env, q.params[0].s))))
    else (ctx, Some(ErrorResponse(q.msgid, Words(UnknownMethod))))
  }

  /** Fields that travel: scalars and strings only, so any response fits its encoding. */
  predicate Scalar(o: Object) { o.Null? || o.Nil? || o.Int? || o.Str? }

  /** A response to message `msgid` that never carries both a non-nil error and a non-nil result. */
  predicate Proper(r: Responses.Response, msgid: UInt32)
  {
    && r.kind == Responses.RPC_RESPONSE && r.msgid == msgid
    && Scalar(r.error) && Scalar(r.result)
    && (Responses.Canon(r.error).Nil? || Responses.Canon(r.result).Nil?)
  }

  lemma ConstructorsProper(msgid: UInt32, text: Bytes, o: Object, r: ResultAudio)
    requires Scalar(o)
    ensures Proper(ErrorResponse(msgid, text), msgid)
    ensures Proper(ResultResponse(msgid, o), msgid)
    ensures Proper(AudioResponse(msgid, r), msgid)
  {
    hide CString;
  }

  /** A complaint about the parameters is proper, whatever was expected. */
  lemma ExpectProper(n: nat, q: Requests.Request)
    ensures Expect(n, q).Some? ==> Proper(Expect(n, q).value, q.msgid)
  {
    ConstructorsProper(q.msgid, Words(if n == 1 then ExpectedOne else ExpectedNone), Nil, Ok);
    ConstructorsProper(q.msgid, Words(ExpectedString), Nil, Ok);
    hide Words;
    hide ErrorResponse;
    hide Proper;
  }

  lemma SamplesOneSided(ctx: Context, env: Oracle, q: Requests.Request, name: Bytes)
    ensures var r := DispatchSamples(ctx, env, q, name).1; r.Some? ==> Proper(r.value, q.msgid)
  {
    hide Name;
    hide Words;
    hide RemoveSample;
    hide PlaySample;
    hide Proper;
    hide ErrorResponse;
    hide AudioResponse;
    ExpectProper(1, q);
    ConstructorsProper(q.msgid, Words(UnknownMethod), Nil, Ok);
    if Expect(1, q).None? {
      var text := q.params[0].s;
      ConstructorsProper(q.msgid, [], Nil, RemoveSample(ctx, text).1);
      ConstructorsProper(q.msgid, [], Nil, PlaySample(ctx, env, text));
    }
    hide Expect;
  }

  /**
   Every response is a response to this very request, and never carries both a non-nil error
   and a non-nil result.
   */
  lemma OneSided(ctx: Context, env: Oracle, q: Requests.Request)
    ensures var r := Dispatch(ctx, env, q).1; r.Some? ==> Proper(r.value, q.msgid)
  {
    hide Name;
    hide Words;
    hide CString;
    hide Proper;
    hide ErrorResponse;
    hide ResultResponse;
    hide DispatchSamples;
    hide Expect;
    if q.name.Some? { SamplesOneSided(ctx, env, q, q.name.value); }
    ExpectProper(0, q);
    ExpectProper(1, q);
    ConstructorsProper(q.msgid, Words(NoMethod), Str(Words(Pong)), Ok);
    ConstructorsProper(q.msgid, Words(PongButArguments), Str(Words(AlreadyStarted)), Ok);
    ConstructorsProper(q.msgid, [], Str(CString(ctx.sessionName)), Ok);
    ConstructorsProper(q.msgid, [], Int(env.workingTime), Ok);
  }

  /** Only an accepted import leaves the caller without an answer, and it queues exactly one job. */
  lemma SilentIffQueued(ctx: Context, env: Oracle, q: Requests.Request)
    ensures var (ctx', r) := Dispatch(ctx, env, q);
            && (r.None? <==> q.name == Some(Name(ImportSample)) && |q.params| == 1 && q.params[0].Str?)
            && ctx'.jobs == ctx.jobs + (if r.None? then [Job(q.msgid, q.params[0].s)] else [])
  {
    hide CString;
    hide FirstNamed;
    hide Deleted;
    hide Find;
    hide ErrorResponse;
    hide ResultResponse;
    hide AudioResponse;
    hide PlaySample;
    forall m: Method ensures Name(m) == Name(ImportSample) ==> m == ImportSample { NamesDistinct(m, ImportSample); }
    hide Name;
    hide Words;
  }

  /** No request but a remove touches the sample list, and no request touches the session. */
  lemma OnlyRemoveChangesSamples(ctx: Context, env: Oracle, q: Requests.Request)
    ensures var ctx' := Dispatch(ctx, env, q).0;
            && ctx'.sessionName == ctx.sessionName
            && (ctx'.samples != ctx.samples ==>
                  q.name == Some(Name(Remove)) && |q.params| == 1 && q.params[0].Str?
                  && ctx'.samples == Deleted(ctx.samples, q.params[0].s))
  {
    hide Name;
    hide Words;
    hide CString;
    hide FirstNamed;
    hide Find;
    hide ErrorResponse;
    hide ResultResponse;
    hide AudioResponse;
    hide PlaySample;
  }

  /**
   session/create never creates anything: with one string parameter it says "Session already
   started!" in the result, not in the error; with any others it fails; the context stays.
   */
  lemma SessionCreateRefusesInResult(ctx: Context, env: Oracle, q: Requests.Request)
    requires q.name == Some(Name(CreateSession))
    ensures var (ctx', r) := Dispatch(ctx, env, q);
            && ctx' == ctx && r.Some?
            && (|q.params| == 1 && q.params[0].Str? <==> r.value.error.Null?)
            && (r.value.error.Null? <==> r.value.result == Str(Words(AlreadyStarted)))
  {
    NamesDistinct(Ping, CreateSession);
    hide Name;
    hide Words;
    hide CString;
  }

  // ---------------------------------------------------------------- bytes in, bytes out

  /** DispatchBytes, with the number of bytes the request took and the context afterwards. */
  datatype DispatchBytes = DispatchBytes(ok: bool, response: Option<Bytes>, consumed: nat, ctx: Context)

  /** The reply to one decoded request: dispatch, then marshal what came back. */
  function Reply(ctx: Context, env: Oracle, q: Requests.Request): (res: (Context, Option<Bytes>))
  {
    var (ctx', r) := Dispatch(ctx, env, q);
    (ctx', if r.None? then None else Some(Responses.Marshal(r.value)))
  }

  /** ServerDispatch: decode, dispatch, marshal. */
  function ServerDispatch(ctx: Context, env: Oracle, buffer: Bytes): (db: DispatchBytes)
    ensures db.ok ==> 0 < db.consumed <= |buffer|
  {
    var (q, consumed) := Requests.Decode(buffer);
    if q.None? then DispatchBytes(false, None, consumed, ctx)
    else
      var (ctx', reply) := Reply(ctx, env, q.value);
      DispatchBytes(true, reply, consumed, ctx')
  }
}
