/**
 What each method of source/api/Dispatcher.c answers, for every context, environment and
 request: the texts are those a client sees.
 */
module Answers {
  import opened Wire
  import opened Objects
  import opened Samples
  import opened Dispatcher
  import Requests
  import Responses

  type Answer = Option<Responses.Response>

  /** An error response to message `id` with this text, and no result. */
  predicate ErrorIs(r: Answer, id: UInt32, p: Phrase)
  {
    r == Some(Responses.Response(1, id, Str(Words(p)), Null))
  }

  /** A response to message `id` with this result, and no error. */
  predicate ResultIs(r: Answer, id: UInt32, o: Object)
  {
    r == Some(Responses.Response(1, id, Null, o))
  }

  predicate Held(samples: seq<Sample>, name: Bytes) { exists i :: 0 <= i < |samples| && samples[i].name == name }

  predicate OneString(q: Requests.Request) { |q.params| == 1 && q.params[0].Str? }

  // ---------------------------------------------------------------- names and texts

  /** What the methods are called and what the answers say, letter by letter. */
  lemma Vocabulary()
    ensures Name(Ping) == Ascii("test/ping")
    ensures Name(CreateSession) == Ascii("session/create")
    ensures Name(GetName) == Ascii("session/get_name")
    ensures Name(GetWorkingTime) == Ascii("session/get_working_time")
    ensures Name(ImportSample) == Ascii("samplelist/import")
    ensures Name(Remove) == Ascii("samplelist/remove")
    ensures Name(Play) == Ascii("samplelist/play")
    ensures Words(InvalidSampleName) == Ascii("Invalid sample name.")
    ensures Words(NotInList) == Ascii("sample not found")
    ensures Words(NothingToPlay) == Ascii("Sample not found.")
    ensures Words(ExpectedOne) == Ascii("Expected 1 parameter.")
    ensures Words(ExpectedNone) == Ascii("Expected 0 parameters.")
    ensures Words(ExpectedString) == Ascii("Expected a string.")
    ensures Words(NoMethod) == Ascii("Method not specified.")
    ensures Words(PongButArguments) == Ascii("Pong, but those arguments weren't necessary.")
    ensures Words(Pong) == Ascii("pong!")
    ensures Words(AlreadyStarted) == Ascii("Session already started!")
    ensures Words(UnknownMethod) == Ascii("Method not found.")
  {
    hide Ascii;
  }

  lemma AsciiPlain(s: string)
    requires forall i :: 0 <= i < |s| ==> 0 < s[i] as int < 256
    ensures forall i :: 0 <= i < |s| ==> Ascii(s)[i] == s[i] as int
    ensures CString(Ascii(s)) == Ascii(s)
  {
  }

  /** No name holds a NUL, and all are short. */
  lemma NamePlain(m: Method)
    ensures CString(Name(m)) == Name(m) && |Name(m)| < 0x20
  {
    hide CString;
    hide Ascii;
    match m
    case Ping => AsciiPlain("test/ping");
    case CreateSession => AsciiPlain("session/create");
    case GetName => AsciiPlain("session/get_name");
    case GetWorkingTime => AsciiPlain("session/get_working_time");
    case ImportSample => AsciiPlain("samplelist/import");
    case Remove => AsciiPlain("samplelist/remove");
    case Play => AsciiPlain("samplelist/play");
  }

  lemma ComplaintsPlain(p: Phrase)
    requires p in {InvalidSampleName, NotInList, NothingToPlay, ExpectedOne, ExpectedNone, ExpectedString}
    ensures CString(Words(p)) == Words(p)
  {
    hide CString;
    hide Ascii;
    match p
    case InvalidSampleName => AsciiPlain("Invalid sample name.");
    case NotInList => AsciiPlain("sample not found");
    case NothingToPlay => AsciiPlain("Sample not found.");
    case ExpectedOne => AsciiPlain("Expected 1 parameter.");
    case ExpectedNone => AsciiPlain("Expected 0 parameters.");
    case ExpectedString => AsciiPlain("Expected a string.");
  }

  lemma LongPlain()
    ensures CString(Words(PongButArguments)) == Words(PongButArguments)
  {
    hide CString;
    hide Ascii;
    AsciiPlain("Pong, but those arguments weren't necessary.");
  }

  /** No text holds a NUL, so all of it travels. */
  lemma WordsPlain(p: Phrase)
    ensures CString(Words(p)) == Words(p)
  {
    hide CString;
    hide Ascii;
    match p
    case PongButArguments => LongPlain();
    case NoMethod => AsciiPlain("Method not specified.");
    case Pong => AsciiPlain("pong!");
    case AlreadyStarted => AsciiPlain("Session already started!");
    case UnknownMethod => AsciiPlain("Method not found.");
    case _ => ComplaintsPlain(p);
  }

  lemma ErrorWords(id: UInt32, p: Phrase)
    ensures ErrorIs(Some(ErrorResponse(id, Words(p))), id, p)
    ensures ErrorIs(Some(AudioResponse(id, Err(Some(Words(p))))), id, p)
  {
    WordsPlain(p);
    hide Words;
    hide CString;
  }

  /** What the methods with one string parameter say to anything else. */
  lemma ExpectOneAnswers(q: Requests.Request)
    ensures OneString(q) <==> Expect(1, q).None?
    ensures |q.params| != 1 ==> ErrorIs(Expect(1, q), q.msgid, ExpectedOne)
    ensures |q.params| == 1 && !q.params[0].Str? ==> ErrorIs(Expect(1, q), q.msgid, ExpectedString)
  {
    ErrorWords(q.msgid, ExpectedOne);
    ErrorWords(q.msgid, ExpectedString);
    hide Words;
    hide ErrorResponse;
  }

  /** What the methods without parameters say to anything else. */
  lemma ExpectNoneAnswers(q: Requests.Request)
    ensures |q.params| == 0 <==> Expect(0, q).None?
    ensures |q.params| != 0 ==> ErrorIs(Expect(0, q), q.msgid, ExpectedNone)
  {
    ErrorWords(q.msgid, ExpectedNone);
    hide Words;
    hide ErrorResponse;
  }

  // ---------------------------------------------------------------- methods

  /** No other method is meant. */
  lemma OnlyMethod(name: Bytes, m: Method)
    requires name == Name(m)
    ensures forall k: Method :: k != m ==> name != Name(k)
  {
    forall k: Method | k != m ensures name != Name(k) { NamesDistinct(m, k); }
  }

  lemma NoMethodAnswers(ctx: Context, env: Oracle, q: Requests.Request)
    requires q.name.None?
    ensures Dispatch(ctx, env, q).0 == ctx && ErrorIs(Dispatch(ctx, env, q).1, q.msgid, NoMethod)
  {
    ErrorWords(q.msgid, NoMethod);
    hide Words;
    hide ErrorResponse;
  }

  /** A method that is none of the seven is an error and changes nothing. */
  lemma UnknownMethodAnswers(ctx: Context, env: Oracle, q: Requests.Request)
    requires q.name.Some? && forall m: Method :: q.name.value != Name(m)
    ensures Dispatch(ctx, env, q).0 == ctx && ErrorIs(Dispatch(ctx, env, q).1, q.msgid, UnknownMethod)
  {
    ErrorWords(q.msgid, UnknownMethod);
    hide Words;
    hide ErrorResponse;
    hide Name;
  }

  lemma PingAnswers(ctx: Context, env: Oracle, q: Requests.Request)
    requires q.name == Some(Name(Ping))
    ensures var (ctx', r) := Dispatch(ctx, env, q);
            && ctx' == ctx
            && if q.params == [] then ResultIs(r, q.msgid, Str(Words(Pong)))
               else ErrorIs(r, q.msgid, PongButArguments)
  {
    ErrorWords(q.msgid, PongButArguments);
    hide Words;
    hide Name;
    hide ErrorResponse;
  }

  lemma CreateAnswers(ctx: Context, env: Oracle, q: Requests.Request)
    requires q.name == Some(Name(CreateSession))
    ensures var (ctx', r) := Dispatch(ctx, env, q);
            && ctx' == ctx
            && if OneString(q) then ResultIs(r, q.msgid, Str(Words(AlreadyStarted)))
               else if |q.params| == 1 then ErrorIs(r, q.msgid, ExpectedString)
               else ErrorIs(r, q.msgid, ExpectedOne)
  {
    ExpectOneAnswers(q);
    hide Words;
    OnlyMethod(q.name.value, CreateSession);
    hide Name;
    hide Expect;
    hide ErrorResponse;
  }

  /** The session's name, as a C string. */
  lemma GetNameAnswers(ctx: Context, env: Oracle, q: Requests.Request)
    requires q.name == Some(Name(GetName))
    ensures var (ctx', r) := Dispatch(ctx, env, q);
            && ctx' == ctx
            && if |q.params| == 0 then ResultIs(r, q.msgid, Str(CString(ctx.sessionName)))
               else ErrorIs(r, q.msgid, ExpectedNone)
  {
    ExpectNoneAnswers(q);
    hide Words;
    OnlyMethod(q.name.value, GetName);
    hide Name;
    hide Expect;
    hide CString;
    hide ErrorResponse;
  }

  /** What the clock says. */
  lemma GetWorkingTimeAnswers(ctx: Context, env: Oracle, q: Requests.Request)
    requires q.name == Some(Name(GetWorkingTime))
    ensures var (ctx', r) := Dispatch(ctx, env, q);
            && ctx' == ctx
            && if |q.params| == 0 then ResultIs(r, q.msgid, Int(env.workingTime))
               else ErrorIs(r, q.msgid, ExpectedNone)
  {
    ExpectNoneAnswers(q);
    hide Words;
    OnlyMethod(q.name.value, GetWorkingTime);
    hide Name;
    hide Expect;
    hide ErrorResponse;
  }

  /** A queued import: no answer now, and a job that names the message and the path. */
  lemma ImportAnswers(ctx: Context, env: Oracle, q: Requests.Request)
    requires q.name == Some(Name(ImportSample))
    ensures var (ctx', r) := Dispatch(ctx, env, q);
            if OneString(q) then r.None? && ctx' == ctx.(jobs := ctx.jobs + [Job(q.msgid, q.params[0].s)])
            else ctx' == ctx && (if |q.params| == 1 then ErrorIs(r, q.msgid, ExpectedString)
                                 else ErrorIs(r, q.msgid, ExpectedOne))
  {
    ExpectOneAnswers(q);
    hide Words;
    SamplesRoute(ctx, env, q, ImportSample);
    hide Dispatch;
    OnlyMethod(q.name.value, ImportSample);
    hide Name;
    hide Expect;
    hide ErrorResponse;
  }

  /** The first part of the chain passes over the methods of the sample list. */
  lemma SamplesRoute(ctx: Context, env: Oracle, q: Requests.Request, m: Method)
    requires q.name == Some(Name(m)) && m in {ImportSample, Remove, Play}
    ensures Dispatch(ctx, env, q) == DispatchSamples(ctx, env, q, q.name.value)
  {
    OnlyMethod(q.name.value, m);
    hide Name;
    hide Words;
    hide DispatchSamples;
    hide Expect;
    hide ErrorResponse;
    hide ResultResponse;
    hide CString;
  }

  /** What becomes of the list: one sample of that name fewer, counted by name, or nothing. */
  lemma RemoveSampleIs(ctx: Context, name: Bytes)
    ensures var (ctx', r) := RemoveSample(ctx, name);
            && ctx' == ctx.(samples := ctx'.samples)
            && (forall other :: other != name ==> Occurrences(ctx'.samples, other) == Occurrences(ctx.samples, other))
            && if name == [] then r == Err(Some(Words(InvalidSampleName))) && ctx' == ctx
               else if Held(ctx.samples, name) then
                 r == Ok && Occurrences(ctx'.samples, name) == Occurrences(ctx.samples, name) - 1
               else r == Err(Some(Words(NotInList))) && ctx' == ctx
  {
    hide Words;
    HeldIff(ctx.samples, name);
    hide FirstNamed;
    hide Held;
    var gone := Deleted(ctx.samples, name);
    DeletedCount(ctx.samples, name, name);
    forall other | other != name ensures Occurrences(gone, other) == Occurrences(ctx.samples, other) {
      DeletedCount(ctx.samples, name, other);
    }
  }

  /**
   Removing: a name that is held loses one sample, counted by name, and the answer is nil; any
   other name is an error; nothing else in the context changes.
   */
  lemma RemoveAnswers(ctx: Context, env: Oracle, q: Requests.Request)
    requires q.name == Some(Name(Remove)) && OneString(q)
    ensures var name := q.params[0].s;
            var (ctx', r) := Dispatch(ctx, env, q);
            && ctx' == ctx.(samples := ctx'.samples)
            && (forall other :: other != name ==> Occurrences(ctx'.samples, other) == Occurrences(ctx.samples, other))
            && if name == [] then ErrorIs(r, q.msgid, InvalidSampleName) && ctx' == ctx
               else if Held(ctx.samples, name) then
                 ResultIs(r, q.msgid, Nil) && Occurrences(ctx'.samples, name) == Occurrences(ctx.samples, name) - 1
               else ErrorIs(r, q.msgid, NotInList) && ctx' == ctx
  {
    hide Dispatch;
    hide Name;
    hide Words;
    hide RemoveSample;
    hide Occurrences;
    hide Held;
    RemoveRoute(ctx, env, q);
    RemoveSampleIs(ctx, q.params[0].s);
    ErrorWords(q.msgid, InvalidSampleName);
    ErrorWords(q.msgid, NotInList);
  }

  lemma RemoveRoute(ctx: Context, env: Oracle, q: Requests.Request)
    requires q.name == Some(Name(Remove)) && OneString(q)
    ensures var (ctx', r) := RemoveSample(ctx, q.params[0].s);
            Dispatch(ctx, env, q) == (ctx', Some(AudioResponse(q.msgid, r)))
  {
    SamplesRoute(ctx, env, q, Remove);
    hide Dispatch;
    OnlyMethod(q.name.value, Remove);
    ExpectOneAnswers(q);
    hide Name;
    hide Words;
    hide RemoveSample;
    hide AudioResponse;
    hide ErrorResponse;
    hide Expect;
    hide ErrorIs;
  }

  lemma HeldIff(samples: seq<Sample>, name: Bytes)
    ensures Held(samples, name) <==> FirstNamed(samples, name) < |samples|
    ensures Held(samples, name) <==> Find(samples, name).Some?
    ensures Held(samples, name) <==> Occurrences(samples, name) > 0
  {
  }

  /** The sample list changes exactly on a remove of a name that is held. */
  lemma SamplesChangeIff(ctx: Context, env: Oracle, q: Requests.Request)
    ensures Dispatch(ctx, env, q).0.samples != ctx.samples <==>
              && q.name == Some(Name(Remove)) && OneString(q)
              && q.params[0].s != [] && Held(ctx.samples, q.params[0].s)
  {
    OnlyRemoveChangesSamples(ctx, env, q);
    hide Name;
    hide Dispatch;
    hide Occurrences;
    hide Held;
    if q.name == Some(Name(Remove)) && OneString(q) {
      RemoveAnswers(ctx, env, q);
    }
  }

  /** Playing: only a name that is held reaches the audio device, whose verdict is the answer. */
  lemma PlayAnswers(ctx: Context, env: Oracle, q: Requests.Request)
    requires q.name == Some(Name(Play)) && OneString(q)
    ensures var name := q.params[0].s;
            var (ctx', r) := Dispatch(ctx, env, q);
            && ctx' == ctx
            && if name == [] then ErrorIs(r, q.msgid, InvalidSampleName)
               else if !Held(ctx.samples, name) then ErrorIs(r, q.msgid, NothingToPlay)
               else match env.play
                 case Ok => ResultIs(r, q.msgid, Nil)
                 case Err(None) => r == Some(Responses.Response(1, q.msgid, Nil, Null))
                 case Err(Some(text)) => r == Some(Responses.Response(1, q.msgid, Str(CString(text)), Null))
  {
    ErrorWords(q.msgid, InvalidSampleName);
    ErrorWords(q.msgid, NothingToPlay);
    HeldIff(ctx.samples, q.params[0].s);
    hide Words;
    SamplesRoute(ctx, env, q, Play);
    hide Dispatch;
    OnlyMethod(q.name.value, Play);
    hide Name;
    hide Held;
    hide Find;
    hide Occurrences;
    hide CString;
  }

  /** Both complain about other parameters, and then nothing changes. */
  lemma SampleComplaints(ctx: Context, env: Oracle, q: Requests.Request)
    requires q.name == Some(Name(Remove)) || q.name == Some(Name(Play))
    requires !OneString(q)
    ensures var (ctx', r) := Dispatch(ctx, env, q);
            ctx' == ctx && (if |q.params| == 1 then ErrorIs(r, q.msgid, ExpectedString)
                            else ErrorIs(r, q.msgid, ExpectedOne))
  {
    ExpectOneAnswers(q);
    hide Words;
    var m := if q.name.value == Name(Remove) then Remove else Play;
    SamplesRoute(ctx, env, q, m);
    hide Dispatch;
    OnlyMethod(q.name.value, m);
    hide RemoveSample;
    hide PlaySample;
    hide Name;
    hide Expect;
    hide ErrorResponse;
  }
}
