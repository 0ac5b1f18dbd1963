/** The incremental response parser: its state as a value, its phases, and what they do to a stream
    that arrives in pieces. */
module Responses {
  import opened Outcomes
  import opened Text
  import opened Numbers
  import opened StartLines
  import opened Headers
  import opened ChunkedCoding

  const TRANSFER_ENCODING: string := "Transfer-Encoding"
  const CHUNKED: string := "chunked"

  datatype Response = Response(
    version: string, code: int, reason: string, headers: HeaderMap, body: string,
    unparsed: string, titleParsed: bool, headersParsed: bool, bodyParsed: bool)
  {
    predicate Complete() {
      titleParsed && headersParsed && bodyParsed
    }

    /** Whether the body phase will run the chunk decoder. */
    predicate IsChunked() {
      CONTENT_LENGTH !in headers && TRANSFER_ENCODING in headers && headers[TRANSFER_ENCODING] == CHUNKED
    }

    /** The same parser with more bytes in its buffer. */
    function Extended(v: string): Response {
      this.(unparsed := unparsed + v)
    }
  }

  /** A parser that has been fed nothing.  (The status code is not initialised by the program; it
      is assigned before anything reads it.) */
  const FRESH: Response := Response("HTTP/" + HTTP_VERSION, 0, "", map[], "", "", false, false, false)

  // ---------------------------------------------------------------- the phases

  datatype Title = Title(version: string, code: int, reason: string, rest: string)

  /** The start line.  A blank or line break that is not there shows up as npos, so that the next
      piece starts 0 or 1 bytes into what is left; there is no case for a partial line. */
  function ReadTitle(u: string): Result<Title> {
    var sp := Find(u, ' ');
    var u1 :- Substr(u, sp + 1);
    var sp1 := Find(u1, ' ');
    var code :- Stoi(Prefix(u1, sp1));
    var u2 :- Substr(u1, sp1 + 1);
    var eol := FindCrlf(u2);
    var rest :- Substr(u2, eol + 2);
    Success(Title(Prefix(u, sp), code, Prefix(u2, eol), rest))
  }

  function TitlePhase(r: Response): Result<Response> {
    if r.titleParsed then Success(r)
    else
      var t :- ReadTitle(r.unparsed);
      Success(r.(version := t.version, code := t.code, reason := t.reason, unparsed := t.rest,
                 titleParsed := true))
  }

  function HeadersPhase(r: Response): Result<Response> {
    if r.headersParsed then Success(r)
    else
      var h :- HeaderPhase(r.unparsed, r.headers, KeepFirstTrimmed);
      Success(r.(headers := h.headers, unparsed := h.unparsed, headersParsed := h.done))
  }

  function BodyPhase(r: Response): Result<Response> {
    if CONTENT_LENGTH in r.headers then
      var cnt :- Stoi(r.headers[CONTENT_LENGTH]);
      var body := r.body + r.unparsed;
      Success(r.(body := body, unparsed := "", bodyParsed := cnt == |body|))
    else if TRANSFER_ENCODING in r.headers then
      if r.headers[TRANSFER_ENCODING] == CHUNKED then
        var d :- Decode(r.unparsed, r.body);
        Success(r.(body := d.body, unparsed := d.unparsed, bodyParsed := d.done))
      else Success(r)
    else Success(r.(bodyParsed := true))
  }

  function HeadPhases(r: Response): Result<Response> {
    var r1 :- TitlePhase(r);
    HeadersPhase(r1)
  }

  /** The phase loop.  With all three flags up no branch is left and it spins for ever. */
  function Parse(r: Response): Result<Response> {
    var h :- HeadPhases(r);
    if !h.headersParsed then Success(h)
    else if h.bodyParsed then Failure(NeverReturns)
    else BodyPhase(h)
  }

  function AppendData(r: Response, data: string): Result<Response> {
    Parse(r.Extended(data))
  }

  /** Fragment after fragment into the same parser. */
  function Feed(r: Response, fs: seq<string>): Result<Response> {
    if fs == [] then Success(r)
    else
      var r1 :- Feed(r, fs[..|fs| - 1]);
      AppendData(r1, fs[|fs| - 1])
  }

  lemma {:induction false} FeedFailsForGood(r: Response, fs: seq<string>, i: nat)
    requires i <= |fs| && Feed(r, fs[..i]).Failure?
    ensures Feed(r, fs).Failure?
  {
    hide AppendData;
    if i < |fs| {
      assert fs[..|fs| - 1][..i] == fs[..i];
      FeedFailsForGood(r, fs[..|fs| - 1], i);
    } else {
      assert fs[..i] == fs;
    }
  }

  // ---------------------------------------------------------------- the loop itself, turn by turn

  datatype Progress = Going(state: Response) | Left(result: Result<Response>)

  /** One turn of the loop: it goes on, or leaves with a state or by an exception. */
  function Turn(r: Response): Progress {
    if !r.titleParsed then
      var t := TitlePhase(r);
      if t.Failure? then Left(t) else Going(t.value)
    else if !r.headersParsed then
      var next := FindCrlf(r.unparsed);
      if next == 0 then Going(r.(headersParsed := true, unparsed := r.unparsed[2..]))
      else if next == NPOS then Left(Success(r))
      else
        var h := AddLine(r.headers, r.unparsed[..next], KeepFirstTrimmed);
        if h.Failure? then Left(Failure(h.error))
        else Going(r.(headers := h.value, unparsed := r.unparsed[next + 2..]))
    else if !r.bodyParsed then Left(BodyPhase(r))
    else Going(r)  // no branch is taken, and nothing changes
  }

  function Turns(r: Response, n: nat): Progress
    decreases n
  {
    if n == 0 then Going(r)
    else
      var p := Turn(r);
      if p.Left? then p else Turns(p.state, n - 1)
  }

  lemma {:induction false} CompleteStays(r: Response, n: nat)
    requires r.Complete()
    ensures Turns(r, n) == Going(r)
  {
    if n > 0 {
      CompleteStays(r, n - 1);
    }
  }

  lemma TurnMakesProgress(r: Response)
    requires !r.Complete()
    ensures var p := Turn(r);
            if p.Left? then Parse(r) == p.result && p.result != Failure(NeverReturns)
            else
              && Parse(r) == Parse(p.state)
              && (if !r.titleParsed then p.state.titleParsed
                  else p.state.titleParsed && !r.headersParsed
                       && (p.state.headersParsed || |p.state.unparsed| < |r.unparsed|))
  {
    hide ReadTitle, AddLine, BodyPhase, FindCrlf;
    TitleNeverSpins(r.unparsed);
    AddLineNeverSpins(r);
    BodyNeverSpins(r);
  }

  lemma AddLineNeverSpins(r: Response)
    ensures forall line :: AddLine(r.headers, line, KeepFirstTrimmed) != Failure(NeverReturns)
  {
    hide Find, Trim;
  }

  /** The loop comes to an end, with what `Parse` says, unless `Parse` says that it never returns;
      and then every number of turns leaves it going. */
  lemma {:induction false} ParseIsTheLoop(r: Response) returns (n: nat)
    ensures if Parse(r) == Failure(NeverReturns) then forall k: nat :: Turns(r, k).Going?
            else Turns(r, n) == Left(Parse(r))
    decreases !r.titleParsed, !r.headersParsed, |r.unparsed|
  {
    hide Turn, Parse;
    n := 0;
    if r.Complete() {
      CompleteSpins(r);
      forall k: nat ensures Turns(r, k).Going? {
        CompleteStays(r, k);
      }
    } else {
      TurnMakesProgress(r);
      var p := Turn(r);
      n := 1;
      if p.Left? {
        assert Turns(r, 1) == p;
      } else {
        var m := ParseIsTheLoop(p.state);
        n := m + 1;
        forall k: nat ensures k > 0 ==> Turns(r, k) == Turns(p.state, k - 1) {
        }
      }
    }
  }

  lemma CompleteSpins(r: Response)
    requires r.Complete()
    ensures Parse(r) == Failure(NeverReturns)
  {
  }

  /** More data makes the loop spin for ever exactly when the message was complete. */
  lemma SpinsWhenComplete(r: Response, data: string)
    requires r.bodyParsed ==> r.Complete()
    ensures (forall k: nat :: Turns(r.Extended(data), k).Going?) <==> r.Complete()
  {
    hide Turns, Parse;
    var q := r.Extended(data);
    var n := ParseIsTheLoop(q);
    if r.Complete() {
      CompleteSpins(q);
    } else {
      IncompleteReturns(r, data);
      assert Turns(q, n).Left?;
    }
  }

  lemma IncompleteReturns(r: Response, data: string)
    requires !r.bodyParsed
    ensures Parse(r.Extended(data)) != Failure(NeverReturns)
  {
    hide HeadPhases, BodyPhase;
    HeadNeverSpins(r.Extended(data));
    var h := HeadPhases(r.Extended(data));
    if h.Success? {
      HeadKeepsFlags(r.Extended(data));
      BodyNeverSpins(h.value);
    }
  }

  lemma TitleNeverSpins(u: string)
    ensures ReadTitle(u).Failure? ==> ReadTitle(u).error != NeverReturns
  {
    hide Find, FindCrlf, Stoi, Substr, Prefix;
  }

  lemma HeadNeverSpins(r: Response)
    ensures HeadPhases(r).Failure? ==> HeadPhases(r).error != NeverReturns
  {
    hide ReadTitle, HeaderPhase;
    TitleNeverSpins(r.unparsed);
  }

  lemma BodyNeverSpins(r: Response)
    ensures BodyPhase(r).Failure? ==> BodyPhase(r).error != NeverReturns
  {
    hide Stoi, Decode;
  }

  // ---------------------------------------------------------------- resuming

  lemma ReadTitleText(version: string, code: string, reason: string, rest: string)
    requires ' ' !in version && ' ' !in code && CrlfFree(reason)
    ensures var u := StartText(version, code, reason, rest);
            && StartLineIn(u)
            && ReadTitle(u) == if Stoi(code).Failure? then Failure(Stoi(code).error)
                               else Success(Title(version, Stoi(code).value, reason, rest))
  {
    hide Find, FindCrlf, Stoi, CrlfFree;
    var u1, u2 := FindInStartText(version, code, reason, rest);
  }

  lemma TitleResumes(u: string, v: string)
    requires StartLineIn(u)
    ensures StartLineIn(u + v)
    ensures var t := ReadTitle(u);
            ReadTitle(u + v) == if t.Failure? then t else Success(t.value.(rest := t.value.rest + v))
  {
    hide StartLineIn, ReadTitle, Stoi, CrlfFree;
    var version, code, reason, rest := StartLinePieces(u);
    ReadTitleText(version, code, reason, rest);
    ReadTitleText(version, code, reason, rest + v);
    StartTextExtends(version, code, reason, rest, v);
  }

  lemma HeadResumes(r: Response, v: string)
    requires r.titleParsed || StartLineIn(r.unparsed)
    ensures var h := HeadPhases(r);
            HeadPhases(r.Extended(v)) ==
            if h.Failure? then h
            else if h.value.headersParsed then Success(h.value.Extended(v))
            else HeadPhases(h.value.Extended(v))
  {
    hide StartLineIn, ReadTitle, HeaderPhase;
    if !r.titleParsed {
      TitleResumes(r.unparsed, v);
    }
    var t := TitlePhase(r);
    if t.Success? {
      HeaderPhaseResumes(t.value.unparsed, v, t.value.headers, KeepFirstTrimmed);
    }
  }

  lemma BodyResumes(h: Response, v: string)
    requires h.IsChunked() ==> Clean(h.unparsed)
    requires BodyPhase(h).Success? && !BodyPhase(h).value.bodyParsed
    ensures BodyPhase(h.Extended(v)) == BodyPhase(BodyPhase(h).value.Extended(v))
  {
    hide Decode, Clean, Stoi;
    if h.IsChunked() {
      DecodeResumes(h.unparsed, v, h.body);
    } else {
      assert h.body + (h.unparsed + v) == h.body + h.unparsed + ("" + v);
    }
  }

  /** After these bytes the parser is still waiting, and its chunk decoder, if it ran, took only
      chunks whose size line it had seen whole. */
  predicate Waits(r: Response, u: string) {
    && AppendData(r, u).Success? && !AppendData(r, u).value.Complete()
    && (HeadPhases(r.Extended(u)).value.headersParsed && HeadPhases(r.Extended(u)).value.IsChunked()
        ==> Clean(HeadPhases(r.Extended(u)).value.unparsed))
  }

  /** Two fragments or one: as long as the parser waits in between, there is no difference, on any
      bytes and up to the very exception that is thrown. */
  lemma Resumes(r: Response, u: string, v: string)
    requires r.titleParsed || StartLineIn(r.unparsed + u)
    requires Waits(r, u)
    ensures AppendData(r, u + v) == AppendData(AppendData(r, u).value, v)
  {
    hide StartLineIn, HeadPhases, BodyPhase, Clean;
    assert r.unparsed + (u + v) == r.unparsed + u + v;
    HeadResumes(r.Extended(u), v);
    var h := HeadPhases(r.Extended(u)).value;
    HeadKeepsFlags(r.Extended(u));
    if h.headersParsed {
      BodyKeepsFlags(h);
      BodyResumes(h, v);
      HeadIsOver(BodyPhase(h).value.Extended(v));
    }
  }

  lemma HeadKeepsFlags(r: Response)
    requires HeadPhases(r).Success?
    ensures HeadPhases(r).value.titleParsed && HeadPhases(r).value.bodyParsed == r.bodyParsed
  {
    hide ReadTitle, HeaderPhase;
  }

  lemma BodyKeepsFlags(r: Response)
    requires BodyPhase(r).Success?
    ensures BodyPhase(r).value.titleParsed == r.titleParsed && BodyPhase(r).value.headersParsed == r.headersParsed
    ensures BodyPhase(r).value.headers == r.headers
  {
    hide Decode, Stoi;
  }

  lemma HeadIsOver(r: Response)
    requires r.titleParsed && r.headersParsed
    ensures HeadPhases(r) == Success(r)
  {
  }

  /** Feeding fragments is feeding their concatenation, provided that the parser waits at every
      cut and the start line is not cut. */
  lemma {:induction false} FeedIsOneShot(r: Response, fs: seq<string>)
    requires fs != [] && (r.titleParsed || StartLineIn(r.unparsed + fs[0]))
    requires forall i | 1 <= i < |fs| :: Waits(r, Concat(fs[..i]))
    ensures Feed(r, fs) == AppendData(r, Concat(fs))
  {
    hide StartLineIn, AppendData, Waits;
    var init, last := fs[..|fs| - 1], fs[|fs| - 1];
    if init == [] {
      assert Concat(init) + last == last;
    } else {
      forall i | 1 <= i < |init| ensures Waits(r, Concat(init[..i])) {
        assert init[..i] == fs[..i];
      }
      FeedIsOneShot(r, init);
      assert Waits(r, Concat(fs[..|init|]));
      StartLineStays(r.unparsed, init);
      WaitsGives(r, Concat(init));
      Resumes(r, Concat(init), last);
    }
  }

  lemma WaitsGives(r: Response, u: string)
    requires Waits(r, u)
    ensures AppendData(r, u).Success? && !AppendData(r, u).value.Complete()
  {
  }

  // ---------------------------------------------------------------- well-formed messages

  datatype Body = NoBody | Sized(data: string) | Chunks(chunks: seq<Chunk>)

  /** A response as its sender means it. */
  datatype Message = Message(version: string, code: string, reason: string, lines: seq<string>, body: Body)

  function StartLine(m: Message): string {
    m.version + [' '] + (m.code + [' '] + (m.reason + CRLF))
  }

  function HeaderWire(m: Message): string {
    Lines(m.lines) + CRLF
  }

  function BodyWire(b: Body): string {
    match b
    case NoBody => ""
    case Sized(data) => data
    case Chunks(cs) => Wire(cs) + TERMINATOR
  }

  function MessageWire(m: Message): string {
    StartLine(m) + (HeaderWire(m) + BodyWire(m.body))
  }

  function Data(b: Body): string {
    match b
    case NoBody => ""
    case Sized(data) => data
    case Chunks(cs) => Payload(cs)
  }

  /** The start line and the header lines are each in order, and folding the lines succeeds. */
  predicate HeadOk(m: Message) {
    && ' ' !in m.version && ' ' !in m.code && Stoi(m.code).Success? && CrlfFree(m.reason)
    && (forall l | l in m.lines :: LineOk(l))
    && Fold(map[], m.lines, KeepFirstTrimmed).Success?
  }

  function HeaderFold(m: Message): HeaderMap
    requires HeadOk(m)
  {
    Fold(map[], m.lines, KeepFirstTrimmed).value
  }

  /** The body is delimited the way the headers say (section 3.3.3 of RFC 7230). */
  predicate BodyOk(b: Body, h: HeaderMap) {
    match b
    case NoBody => CONTENT_LENGTH !in h && TRANSFER_ENCODING !in h
    case Sized(data) => CONTENT_LENGTH in h && Stoi(h[CONTENT_LENGTH]) == Success(|data|)
    case Chunks(cs) =>
      && CONTENT_LENGTH !in h && TRANSFER_ENCODING in h && h[TRANSFER_ENCODING] == CHUNKED
      && ChunksOk(cs)
  }

  predicate MessageOk(m: Message) {
    HeadOk(m) && BodyOk(m.body, HeaderFold(m))
  }

  /** The parser's state once the head is over and `rest` has not been looked at. */
  function AfterHead(m: Message, rest: string): Response
    requires HeadOk(m)
  {
    Response(m.version, Stoi(m.code).value, m.reason, HeaderFold(m), "", rest, true, true, false)
  }

  /** What the parser must arrive at: status, first value of every header, body; nothing left. */
  function Completed(m: Message): Response
    requires HeadOk(m)
  {
    AfterHead(m, "").(body := Data(m.body), bodyParsed := true)
  }

  lemma ReadStartLine(m: Message, rest: string)
    requires HeadOk(m)
    ensures var u := StartLine(m) + rest;
            && StartLineIn(u)
            && ReadTitle(u) == Success(Title(m.version, Stoi(m.code).value, m.reason, rest))
  {
    hide StartLineIn, ReadTitle, Stoi, Fold, LineOk, CrlfFree;
    ReadTitleText(m.version, m.code, m.reason, rest);
    assert StartLine(m) + rest == StartText(m.version, m.code, m.reason, rest);
  }

  /** The head of a message is read for what it is, whatever follows it. */
  lemma HeadIsRead(m: Message, rest: string)
    requires HeadOk(m)
    ensures HeadPhases(FRESH.Extended(StartLine(m) + (HeaderWire(m) + rest))) == Success(AfterHead(m, rest))
  {
    hide ReadTitle, StartLineIn, HeaderPhase, Stoi, Fold, LineOk;
    ReadStartLine(m, HeaderWire(m) + rest);
    assert HeaderWire(m) + rest == Lines(m.lines) + (CRLF + rest);
    HeaderBlock(m.lines, rest, map[], KeepFirstTrimmed);
    var u := StartLine(m) + (HeaderWire(m) + rest);
    assert "" + u == u;
  }

  lemma BodyIsRead(m: Message)
    requires MessageOk(m)
    ensures BodyPhase(AfterHead(m, BodyWire(m.body))) == Success(Completed(m))
  {
    hide Decode, Stoi, Fold, ChunksOk, HeadOk;
    if m.body.Chunks? {
      DecodeWholeMessage(m.body.chunks, "", "");
      assert TERMINATOR + "" == TERMINATOR && "" + Data(m.body) == Data(m.body);
    } else {
      assert "" + Data(m.body) == Data(m.body);
    }
  }

  /** Fed in one piece, every well-formed message completes with its meaning and no leftover. */
  lemma OneShot(m: Message)
    requires MessageOk(m)
    ensures AppendData(FRESH, MessageWire(m)) == Success(Completed(m))
  {
    hide HeadPhases, BodyPhase, Stoi, Fold;
    HeadIsRead(m, BodyWire(m.body));
    BodyIsRead(m);
  }

  // ---------------------------------------------------------------- independence of the cuts

  /** A cut `k` bytes into the message is quiet if it is not among the chunks, or quiet there.  In
      particular it is not strictly inside the terminator. */
  predicate QuietAt(m: Message, k: nat) {
    var head := |StartLine(m)| + |HeaderWire(m)|;
    m.body.Chunks? && k >= head ==> QuietCut(m.body.chunks, k - head)
  }

  /** A cut in the header block: the phase has not failed and is not over, for otherwise the whole
      block would have failed, or would have ended early. */
  lemma CutHeadWaits(m: Message, q: string)
    requires MessageOk(m) && q <= HeaderWire(m) && |q| < |HeaderWire(m)|
    ensures HeaderPhase(q, map[], KeepFirstTrimmed).Success?
    ensures !HeaderPhase(q, map[], KeepFirstTrimmed).value.done
  {
    hide HeaderPhase, Fold, LineOk, Stoi, BodyOk;
    var v := HeaderWire(m)[|q|..];
    assert HeaderWire(m) == q + v && v != "";
    assert CRLF + "" == CRLF;
    HeaderBlock(m.lines, "", map[], KeepFirstTrimmed);
    HeaderPhaseResumes(q, v, map[], KeepFirstTrimmed);
  }

  lemma CutChunksWait(m: Message, q: string)
    requires MessageOk(m) && m.body.Chunks? && q <= BodyWire(m.body) && QuietCut(m.body.chunks, |q|)
    ensures var h := AfterHead(m, q);
            && BodyPhase(h).Success? && !BodyPhase(h).value.bodyParsed && h.IsChunked() && Clean(q)
  {
    hide Decode, Clean, Fold, HeadOk, Stoi, QuietCut, ChunksOk, Wire;
    var cs := m.body.chunks;
    QuietIsInside(cs, |q|);
    assert q == BodyWire(m.body)[..|q|];
    assert BodyWire(m.body)[..|q|] == Wire(cs)[..|q|];
    QuietCutWaits(cs, |q|, "");
  }

  lemma QuietIsInside(cs: seq<Chunk>, k: nat)
    requires QuietCut(cs, k)
    ensures k <= |Wire(cs)|
  {
  }

  lemma CutBodyWaits(m: Message, q: string)
    requires MessageOk(m) && q <= BodyWire(m.body) && |q| < |BodyWire(m.body)|
    requires m.body.Chunks? ==> QuietCut(m.body.chunks, |q|)
    ensures var h := AfterHead(m, q);
            && BodyPhase(h).Success? && !BodyPhase(h).value.bodyParsed
            && (h.IsChunked() ==> Clean(q))
  {
    if m.body.Chunks? {
      CutChunksWait(m, q);
    } else {
      hide Decode, Clean, Fold, HeadOk, Stoi;
      assert "" + q == q;
    }
  }

  lemma CutInHeadWaits(m: Message, k: nat)
    requires MessageOk(m) && |StartLine(m)| <= k < |StartLine(m)| + |HeaderWire(m)|
    ensures Waits(FRESH, MessageWire(m)[..k])
  {
    hide ReadTitle, StartLineIn, HeaderPhase, BodyPhase, HeadOk, BodyOk, Clean, StartLine, HeaderWire;
    var p := MessageWire(m)[..k];
    var q := p[|StartLine(m)|..];
    assert "" + p == p;
    assert p == StartLine(m) + q && q == HeaderWire(m)[..|q|];
    ReadStartLine(m, q);
    CutHeadWaits(m, q);
  }

  lemma CutInBodyWaits(m: Message, k: nat)
    requires MessageOk(m) && |StartLine(m)| + |HeaderWire(m)| <= k < |MessageWire(m)| && QuietAt(m, k)
    ensures Waits(FRESH, MessageWire(m)[..k])
  {
    hide HeadPhases, BodyPhase, HeadOk, BodyOk, Clean, StartLine, HeaderWire, BodyWire, QuietCut, HeaderFold;
    var p := MessageWire(m)[..k];
    var q := p[|StartLine(m)| + |HeaderWire(m)|..];
    assert p == StartLine(m) + (HeaderWire(m) + q) && q == BodyWire(m.body)[..|q|];
    HeadIsRead(m, q);
    CutBodyWaits(m, q);
    BodyKeepsFlags(AfterHead(m, q));
  }

  lemma QuietCutMessageWaits(m: Message, k: nat)
    requires MessageOk(m) && |StartLine(m)| <= k < |MessageWire(m)| && QuietAt(m, k)
    ensures Waits(FRESH, MessageWire(m)[..k])
  {
    hide MessageOk, StartLine, HeaderWire, MessageWire, Waits, QuietAt;
    if k < |StartLine(m)| + |HeaderWire(m)| {
      CutInHeadWaits(m, k);
    } else {
      CutInBodyWaits(m, k);
    }
  }

  /** `fs` is a way to cut the message such that its start line is in the first fragment. */
  predicate Cuts(m: Message, fs: seq<string>) {
    && fs != [] && Concat(fs) == MessageWire(m)
    && fs[|fs| - 1] != "" && |fs[0]| >= |StartLine(m)|
  }

  predicate QuietCuts(m: Message, fs: seq<string>) {
    Cuts(m, fs) && forall i | 1 <= i < |fs| :: QuietAt(m, |Concat(fs[..i])|)
  }

  lemma CutsAreInside(m: Message, fs: seq<string>, i: nat)
    requires Cuts(m, fs) && 1 <= i < |fs|
    ensures |StartLine(m)| <= |Concat(fs[..i])| < |MessageWire(m)|
    ensures Concat(fs[..i]) == MessageWire(m)[..|Concat(fs[..i])|]
  {
    hide Concat, StartLine, MessageWire;
    ConcatPrefix(fs, i);
    assert fs[..i][0] == fs[0];
    FirstFragmentLeads(fs[..i]);
  }

  lemma FirstFragmentHasStartLine(m: Message, fs: seq<string>)
    requires MessageOk(m) && Cuts(m, fs)
    ensures StartLineIn(FRESH.unparsed + fs[0])
  {
    hide StartLineIn, ReadTitle, HeadOk, Concat, StartLine;
    FirstFragmentLeads(fs);
    var rest := fs[0][|StartLine(m)|..];
    assert fs[0] == StartLine(m) + rest;
    ReadStartLine(m, rest);
    assert FRESH.unparsed + fs[0] == fs[0];
  }

  /** Independence of the cuts: a well-formed message ends in the same status, headers and body,
      however it is cut, as long as its start line is whole and no cut disturbs a size line that
      starts with 0 or the terminator.  Before its last fragment the parser is waiting. */
  lemma CutIndependence(m: Message, fs: seq<string>)
    requires MessageOk(m) && QuietCuts(m, fs)
    ensures Feed(FRESH, fs) == Success(Completed(m))
    ensures forall i | 1 <= i < |fs| :: Feed(FRESH, fs[..i]).Success? && !Feed(FRESH, fs[..i]).value.Complete()
  {
    hide MessageOk, Cuts, QuietAt, StartLineIn, Waits, AppendData, Feed;
    forall i | 1 <= i < |fs| ensures Waits(FRESH, Concat(fs[..i])) {
      CutsAreInside(m, fs, i);
      QuietCutMessageWaits(m, |Concat(fs[..i])|);
    }
    FirstFragmentHasStartLine(m, fs);
    CutsAreNotEmpty(m, fs);
    FeedIsOneShot(FRESH, fs);
    OneShot(m);
    forall i | 1 <= i < |fs|
      ensures Feed(FRESH, fs[..i]).Success? && !Feed(FRESH, fs[..i]).value.Complete()
    {
      FedPrefix(fs, i);
    }
  }

  lemma CutsAreNotEmpty(m: Message, fs: seq<string>)
    requires Cuts(m, fs)
    ensures fs != [] && Concat(fs) == MessageWire(m)
  {
  }

  /** Up to any cut at which, and before which, the parser waits, feeding is one-shot parsing. */
  lemma FedPrefix(fs: seq<string>, i: nat)
    requires 1 <= i <= |fs| && StartLineIn(FRESH.unparsed + fs[0])
    requires forall j | 1 <= j < i :: Waits(FRESH, Concat(fs[..j]))
    ensures Feed(FRESH, fs[..i]) == AppendData(FRESH, Concat(fs[..i]))
    ensures i < |fs| && Waits(FRESH, Concat(fs[..i])) ==>
              Feed(FRESH, fs[..i]).Success? && !Feed(FRESH, fs[..i]).value.Complete()
  {
    hide StartLineIn, Waits, AppendData, Feed;
    forall j | 1 <= j < i ensures Waits(FRESH, Concat(fs[..i][..j])) {
      assert fs[..i][..j] == fs[..j];
    }
    FeedIsOneShot(FRESH, fs[..i]);
    if Waits(FRESH, Concat(fs[..i])) {
      WaitsGives(FRESH, Concat(fs[..i]));
    }
  }

  /** Strictly inside the last five bytes. */
  predicate InsideTerminator(m: Message, k: nat) {
    |MessageWire(m)| - |TERMINATOR| < k < |MessageWire(m)|
  }

  predicate BareChunks(m: Message) {
    m.body.Chunks? && forall c | c in m.body.chunks :: Bare(c.line)
  }

  lemma CutTerminatorFails(m: Message, k: nat)
    requires MessageOk(m) && m.body.Chunks? && InsideTerminator(m, k)
    ensures AppendData(FRESH, MessageWire(m)[..k]) == Failure(OutOfRange)
  {
    hide HeadPhases, Decode, Fold, HeadOk, Stoi;
    var p := MessageWire(m)[..k];
    var head := |StartLine(m)| + |HeaderWire(m)|;
    var q := p[head..];
    assert p == StartLine(m) + (HeaderWire(m) + q);
    var cs := m.body.chunks;
    var n := |q| - |Wire(cs)|;
    assert q == Wire(cs) + TERMINATOR[..n] by {
      assert q == BodyWire(m.body)[..|q|];
    }
    HeadIsRead(m, q);
    CutTerminatorThrows(cs, n, "");
  }

  /** Exactly which cuts matter when no size line starts with 0: a chunked message survives its
      fragmentation if and only if no cut falls strictly inside the final `0 CRLF CRLF`. */
  lemma CutTheorem(m: Message, fs: seq<string>)
    requires MessageOk(m) && BareChunks(m) && Cuts(m, fs)
    ensures Feed(FRESH, fs) == Success(Completed(m))
       <==> forall i | 1 <= i < |fs| :: !InsideTerminator(m, |Concat(fs[..i])|)
  {
    if i :| 1 <= i < |fs| && InsideTerminator(m, |Concat(fs[..i])|) {
      CutInTerminatorLosesMessage(m, fs, i);
    } else {
      hide MessageOk, Feed, Completed, InsideTerminator, BareChunks;
      forall i | 1 <= i < |fs| ensures QuietAt(m, |Concat(fs[..i])|) {
        CutsAreInside(m, fs, i);
        OutsideTerminatorIsQuiet(m, |Concat(fs[..i])|);
      }
      CutIndependence(m, fs);
    }
  }

  lemma OutsideTerminatorIsQuiet(m: Message, k: nat)
    requires BareChunks(m) && k < |MessageWire(m)| && !InsideTerminator(m, k)
    ensures QuietAt(m, k)
  {
    var head := |StartLine(m)| + |HeaderWire(m)|;
    if k >= head {
      BareCutsAreQuiet(m.body.chunks, k - head);
    }
  }

  lemma {:induction false} CutInTerminatorLosesMessage(m: Message, fs: seq<string>, i: nat)
    requires MessageOk(m) && BareChunks(m) && Cuts(m, fs)
    requires 1 <= i < |fs| && InsideTerminator(m, |Concat(fs[..i])|)
    ensures Feed(FRESH, fs).Failure?
  {
    hide MessageOk, Feed, AppendData, Waits, QuietAt, InsideTerminator, BareChunks, StartLineIn;
    if j :| 1 <= j < i && InsideTerminator(m, |Concat(fs[..j])|) {
      CutInTerminatorLosesMessage(m, fs, j);
    } else {
      forall j | 1 <= j < i ensures Waits(FRESH, Concat(fs[..j])) {
        CutsAreInside(m, fs, j);
        OutsideTerminatorIsQuiet(m, |Concat(fs[..j])|);
        QuietCutMessageWaits(m, |Concat(fs[..j])|);
      }
      FirstFragmentHasStartLine(m, fs);
      FedPrefix(fs, i);
      CutsAreInside(m, fs, i);
      BareIsChunked(m);
      CutTerminatorFails(m, |Concat(fs[..i])|);
      FeedFailsForGood(FRESH, fs, i);
    }
  }

  lemma BareIsChunked(m: Message)
    requires BareChunks(m)
    ensures m.body.Chunks?
  {
  }

  // ---------------------------------------------------------------- cuts that are excluded

  lemma TitleEndsBehindVersion(version: string)
    requires ' ' !in version
    ensures ReadTitle(version + [' ']) == Failure(InvalidArgument)
  {
    hide Find, FindCrlf, Stoi;
    var u := version + [' '];
    assert u == version + [' '] + "";
    FindEndsToken(version, ' ', "");
    assert Substr(u, |version| + 1) == Success("");
    NothingFound();
    assert Prefix("", NPOS) == "";
  }

  lemma TitleEndsBehindCode(version: string, code: string)
    requires ' ' !in version && ' ' !in code && Stoi(code).Success?
    ensures ReadTitle(version + [' '] + (code + [' '])) == Failure(OutOfRange)
  {
    hide Find, FindCrlf, Stoi;
    var u1 := code + [' '];
    var u := version + [' '] + u1;
    FindEndsToken(version, ' ', u1);
    assert u[|version| + 1..] == u1;
    assert u1 == code + [' '] + "" && u1[|code| + 1..] == "" && u1[..|code|] == code;
    FindEndsToken(code, ' ', "");
    NothingFound();
  }

  lemma NothingFound()
    ensures Find("", ' ') == NPOS && FindCrlf("") == NPOS && Stoi("") == Failure(InvalidArgument)
  {
  }

  /** Why the start line must be whole: cut behind either of its blanks it is never survived. */
  lemma CutStartLineThrows(m: Message)
    requires HeadOk(m)
    ensures AppendData(FRESH, StartLine(m)[..|m.version| + 1]) == Failure(InvalidArgument)
    ensures AppendData(FRESH, StartLine(m)[..|m.version| + |m.code| + 2]) == Failure(OutOfRange)
  {
    hide Fold, LineOk, CrlfFree, Stoi, ReadTitle, HeaderPhase;
    TitleEndsBehindVersion(m.version);
    TitleEndsBehindCode(m.version, m.code);
    var u, v := m.version + [' '], m.version + [' '] + (m.code + [' ']);
    assert StartLine(m)[..|u|] == u && StartLine(m)[..|v|] == v;
    assert "" + u == u && "" + v == v;
  }

  /** A message cut inside a size line of digits, leading zeros or not: the parser is where the
      sender is, if and only if the part before the cut is kept. */
  lemma CutSizeLine(m: Message, j: nat, n: nat)
    requires MessageOk(m) && m.body.Chunks? && j < |m.body.chunks|
    requires Digits(m.body.chunks[j].line, 16) && 0 < n <= |m.body.chunks[j].line| + 1
    ensures var cs := m.body.chunks;
            var q := ChunkWire(cs[j])[..n];
            var r := AppendData(FRESH, StartLine(m) + (HeaderWire(m) + (Wire(cs[..j]) + q)));
            r == Success(AfterHead(m, q).(body := Payload(cs[..j]))) <==> Kept(cs[j].line, n)
  {
    hide HeadPhases, Decode, Stoi, Fold, HeadOk, ChunksOk, Kept, Wire;
    var cs := m.body.chunks;
    var q := ChunkWire(cs[j])[..n];
    HeadIsRead(m, Wire(cs[..j]) + q);
    SizeLineCut(cs, j, n, "");
    assert "" + Payload(cs[..j]) == Payload(cs[..j]);
  }

  // ---------------------------------------------------------------- Content-Length

  lemma ContentLengthStep(r: Response, data: string, cnt: int)
    requires r.titleParsed && r.headersParsed && !r.bodyParsed && r.unparsed == ""
    requires CONTENT_LENGTH in r.headers && Stoi(r.headers[CONTENT_LENGTH]) == Success(cnt)
    ensures AppendData(r, data)
         == Success(r.(body := r.body + data, bodyParsed := cnt == |r.body| + |data|))
  {
    hide Stoi, HeadPhases;
    assert "" + data == data;
    HeadIsOver(r.Extended(data));
  }

  /** The body by Content-Length, over any fragments whatsoever: as long as no earlier fragment made
      the count, everything received is kept, and this fragment completes the message if and only
      if it brings the total to the declared length. */
  lemma {:induction false} ContentLengthCompletion(r: Response, fs: seq<string>, cnt: int)
    requires r.titleParsed && r.headersParsed && !r.bodyParsed && r.unparsed == "" && fs != []
    requires CONTENT_LENGTH in r.headers && Stoi(r.headers[CONTENT_LENGTH]) == Success(cnt)
    requires forall i | 1 <= i < |fs| :: |r.body| + |Concat(fs[..i])| != cnt
    ensures Feed(r, fs)
         == Success(r.(body := r.body + Concat(fs), bodyParsed := cnt == |r.body| + |Concat(fs)|))
  {
    hide Stoi, AppendData;
    var init, last := fs[..|fs| - 1], fs[|fs| - 1];
    if init == [] {
      ContentLengthStep(r, last, cnt);
      assert Concat(init) + last == last;
    } else {
      forall i | 1 <= i < |init| ensures |r.body| + |Concat(init[..i])| != cnt {
        assert init[..i] == fs[..i];
      }
      ContentLengthCompletion(r, init, cnt);
      assert |r.body| + |Concat(fs[..|init|])| != cnt;
      ContentLengthStep(Feed(r, init).value, last, cnt);
      assert r.body + Concat(init) + last == r.body + Concat(fs);
    }
  }
}
