/** The incremental request parser: its state as a value, its phases, streaming, and the printer. */
module Requests {
  import opened Outcomes
  import opened Text
  import opened Numbers
  import opened StartLines
  import opened Headers

  const HOST: string := "Host"

  datatype Request = Request(
    verb: string, url: string, version: string, headers: HeaderMap, body: string,
    unparsed: string, titleParsed: bool, headersParsed: bool, bodyParsed: bool)
  {
    predicate Complete() {
      titleParsed && headersParsed && bodyParsed
    }

    function Extended(v: string): Request {
      this.(unparsed := unparsed + v)
    }
  }

  /** A request that has been fed nothing. */
  const FRESH: Request := Request("", "/", "HTTP/" + HTTP_VERSION, map[], "", "", false, false, false)

  // ---------------------------------------------------------------- the phases

  datatype Title = Title(verb: string, url: string, version: string, rest: string)

  /** The request line, read by the same searches as a status line, and as indifferent to blanks
      and line breaks that are not there. */
  function ReadTitle(u: string): Result<Title> {
    var sp := Find(u, ' ');
    var u1 :- Substr(u, sp + 1);
    var sp1 := Find(u1, ' ');
    var u2 :- Substr(u1, sp1 + 1);
    var eol := FindCrlf(u2);
    var rest :- Substr(u2, eol + 2);
    Success(Title(Prefix(u, sp), Prefix(u1, sp1), Prefix(u2, eol), rest))
  }

  function TitlePhase(r: Request): Result<Request> {
    if r.titleParsed then Success(r)
    else
      var t :- ReadTitle(r.unparsed);
      Success(r.(verb := t.verb, url := t.url, version := t.version, unparsed := t.rest, titleParsed := true))
  }

  function HeadersPhase(r: Request): Result<Request> {
    if r.headersParsed then Success(r)
    else
      var h :- HeaderPhase(r.unparsed, r.headers, KeepLastRaw);
      Success(r.(headers := h.headers, unparsed := h.unparsed, headersParsed := h.done))
  }

  function BodyPhase(r: Request): Result<Request> {
    if CONTENT_LENGTH in r.headers then
      var cnt :- Stoi(r.headers[CONTENT_LENGTH]);
      var body := r.body + r.unparsed;
      Success(r.(body := body, unparsed := "", bodyParsed := cnt == |body|))
    else Success(r.(bodyParsed := true))
  }

  function HeadPhases(r: Request): Result<Request> {
    var r1 :- TitlePhase(r);
    HeadersPhase(r1)
  }

  /** The phase loop; like the response's, it spins for ever on a complete message. */
  function Parse(r: Request): Result<Request> {
    var h :- HeadPhases(r);
    if !h.headersParsed then Success(h)
    else if h.bodyParsed then Failure(NeverReturns)
    else BodyPhase(h)
  }

  function AppendData(r: Request, data: string): Result<Request> {
    Parse(r.Extended(data))
  }

  function Feed(r: Request, fs: seq<string>): Result<Request> {
    if fs == [] then Success(r)
    else
      var r1 :- Feed(r, fs[..|fs| - 1]);
      AppendData(r1, fs[|fs| - 1])
  }

  lemma TitleNeverSpins(u: string)
    ensures ReadTitle(u).Failure? ==> ReadTitle(u).error == OutOfRange
  {
    hide Find, FindCrlf, Substr, Prefix;
  }

  lemma HeadKeepsFlags(r: Request)
    requires HeadPhases(r).Success?
    ensures HeadPhases(r).value.titleParsed && HeadPhases(r).value.bodyParsed == r.bodyParsed
  {
    hide ReadTitle, HeaderPhase;
  }

  lemma BodyKeepsFlags(r: Request)
    requires BodyPhase(r).Success?
    ensures BodyPhase(r).value.titleParsed == r.titleParsed && BodyPhase(r).value.headersParsed == r.headersParsed
  {
    hide Stoi;
  }

  /** An incomplete parser always gets out of the loop, and the flag of the body phase goes up only
      when the message is complete. */
  lemma IncompleteReturns(r: Request, data: string)
    requires !r.bodyParsed
    ensures AppendData(r, data) != Failure(NeverReturns)
    ensures AppendData(r, data).Success? ==>
              (AppendData(r, data).value.bodyParsed <==> AppendData(r, data).value.Complete())
  {
    hide ReadTitle, HeaderPhase, Stoi;
    TitleNeverSpins(r.Extended(data).unparsed);
  }

  /** A first fragment with nothing in it is not survived: the request line has no partial case. */
  lemma EmptyFirstFragmentThrows()
    ensures AppendData(FRESH, "") == Failure(OutOfRange)
  {
    assert FRESH.Extended("").unparsed == "";
    assert Find("", ' ') == NPOS;
    assert Substr("", 0) == Success("");
    assert FindCrlf("") == NPOS;
  }

  // ---------------------------------------------------------------- resuming

  lemma ReadTitleText(verb: string, url: string, version: string, rest: string)
    requires ' ' !in verb && ' ' !in url && CrlfFree(version)
    ensures var u := StartText(verb, url, version, rest);
            && StartLineIn(u)
            && ReadTitle(u) == Success(Title(verb, url, version, rest))
  {
    hide Find, FindCrlf, CrlfFree;
    var u1, u2 := FindInStartText(verb, url, version, rest);
  }

  lemma TitleResumes(u: string, v: string)
    requires StartLineIn(u)
    ensures var t := ReadTitle(u);
            t.Success? && ReadTitle(u + v) == Success(t.value.(rest := t.value.rest + v))
  {
    hide StartLineIn, ReadTitle, CrlfFree;
    var verb, url, version, rest := StartLinePieces(u);
    ReadTitleText(verb, url, version, rest);
    ReadTitleText(verb, url, version, rest + v);
    StartTextExtends(verb, url, version, rest, v);
  }

  lemma HeadResumes(r: Request, v: string)
    requires r.titleParsed || StartLineIn(r.unparsed)
    ensures var h := HeadPhases(r);
            HeadPhases(r.Extended(v)) ==
            if h.Failure? then h
            else if h.value.headersParsed then Success(h.value.Extended(v))
            else HeadPhases(h.value.Extended(v))
  {
    hide StartLineIn, ReadTitle, HeaderPhase;
    if !r.titleParsed {
      TitleResumes(r.unparsed, v);
    }
    var t := TitlePhase(r);
    if t.Success? {
      HeaderPhaseResumes(t.value.unparsed, v, t.value.headers, KeepLastRaw);
    }
  }

  lemma BodyResumes(h: Request, v: string)
    requires BodyPhase(h).Success? && !BodyPhase(h).value.bodyParsed
    ensures BodyPhase(h.Extended(v)) == BodyPhase(BodyPhase(h).value.Extended(v))
  {
    hide Stoi;
    assert h.body + (h.unparsed + v) == h.body + h.unparsed + ("" + v);
  }

  lemma HeadIsOver(r: Request)
    requires r.titleParsed && r.headersParsed
    ensures HeadPhases(r) == Success(r)
  {
  }

  /** Two fragments or one: as long as the request is not complete in between, there is no
      difference, on any bytes. */
  lemma Resumes(r: Request, u: string, v: string)
    requires r.titleParsed || StartLineIn(r.unparsed + u)
    requires AppendData(r, u).Success? && !AppendData(r, u).value.Complete()
    ensures AppendData(r, u + v) == AppendData(AppendData(r, u).value, v)
  {
    hide StartLineIn, HeadPhases, BodyPhase;
    assert r.unparsed + (u + v) == r.unparsed + u + v;
    HeadResumes(r.Extended(u), v);
    var h := HeadPhases(r.Extended(u)).value;
    HeadKeepsFlags(r.Extended(u));
    if h.headersParsed {
      BodyKeepsFlags(h);
      BodyResumes(h, v);
      HeadIsOver(BodyPhase(h).value.Extended(v));
    }
  }

  predicate Waits(r: Request, u: string) {
    AppendData(r, u).Success? && !AppendData(r, u).value.Complete()
  }

  /** Feeding fragments is feeding their concatenation, as long as the request line is not cut and
      no proper prefix is complete already. */
  lemma {:induction false} FeedIsOneShot(r: Request, fs: seq<string>)
    requires fs != [] && (r.titleParsed || StartLineIn(r.unparsed + fs[0]))
    requires forall i | 1 <= i < |fs| :: Waits(r, Concat(fs[..i]))
    ensures Feed(r, fs) == AppendData(r, Concat(fs))
  {
    hide StartLineIn, AppendData;
    var init, last := fs[..|fs| - 1], fs[|fs| - 1];
    if init == [] {
      assert Concat(init) + last == last;
    } else {
      forall i | 1 <= i < |init| ensures Waits(r, Concat(init[..i])) {
        assert init[..i] == fs[..i];
      }
      FeedIsOneShot(r, init);
      assert Waits(r, Concat(fs[..|init|]));
      StartLineStays(r.unparsed, init);
      Resumes(r, Concat(init), last);
    }
  }

  // ---------------------------------------------------------------- Content-Length

  lemma ContentLengthStep(r: Request, data: string, cnt: int)
    requires r.titleParsed && r.headersParsed && !r.bodyParsed && r.unparsed == ""
    requires CONTENT_LENGTH in r.headers && Stoi(r.headers[CONTENT_LENGTH]) == Success(cnt)
    ensures AppendData(r, data)
         == Success(r.(body := r.body + data, bodyParsed := cnt == |r.body| + |data|))
  {
    hide Stoi, HeadPhases;
    assert "" + data == data;
    HeadIsOver(r.Extended(data));
  }

  /** As for responses: while no earlier fragment made the count, everything received is kept, and
      this fragment completes the request if and only if the total is the declared length. */
  lemma {:induction false} ContentLengthCompletion(r: Request, fs: seq<string>, cnt: int)
    requires r.titleParsed && r.headersParsed && !r.bodyParsed && r.unparsed == "" && fs != []
    requires CONTENT_LENGTH in r.headers && Stoi(r.headers[CONTENT_LENGTH]) == Success(cnt)
    requires forall i | 1 <= i < |fs| :: |r.body| + |Concat(fs[..i])| != cnt
    ensures Feed(r, fs)
         == Success(r.(body := r.body + Concat(fs), bodyParsed := cnt == |r.body| + |Concat(fs)|))
  {
    hide Stoi, AppendData;
    var init, last := fs[..|fs| - 1], fs[|fs| - 1];
    if init == [] {
      ContentLengthStep(r, last, cnt);
      assert Concat(init) + last == last;
    } else {
      forall i | 1 <= i < |init| ensures |r.body| + |Concat(init[..i])| != cnt {
        assert init[..i] == fs[..i];
      }
      ContentLengthCompletion(r, init, cnt);
      assert |r.body| + |Concat(fs[..|init|])| != cnt;
      ContentLengthStep(Feed(r, init).value, last, cnt);
      assert r.body + Concat(init) + last == r.body + Concat(fs);
    }
  }
}
