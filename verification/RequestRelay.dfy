/** Printing a parsed request again, and what parsing the print gives, in one piece or cut. */
module RequestRelay {
  import opened Outcomes
  import opened Text
  import opened Numbers
  import opened StartLines
  import opened Headers
  import opened Requests

  // ---------------------------------------------------------------- printing

  function RequestLine(r: Request): string {
    r.verb + [' '] + (r.url + [' '] + (r.version + CRLF))
  }

  function HeaderText(r: Request, order: seq<string>): string
    requires forall n | n in order :: n in r.headers
  {
    Lines(Printed(r.headers, order)) + CRLF
  }

  function CommitHeaders(r: Request, order: seq<string>): string
    requires Enumerates(order, r.headers)
  {
    RequestLine(r) + HeaderText(r, order)
  }

  function Commit(r: Request, order: seq<string>): string
    requires Enumerates(order, r.headers)
  {
    CommitHeaders(r, order) + (r.body + CRLF)
  }

  // ---------------------------------------------------------------- what every parser state satisfies

  /** A request whose head can be told from its print: no blanks in method and URL, no CRLF in the
      version, no colon or CRLF in a name and no CRLF in a value. */
  predicate Printable(r: Request) {
    ' ' !in r.verb && ' ' !in r.url && CrlfFree(r.version) && Canonical(r.headers, KeepLastRaw)
  }

  /** The headers declare the length of the body, or there is none. */
  predicate Delimited(r: Request) {
    if CONTENT_LENGTH in r.headers then Stoi(r.headers[CONTENT_LENGTH]) == Success(|r.body|) else r.body == ""
  }

  /** What holds of a request in every state it can reach without an exception. */
  predicate Sound(r: Request) {
    && Printable(r)
    && (r.headersParsed ==> r.titleParsed)
    && (r.bodyParsed ==> r.headersParsed)
    && (!r.headersParsed ==> r.body == "")
    && (CONTENT_LENGTH !in r.headers ==> r.body == "")
    && (r.bodyParsed && CONTENT_LENGTH in r.headers ==> Stoi(r.headers[CONTENT_LENGTH]) == Success(|r.body|))
  }

  lemma TokenBeforeBlank(u: string)
    ensures ' ' !in Prefix(u, Find(u, ' '))
  {
  }

  lemma TitleIsSound(u: string)
    requires ReadTitle(u).Success?
    ensures var t := ReadTitle(u).value; ' ' !in t.verb && ' ' !in t.url && CrlfFree(t.version)
  {
    hide Find, FindCrlf, CrlfFree, Substr, Prefix;
    var u1 := Substr(u, Find(u, ' ') + 1).value;
    var u2 := Substr(u1, Find(u1, ' ') + 1).value;
    TokenBeforeBlank(u);
    TokenBeforeBlank(u1);
    PrefixBeforeBreak(u2);
  }

  lemma HeadIsSound(r: Request)
    requires Sound(r) && HeadPhases(r).Success?
    ensures Sound(HeadPhases(r).value) && HeadPhases(r).value.bodyParsed == r.bodyParsed
  {
    hide ReadTitle, HeaderPhase, Canonical, CrlfFree, Stoi;
    if !r.titleParsed {
      TitleIsSound(r.unparsed);
    }
    var t := TitlePhase(r).value;
    if !t.headersParsed {
      HeaderPhaseConserves(t.unparsed, t.headers, KeepLastRaw);
      FoldCanonical(t.headers, RawLines(t.unparsed), KeepLastRaw);
    }
  }

  lemma AppendIsSound(r: Request, data: string)
    requires Sound(r) && AppendData(r, data).Success?
    ensures Sound(AppendData(r, data).value)
  {
    hide HeadPhases, Canonical, CrlfFree, Stoi;
    HeadIsSound(r.Extended(data));
  }

  lemma {:induction false} FeedIsSound(fs: seq<string>)
    requires Feed(FRESH, fs).Success?
    ensures Sound(Feed(FRESH, fs).value)
  {
    hide AppendData, Stoi, CrlfFree;
    if fs != [] {
      FeedIsSound(fs[..|fs| - 1]);
      AppendIsSound(Feed(FRESH, fs[..|fs| - 1]).value, fs[|fs| - 1]);
    } else {
      FreshVersion();
    }
  }

  lemma FreshVersion()
    ensures CrlfFree(FRESH.version)
  {
  }

  // ---------------------------------------------------------------- reading the print back

  function AfterHead(r: Request, rest: string): Request {
    Request(r.verb, r.url, r.version, r.headers, "", rest, true, true, false)
  }

  lemma RequestLineReadsBack(r: Request, rest: string)
    requires Printable(r)
    ensures var u := RequestLine(r) + rest;
            StartLineIn(u) && ReadTitle(u) == Success(Title(r.verb, r.url, r.version, rest))
  {
    hide StartLineIn, ReadTitle, CrlfFree, Stoi, Canonical;
    ReadTitleText(r.verb, r.url, r.version, rest);
    assert RequestLine(r) + rest == StartText(r.verb, r.url, r.version, rest);
  }

  /** The printed head is read back for what it is, in any enumeration order of the header map. */
  lemma HeadReadsBack(r: Request, order: seq<string>, rest: string)
    requires Printable(r) && Enumerates(order, r.headers)
    ensures HeadPhases(FRESH.Extended(CommitHeaders(r, order) + rest)) == Success(AfterHead(r, rest))
  {
    hide ReadTitle, StartLineIn, HeaderPhase, Canonical, CrlfFree, Stoi, Fold, LineOk, Printed, RequestLine, Lines;
    RequestLineReadsBack(r, HeaderText(r, order) + rest);
    PrintedReadsBack(r.headers, order, KeepLastRaw);
    assert HeaderText(r, order) + rest == Lines(Printed(r.headers, order)) + (CRLF + rest);
    HeaderBlock(Printed(r.headers, order), rest, map[], KeepLastRaw);
    var u := RequestLine(r) + (HeaderText(r, order) + rest);
    assert CommitHeaders(r, order) + rest == u;
    assert "" + u == u;
  }

  lemma ReparseIsBodyPhase(r: Request, order: seq<string>, rest: string)
    requires Printable(r) && Enumerates(order, r.headers)
    ensures AppendData(FRESH, CommitHeaders(r, order) + rest) == BodyPhase(AfterHead(r, rest))
  {
    hide HeadPhases, BodyPhase, Printable, CommitHeaders;
    HeadReadsBack(r, order, rest);
  }

  predicate SameMeaning(a: Request, b: Request) {
    a.verb == b.verb && a.url == b.url && a.version == b.version && a.headers == b.headers && a.body == b.body
  }

  /** The receiver of the print, parsing with this parser, gets the same request, complete. */
  predicate Relayed(r: Request, order: seq<string>)
    requires Enumerates(order, r.headers)
  {
    var t := AppendData(FRESH, Commit(r, order));
    t.Success? && t.value.Complete() && SameMeaning(r, t.value)
  }

  /** Forwarding keeps the meaning of a complete request if and only if it has no Content-Length;
      with one, the CRLF that `commit` appends is counted and the request never completes.  This
      covers every request that any run of the parser can produce. */
  lemma RelayTheorem(fs: seq<string>, r: Request, order: seq<string>)
    requires Feed(FRESH, fs) == Success(r) && r.Complete() && Enumerates(order, r.headers)
    ensures Relayed(r, order) <==> CONTENT_LENGTH !in r.headers
  {
    hide Feed, AppendData, CommitHeaders, Stoi, Canonical, CrlfFree;
    FeedIsSound(fs);
    ReparseIsBodyPhase(r, order, r.body + CRLF);
    assert "" + (r.body + CRLF) == r.body + CRLF;
  }

  // ---------------------------------------------------------------- the round trip, cut anywhere

  /** The head and the bare body, as fragments of which the first holds the request line. */
  predicate Cuts(r: Request, order: seq<string>, fs: seq<string>)
    requires Enumerates(order, r.headers)
  {
    && fs != [] && fs[|fs| - 1] != "" && |fs[0]| >= |RequestLine(r)|
    && Concat(fs) == CommitHeaders(r, order) + r.body
  }

  lemma CutHeaderTextWaits(r: Request, order: seq<string>, q: string)
    requires Printable(r) && Enumerates(order, r.headers)
    requires q <= HeaderText(r, order) && |q| < |HeaderText(r, order)|
    ensures HeaderPhase(q, map[], KeepLastRaw).Success?
    ensures !HeaderPhase(q, map[], KeepLastRaw).value.done
  {
    hide HeaderPhase, Fold, LineOk, Stoi, Canonical, CrlfFree, Printed;
    var v := HeaderText(r, order)[|q|..];
    assert HeaderText(r, order) == q + v && v != "";
    assert CRLF + "" == CRLF;
    PrintedReadsBack(r.headers, order, KeepLastRaw);
    HeaderBlock(Printed(r.headers, order), "", map[], KeepLastRaw);
    HeaderPhaseResumes(q, v, map[], KeepLastRaw);
  }

  lemma CutInHeadWaits(r: Request, order: seq<string>, k: nat)
    requires Printable(r) && Enumerates(order, r.headers)
    requires |RequestLine(r)| <= k < |CommitHeaders(r, order)|
    ensures Waits(FRESH, CommitHeaders(r, order)[..k])
  {
    hide ReadTitle, StartLineIn, HeaderPhase, BodyPhase, Printable, RequestLine, HeaderText;
    var p := CommitHeaders(r, order)[..k];
    var q := p[|RequestLine(r)|..];
    assert "" + p == p;
    assert p == RequestLine(r) + q && q == HeaderText(r, order)[..|q|];
    RequestLineReadsBack(r, q);
    CutHeaderTextWaits(r, order, q);
  }

  lemma CutInBodyWaits(r: Request, order: seq<string>, k: nat)
    requires Printable(r) && Delimited(r) && Enumerates(order, r.headers) && k < |r.body|
    ensures Waits(FRESH, CommitHeaders(r, order) + r.body[..k])
  {
    hide AppendData, CommitHeaders, Stoi, Canonical, CrlfFree;
    ReparseIsBodyPhase(r, order, r.body[..k]);
    assert "" + r.body[..k] == r.body[..k];
  }

  lemma CutWaits(r: Request, order: seq<string>, fs: seq<string>, i: nat)
    requires Printable(r) && Delimited(r) && Enumerates(order, r.headers) && Cuts(r, order, fs)
    requires 1 <= i < |fs|
    ensures Waits(FRESH, Concat(fs[..i]))
  {
    hide Printable, Waits, CommitHeaders, RequestLine, Concat;
    ConcatPrefix(fs, i);
    assert fs[..i][0] == fs[0];
    FirstFragmentLeads(fs[..i]);
    var head, p := CommitHeaders(r, order), Concat(fs[..i]);
    if |p| < |head| {
      assert p == head[..|p|];
      CutInHeadWaits(r, order, |p|);
    } else {
      assert p == head + r.body[..|p| - |head|];
      CutInBodyWaits(r, order, |p| - |head|);
    }
  }

  lemma FirstFragmentHasRequestLine(r: Request, order: seq<string>, fs: seq<string>)
    requires Printable(r) && Enumerates(order, r.headers) && Cuts(r, order, fs)
    ensures StartLineIn(FRESH.unparsed + fs[0])
  {
    hide StartLineIn, ReadTitle, Printable, Concat, RequestLine, HeaderText;
    FirstFragmentLeads(fs);
    var rest := fs[0][|RequestLine(r)|..];
    assert fs[0] == RequestLine(r) + rest;
    RequestLineReadsBack(r, rest);
    assert FRESH.unparsed + fs[0] == fs[0];
  }

  /** Round trip: the head and body of any request that can be printed, with a body of the declared
      length, printed in any order of the headers and cut in any way after the request line, are
      read back as the same request, completed by the last fragment. */
  lemma RoundTrip(r: Request, order: seq<string>, fs: seq<string>)
    requires Printable(r) && Delimited(r) && Enumerates(order, r.headers) && Cuts(r, order, fs)
    ensures Feed(FRESH, fs)
         == Success(r.(unparsed := "", titleParsed := true, headersParsed := true, bodyParsed := true))
  {
    hide Feed, AppendData, Waits, StartLineIn, CommitHeaders, Stoi, Canonical, CrlfFree;
    forall i | 1 <= i < |fs| ensures Waits(FRESH, Concat(fs[..i])) {
      CutWaits(r, order, fs, i);
    }
    FirstFragmentHasRequestLine(r, order, fs);
    FeedIsOneShot(FRESH, fs);
    ReparseIsBodyPhase(r, order, r.body);
    assert "" + r.body == r.body;
  }

  /** Every request that any run of the parser completes can be printed and read back like that. */
  lemma ParsedIsPrintable(gs: seq<string>)
    requires Feed(FRESH, gs).Success? && Feed(FRESH, gs).value.Complete()
    ensures Printable(Feed(FRESH, gs).value) && Delimited(Feed(FRESH, gs).value)
  {
    hide Feed, Stoi, Canonical, CrlfFree;
    FeedIsSound(gs);
  }
}
