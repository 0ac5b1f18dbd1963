/** Printing a parsed response again, and what parsing the print gives: whether the proxy relays a
    response without changing its meaning. */
module ResponseRelay {
  import opened Outcomes
  import opened Text
  import opened Numbers
  import opened Headers
  import opened ChunkedCoding
  import opened Responses

  // ---------------------------------------------------------------- printing

  /** The message that `commit_headers` spells out; the version is always the proxy's own. */
  function PrintedHead(r: Response, order: seq<string>): Message
    requires forall n | n in order :: n in r.headers
  {
    Message("HTTP/" + HTTP_VERSION, ToString(r.code), r.reason, Printed(r.headers, order), NoBody)
  }

  function CommitHeaders(r: Response, order: seq<string>): string
    requires Enumerates(order, r.headers)
  {
    var m := PrintedHead(r, order);
    StartLine(m) + HeaderWire(m)
  }

  /** The value of headers["Transfer-Encoding"]; a missing one reads as the empty string. */
  function CodingOf(r: Response): string {
    if TRANSFER_ENCODING in r.headers then r.headers[TRANSFER_ENCODING] else ""
  }

  /** What `commit` appends to the head: the body in chunks if the headers say so, otherwise the
      body as it is; and in either case one more CRLF. */
  function CommitBody(r: Response): string {
    if CodingOf(r) != CHUNKED then r.body + CRLF else Encode(r.body)
  }

  function Commit(r: Response, order: seq<string>): string
    requires Enumerates(order, r.headers)
  {
    CommitHeaders(r, order) + CommitBody(r)
  }

  // ---------------------------------------------------------------- what every parser state satisfies

  /** What holds of a parser in every state it can reach without an exception. */
  predicate Sound(r: Response) {
    && CrlfFree(r.reason) && -TWO_TO_31 <= r.code < TWO_TO_31
    && Canonical(r.headers, KeepFirstTrimmed)
    && (r.headersParsed ==> r.titleParsed)
    && (r.bodyParsed ==> r.headersParsed)
    && (!r.headersParsed ==> r.body == "")
    && (CONTENT_LENGTH !in r.headers && TRANSFER_ENCODING !in r.headers ==> r.body == "")
    && (r.bodyParsed && CONTENT_LENGTH in r.headers ==> Stoi(r.headers[CONTENT_LENGTH]) == Success(|r.body|))
    && (r.bodyParsed && CONTENT_LENGTH !in r.headers && TRANSFER_ENCODING in r.headers ==> r.IsChunked())
  }

  lemma TitleIsSound(u: string)
    requires ReadTitle(u).Success?
    ensures var t := ReadTitle(u).value; CrlfFree(t.reason) && -TWO_TO_31 <= t.code < TWO_TO_31
  {
    hide Find, FindCrlf, CrlfFree, Stoi, Substr, Prefix;
    var u1 := Substr(u, Find(u, ' ') + 1).value;
    var u2 := Substr(u1, Find(u1, ' ') + 1).value;
    PrefixBeforeBreak(u2);
  }

  lemma HeadIsSound(r: Response)
    requires Sound(r) && HeadPhases(r).Success?
    ensures Sound(HeadPhases(r).value) && HeadPhases(r).value.bodyParsed == r.bodyParsed
    ensures HeadPhases(r).value.titleParsed && (r.headersParsed ==> HeadPhases(r).value.headersParsed)
  {
    hide ReadTitle, HeaderPhase, Canonical, CrlfFree, Stoi;
    if !r.titleParsed {
      TitleIsSound(r.unparsed);
    }
    var t := TitlePhase(r).value;
    if !t.headersParsed {
      HeaderPhaseConserves(t.unparsed, t.headers, KeepFirstTrimmed);
      FoldCanonical(t.headers, RawLines(t.unparsed), KeepFirstTrimmed);
    }
  }

  lemma BodyIsSound(r: Response)
    requires Sound(r) && r.headersParsed && !r.bodyParsed && BodyPhase(r).Success?
    ensures Sound(BodyPhase(r).value)
  {
    hide Decode, Canonical, CrlfFree, Stoi;
  }

  lemma AppendIsSound(r: Response, data: string)
    requires Sound(r) && AppendData(r, data).Success?
    ensures Sound(AppendData(r, data).value)
  {
    hide HeadPhases, BodyPhase, Canonical, CrlfFree, Stoi;
    HeadIsSound(r.Extended(data));
    var h := HeadPhases(r.Extended(data)).value;
    if h.headersParsed {
      BodyIsSound(h);
    }
  }

  /** Soundness holds in every run of a parser, whatever it is fed. */
  lemma {:induction false} FeedIsSound(fs: seq<string>)
    requires Feed(FRESH, fs).Success?
    ensures Sound(Feed(FRESH, fs).value)
  {
    hide AppendData, Stoi;
    if fs != [] {
      FeedIsSound(fs[..|fs| - 1]);
      AppendIsSound(Feed(FRESH, fs[..|fs| - 1]).value, fs[|fs| - 1]);
    } else {
      assert CrlfFree(FRESH.reason);
    }
  }

  // ---------------------------------------------------------------- reading the print back

  predicate SameMeaning(a: Response, b: Response) {
    a.code == b.code && a.reason == b.reason && a.headers == b.headers && a.body == b.body
  }

  /** The printed head is read back for what it is, in any enumeration order of the header map and
      whatever follows it. */
  lemma HeadReadsBack(r: Response, order: seq<string>, rest: string)
    requires Sound(r) && Enumerates(order, r.headers)
    ensures HeadPhases(FRESH.Extended(CommitHeaders(r, order) + rest))
         == Success(Response("HTTP/" + HTTP_VERSION, r.code, r.reason, r.headers, "", rest, true, true, false))
  {
    hide HeadPhases, Stoi, Canonical, CrlfFree, ToString, Printed, Fold, LineOk;
    var m := PrintedHead(r, order);
    StoiOfToString(r.code);
    PrintedReadsBack(r.headers, order, KeepFirstTrimmed);
    VersionHasNoBlank();
    HeadIsRead(m, rest);
    assert CommitHeaders(r, order) + rest == StartLine(m) + (HeaderWire(m) + rest);
  }

  lemma VersionHasNoBlank()
    ensures ' ' !in "HTTP/" + HTTP_VERSION
  {
  }

  /** Parsing the print is the body phase on what was printed as the body. */
  lemma ReparseIsBodyPhase(r: Response, order: seq<string>, rest: string)
    requires Sound(r) && Enumerates(order, r.headers)
    ensures AppendData(FRESH, CommitHeaders(r, order) + rest)
         == BodyPhase(Response("HTTP/" + HTTP_VERSION, r.code, r.reason, r.headers, "", rest, true, true, false))
  {
    hide HeadPhases, BodyPhase, Sound, CommitHeaders;
    HeadReadsBack(r, order, rest);
  }

  /** The receiver of the print, parsing with this parser, gets the same response, complete. */
  predicate Relayed(r: Response, order: seq<string>)
    requires Enumerates(order, r.headers)
  {
    var t := AppendData(FRESH, Commit(r, order));
    t.Success? && t.value.Complete() && SameMeaning(r, t.value)
  }

  /** Relaying keeps the meaning of a complete response if and only if it has no Content-Length:
      the CRLF that `commit` always appends (or the chunks it writes when there is a
      Transfer-Encoding as well) overruns the declared length, and the count is never met.  This
      covers every response that any run of the parser can produce, whatever chunk partition it
      came in, in any enumeration order of its headers. */
  lemma RelayTheorem(fs: seq<string>, r: Response, order: seq<string>)
    requires Feed(FRESH, fs) == Success(r) && r.Complete() && Enumerates(order, r.headers)
    ensures Relayed(r, order) <==> CONTENT_LENGTH !in r.headers
  {
    hide Feed, Sound, AppendData, CommitHeaders;
    FeedIsSound(fs);
    SoundRelay(r, order);
  }

  lemma SoundRelay(r: Response, order: seq<string>)
    requires Sound(r) && r.Complete() && Enumerates(order, r.headers)
    ensures Relayed(r, order) <==> CONTENT_LENGTH !in r.headers
    ensures var t := AppendData(FRESH, Commit(r, order));
            && t.Success?
            && (CONTENT_LENGTH in r.headers ==> !t.value.Complete())
            && (CONTENT_LENGTH !in r.headers ==>
                  t.value.unparsed == if r.IsChunked() then Leftover(r.body) else CRLF)
  {
    hide AppendData, CommitHeaders, Decode, Encode, Stoi, Canonical, CrlfFree;
    ReparseIsBodyPhase(r, order, CommitBody(r));
    if CONTENT_LENGTH in r.headers {
      EncodedSize(r.body);
    } else if r.IsChunked() {
      DecodeOfEncode(r.body, "");
      assert "" + r.body == r.body;
    }
  }

  /** A response with a Content-Length does survive when its head and bare body are sent: the
      trailing CRLF alone is what breaks the relay. */
  lemma HeadersAndBodyReadBack(fs: seq<string>, r: Response, order: seq<string>)
    requires Feed(FRESH, fs) == Success(r) && r.Complete() && Enumerates(order, r.headers)
    requires CONTENT_LENGTH in r.headers
    ensures AppendData(FRESH, CommitHeaders(r, order) + r.body)
         == Success(r.(version := "HTTP/" + HTTP_VERSION, unparsed := ""))
  {
    hide Feed, AppendData, CommitHeaders, Sound;
    FeedIsSound(fs);
    SoundBodyReadsBack(r, order);
  }

  lemma SoundBodyReadsBack(r: Response, order: seq<string>)
    requires Sound(r) && r.Complete() && Enumerates(order, r.headers) && CONTENT_LENGTH in r.headers
    ensures AppendData(FRESH, CommitHeaders(r, order) + r.body)
         == Success(r.(version := "HTTP/" + HTTP_VERSION, unparsed := ""))
  {
    hide AppendData, CommitHeaders, Stoi, Canonical, CrlfFree;
    ReparseIsBodyPhase(r, order, r.body);
    assert "" + r.body == r.body;
  }

  /** The head alone, printed and read back: same status, reason and headers for every header block
      that any run of the parser accepted. */
  lemma HeadCanonicalisation(fs: seq<string>, r: Response, order: seq<string>)
    requires Feed(FRESH, fs) == Success(r) && r.headersParsed && Enumerates(order, r.headers)
    ensures var t := HeadPhases(FRESH.Extended(CommitHeaders(r, order)));
            && t.Success? && t.value.titleParsed && t.value.headersParsed && t.value.unparsed == ""
            && t.value.code == r.code && t.value.reason == r.reason && t.value.headers == r.headers
  {
    hide Feed, HeadPhases, CommitHeaders, Sound;
    FeedIsSound(fs);
    HeadReadsBack(r, order, "");
    assert CommitHeaders(r, order) + "" == CommitHeaders(r, order);
  }

  /** End to end: a well-formed response that the origin sends, quietly cut in any way, and the
      proxy parses and prints again, is read by a client with this parser as the origin meant it if
      and only if its body is not delimited by Content-Length. */
  lemma EndToEnd(m: Message, fs: seq<string>, order: seq<string>)
    requires MessageOk(m) && QuietCuts(m, fs) && Enumerates(order, HeaderFold(m))
    ensures Feed(FRESH, fs) == Success(Completed(m))
    ensures Relayed(Completed(m), order) <==> !m.body.Sized?
  {
    hide Feed, AppendData, QuietCuts, HeadOk, Stoi, Fold, Enumerates, ChunksOk;
    CutIndependence(m, fs);
    RelayTheorem(fs, Completed(m), order);
  }

  /** A plain counted response: one header, a body of one byte. */
  const COUNTED: Message :=
    Message("HTTP/1.1", "200", "OK", [PrintLine(CONTENT_LENGTH, "1")], Sized("x"))

  lemma CountedIsOk()
    ensures MessageOk(COUNTED) && HeaderFold(COUNTED) == map[CONTENT_LENGTH := "1"]
  {
    hide AddLine, Stoi, Find, FindCrlf, LineOk, PrintLine, Fold;
    var line := PrintLine(CONTENT_LENGTH, "1");
    CountedHeader();
    FoldOne(line);
    CountedNumbers();
    assert HeadOk(COUNTED);
    assert HeaderFold(COUNTED)[CONTENT_LENGTH] == "1";
  }

  lemma FoldOne(line: string)
    ensures Fold(map[], [line], KeepFirstTrimmed) == AddLine(map[], line, KeepFirstTrimmed)
  {
    hide AddLine;
    assert [line][..0] == [];
  }

  lemma CountedHeader()
    ensures AddLine(map[], PrintLine(CONTENT_LENGTH, "1"), KeepFirstTrimmed) == Success(map[][CONTENT_LENGTH := "1"])
    ensures LineOk(PrintLine(CONTENT_LENGTH, "1"))
  {
    hide AddLine, LineOk, PrintLine;
    PrintedLineReadsBack(map[], CONTENT_LENGTH, "1", KeepFirstTrimmed);
    PrintedLineOk(CONTENT_LENGTH, "1");
  }

  lemma CountedNumbers()
    ensures Stoi("200") == Success(200) && Stoi("1") == Success(1)
  {
    hide Numeral, Stoi;
    assert "200"[..2] == "20" && "20"[..1] == "2" && "2"[..0] == "" && "1"[..0] == "";
    assert Value("200", 10) == 200 && Value("1", 10) == 1;
    hide Value;
    StoiOfDigits("200");
    StoiOfDigits("1");
  }

  lemma StoiOfDigits(ds: string)
    requires ds != "" && Digits(ds, 10) && Value(ds, 10) < TWO_TO_31
    ensures Stoi(ds) == Success(Value(ds, 10))
  {
    hide Numeral, Value;
    assert ds + "" == ds;
    NumeralOfDigits(ds, "", 10);
  }

  /** The relay really fails: this response arrives complete and leaves unreadable. */
  lemma CountedIsNotRelayed()
    ensures MessageOk(COUNTED) && Feed(FRESH, [MessageWire(COUNTED)]) == Success(Completed(COUNTED))
    ensures Enumerates([CONTENT_LENGTH], Completed(COUNTED).headers)
         && !Relayed(Completed(COUNTED), [CONTENT_LENGTH])
  {
    hide Feed, AppendData, Relayed, MessageOk, HeaderFold, MessageWire, QuietAt;
    CountedIsOk();
    var wire := MessageWire(COUNTED);
    WireStartsWithLine(COUNTED);
    OneFragment(wire);
    assert QuietCuts(COUNTED, [wire]);
    EndToEnd(COUNTED, [wire], [CONTENT_LENGTH]);
  }

  lemma OneFragment(s: string)
    ensures Concat([s]) == s
  {
    assert [s][..0] == [] && "" + s == s;
  }

  lemma WireStartsWithLine(m: Message)
    ensures MessageWire(m) != "" && |MessageWire(m)| >= |StartLine(m)|
  {
  }
}
