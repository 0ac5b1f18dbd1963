/** Exactly which bytes the request parser throws on, read off the bytes. */
module Rejections {
  import opened Outcomes
  import opened Text
  import opened Numbers
  import opened StartLines
  import opened Headers
  import opened RawHeads
  import opened Requests

  /** The request line is not read exactly when it is missing. */
  lemma TitleFails(u: string)
    ensures ReadTitle(u).Failure? <==> TitleMissing(u)
    ensures ReadTitle(u).Success? ==> ReadTitle(u).value.rest == BehindTitle(u)
  {
    hide Find, TitleMissing, FindCrlf, CrlfFree, Prefix, Substr, BehindBlank;
    NothingBehindBlanks(u);
    TokenIs(u);
    TokenIs(BehindBlank(u));
    RestIs(BehindBlank(BehindBlank(u)));
  }

  lemma RestIs(u: string)
    ensures var r := Substr(u, FindCrlf(u) + 2);
            (r.Failure? <==> u == "") && (r.Success? ==> FindCrlf(u) + 2 <= |u| && r.value == u[FindCrlf(u) + 2..])
  {
    hide FindCrlf, CrlfFree, CrlfAt;
    var pos: nat := FindCrlf(u) + 2;
    BreakInside(u);
    SubstrIs(u, pos);
  }

  lemma TokenIs(u: string)
    ensures Substr(u, Find(u, ' ') + 1) == Success(BehindBlank(u)) && Prefix(u, Find(u, ' ')) == UpToBlank(u)
  {
    hide Find;
  }

  /** What any bytes are read as: method up to the first blank, URL from there up to the second,
      version from there up to the line break, where a blank or line break that is missing leaves
      the same bytes for the next part as well. */
  lemma TitleIs(u: string, u2: string)
    requires !TitleMissing(u) && u2 == BehindBlank(BehindBlank(u))
    ensures ReadTitle(u)
         == Success(Title(UpToBlank(u), UpToBlank(BehindBlank(u)), Prefix(u2, FindCrlf(u2)), BehindTitle(u)))
  {
    hide Find, TitleMissing, FindCrlf, BehindTitle, Prefix, CrlfFree, Substr, BehindBlank, UpToBlank;
    TitleFails(u);
    TokenIs(u);
    TokenIs(BehindBlank(u));
  }

  lemma NoBlankInToken(u: string)
    requires ' ' !in u
    ensures BehindBlank(u) == u && UpToBlank(u) == u
  {
  }

  lemma BlankBehindToken(token: string, rest: string)
    requires ' ' !in token
    ensures BehindBlank(token + " " + rest) == rest && UpToBlank(token + " " + rest) == token
  {
    hide Find;
    FindEndsToken(token, ' ', rest);
    var u := token + " " + rest;
    assert u == token + [' '] + rest && u[|token| + 1..] == rest && u[..|token|] == token;
  }

  /** A request line cut inside the method: what was seen is method, URL and version at once. */
  lemma CutMethodMisleads(seen: string)
    requires ' ' !in seen && seen != "" && CrlfFree(seen)
    ensures AppendData(FRESH, seen)
         == Success(Request(seen, seen, seen, map[], "", seen[1..], true, false, false))
  {
    hide Find, BehindBlank, UpToBlank, BehindTitle, TitleMissing;
    NoBlankInToken(seen);
    CutTitle(seen, seen, seen, seen);
  }

  /** Cut inside the URL: what was seen of it is the version as well. */
  lemma CutUrlMisleads(verb: string, seen: string)
    requires ' ' !in verb && ' ' !in seen && seen != "" && CrlfFree(seen)
    ensures AppendData(FRESH, verb + " " + seen)
         == Success(Request(verb, seen, seen, map[], "", seen[1..], true, false, false))
  {
    hide Find, BehindBlank, UpToBlank, BehindTitle, TitleMissing;
    BlankBehindToken(verb, seen);
    NoBlankInToken(seen);
    CutTitle(verb + " " + seen, verb, seen, seen);
  }

  /** Cut inside the version or its line break: what was seen is the version, and, less one byte, the
      beginning of a header line. */
  lemma CutVersionMisleads(verb: string, url: string, seen: string)
    requires ' ' !in verb && ' ' !in url && seen != "" && CrlfFree(seen)
    ensures AppendData(FRESH, verb + " " + (url + " " + seen))
         == Success(Request(verb, url, seen, map[], "", seen[1..], true, false, false))
  {
    hide Find, BehindBlank, UpToBlank, BehindTitle, TitleMissing;
    BlankBehindToken(verb, url + " " + seen);
    BlankBehindToken(url, seen);
    CutTitle(verb + " " + (url + " " + seen), verb, url, seen);
  }

  lemma CutTitle(u: string, verb: string, url: string, seen: string)
    requires UpToBlank(u) == verb && UpToBlank(BehindBlank(u)) == url && BehindBlank(BehindBlank(u)) == seen
    requires seen != "" && CrlfFree(seen)
    ensures AppendData(FRESH, u) == Success(Request(verb, url, seen, map[], "", seen[1..], true, false, false))
  {
    hide Find, BehindBlank, UpToBlank, TitleMissing, ReadTitle, AddLine;
    NothingBehindBlanks(u);
    TitleIs(u, seen);
    NoBreakInTail(seen);
    assert "" + u == u;
  }

  lemma NoBreakInTail(s: string)
    requires s != "" && CrlfFree(s)
    ensures FindCrlf(s) == NPOS && FindCrlf(s[1..]) == NPOS
  {
    forall i | 0 <= i < |s| - 1 ensures !CrlfAt(s[1..], i) {
      assert !CrlfAt(s, i + 1);
    }
  }

  /** The bytes that are not survived, in terms of the bytes alone. */
  ghost predicate Rejected(fs: seq<string>) {
    fs != [] && (TitleMissing(fs[0]) || BadHead(HeadBytes(fs), KeepLastRaw))
  }

  /** The header phase on everything behind the request line, in one go, says what the parser has
      of the head, and whether its last fragment was survived. */
  ghost predicate HeadIs(r: Result<Request>, s: string) {
    var h := HeaderPhase(s, map[], KeepLastRaw);
    if r.Failure? then
      h.Failure? || (h.value.done && CONTENT_LENGTH in h.value.headers
                     && Stoi(h.value.headers[CONTENT_LENGTH]).Failure?)
    else
      && h.Success? && r.value.titleParsed
      && h.value.headers == r.value.headers && h.value.done == r.value.headersParsed
      && (if !h.value.done then r.value.unparsed == h.value.unparsed && !r.value.bodyParsed
          else if CONTENT_LENGTH in h.value.headers then Stoi(h.value.headers[CONTENT_LENGTH]).Success?
          else r.value.bodyParsed)
  }

  lemma FirstHead(data: string)
    requires !TitleMissing(data)
    ensures HeadIs(AppendData(FRESH, data), BehindTitle(data))
  {
    hide TitleMissing, BehindTitle, ReadTitle, HeaderPhase, Stoi;
    TitleFails(data);
    assert "" + data == data;
  }

  lemma NextHead(r: Request, s: string, data: string)
    requires HeadIs(Success(r), s) && !r.Complete() && (r.bodyParsed ==> r.headersParsed)
    ensures HeadIs(AppendData(r, data), s + data)
  {
    hide HeaderPhase, Stoi;
    HeaderPhaseResumes(s, data, map[], KeepLastRaw);
  }

  lemma {:induction false} HeadOfRun(fs: seq<string>)
    requires fs != [] && !TitleMissing(fs[0])
    requires Feed(FRESH, fs[..|fs| - 1]).Success? && !Feed(FRESH, fs[..|fs| - 1]).value.Complete()
    ensures HeadIs(Feed(FRESH, fs), HeadBytes(fs))
  {
    hide HeadIs, AppendData, HeadBytes, TitleMissing;
    var init, last := fs[..|fs| - 1], fs[|fs| - 1];
    if init == [] {
      HeadBytesOne(fs);
      FirstHead(last);
    } else {
      HeadBytesSnoc(fs);
      EarlierIncomplete(init);
      HeadOfRun(init);
      FlagsInOrder(init);
      NextHead(Feed(FRESH, init).value, HeadBytes(init), last);
    }
  }

  lemma EarlierIncomplete(fs: seq<string>)
    requires fs != [] && Feed(FRESH, fs).Success?
    ensures Feed(FRESH, fs[..|fs| - 1]).Success? && !Feed(FRESH, fs[..|fs| - 1]).value.Complete()
  {
    hide HeaderPhase, BodyPhase, ReadTitle;
  }

  lemma {:induction false} FlagsInOrder(fs: seq<string>)
    requires Feed(FRESH, fs).Success?
    ensures Feed(FRESH, fs).value.bodyParsed ==> Feed(FRESH, fs).value.Complete()
  {
    hide AppendData;
    if fs != [] {
      EarlierIncomplete(fs);
      FlagsInOrder(fs[..|fs| - 1]);
      IncompleteReturns(Feed(FRESH, fs[..|fs| - 1]).value, fs[|fs| - 1]);
    }
  }

  /** The headers of a request that any run completes are what the lines behind its request line
      say: each name the value of its last line, and no other names. */
  lemma HeadersOfRun(fs: seq<string>, name: string, value: string)
    requires fs != [] && Feed(FRESH, fs).Success? && Feed(FRESH, fs).value.Complete()
    ensures var h, ls := Feed(FRESH, fs).value.headers, RawLines(HeadBytes(fs));
            && (Says(ls, KeepLastRaw, name, value) <==> name in h && h[name] == value)
            && (Mentions(ls, name) <==> name in h)
  {
    hide Feed, TitleMissing, HeadBytes, RawLines, HeaderPhase, Fold, Lines, LineOk, Says, Mentions, Stoi;
    if TitleMissing(fs[0]) {
      MissingTitleThrows(fs);
    } else {
      EarlierIncomplete(fs);
      HeadOfRun(fs);
      HeaderPhaseConserves(HeadBytes(fs), map[], KeepLastRaw);
      SaysExactly(RawLines(HeadBytes(fs)), KeepLastRaw, Feed(FRESH, fs).value.headers, name, value);
      NamesOfFold(RawLines(HeadBytes(fs)), KeepLastRaw, Feed(FRESH, fs).value.headers, name);
    }
  }

  /** An incomplete request parser throws on one more fragment, in any run, exactly when the bytes
      it has been given are now rejected: the request line is missing from the first fragment, a
      header field has an empty value, or the header block is over and its last Content-Length is
      not a number that fits. */
  lemma ThrowsExactly(fs: seq<string>)
    requires fs != []
    requires Feed(FRESH, fs[..|fs| - 1]).Success? && !Feed(FRESH, fs[..|fs| - 1]).value.Complete()
    ensures Feed(FRESH, fs).Failure? <==> Rejected(fs)
  {
    hide AppendData, TitleMissing, BadHead, HeadBytes, Stoi, HeaderPhase;
    if TitleMissing(fs[0]) {
      MissingTitleThrows(fs);
    } else {
      HeadOfRun(fs);
      BadHeadExactly(HeadBytes(fs), KeepLastRaw);
    }
  }

  lemma {:induction false} MissingTitleThrows(fs: seq<string>)
    requires fs != [] && TitleMissing(fs[0])
    ensures Feed(FRESH, fs).Failure?
  {
    hide TitleMissing, AppendData;
    var init := fs[..|fs| - 1];
    if init == [] {
      MissingTitleThrowsAtOnce(fs[0]);
    } else {
      MissingTitleThrows(init);
    }
  }

  lemma MissingTitleThrowsAtOnce(data: string)
    requires TitleMissing(data)
    ensures AppendData(FRESH, data).Failure?
  {
    hide ReadTitle, HeaderPhase, Stoi, TitleMissing;
    TitleFails(data);
    assert "" + data == data;
  }

  /** A field with an empty value, which section 3.2 of RFC 7230 allows, is never survived. */
  lemma EmptyFieldIsRejected(verb: string, url: string, version: string, name: string)
    requires ' ' !in verb && ' ' !in url && CrlfFree(version) && ':' !in name && CrlfFree(name)
    ensures Rejected([StartText(verb, url, version, name + ":" + CRLF)])
  {
    hide ReadTitle, TitleMissing, BehindTitle, StartLineIn, CrlfFree, FindCrlf, StartText;
    var line := name + ":";
    var u := StartText(verb, url, version, line + CRLF);
    ReadTitleText(verb, url, version, line + CRLF);
    TitleFails(u);
    HeadBytesOne([u]);
    FieldIsLine(line);
    assert EmptyField(line) by {
      assert line[..|line| - 1] == name;
    }
  }
}
