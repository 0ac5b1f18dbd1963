/** Where every byte of a request went.  There is no chunked coding here, so the account is balanced
    in every run without exception. */
module RequestConservation {
  import opened Outcomes
  import opened Text
  import opened StartLines
  import opened Headers
  import Requests

  /** The consumed part of the stream: the raw request line and the raw header lines. */
  datatype Consumed = Consumed(title: string, lines: seq<string>)

  /** All the bytes received are the account, the body and the buffer.  The title is what reading
      the first fragment took, and gave method, URL and version; the lines fold to the headers. */
  ghost predicate Accounted(r: Requests.Request, first: string, all: string, a: Consumed) {
    && r.titleParsed && a.title <= first <= all
    && Requests.ReadTitle(first) == Success(Requests.Title(r.verb, r.url, r.version, first[|a.title|..]))
    && all == a.title + (Lines(a.lines) + ((if r.headersParsed then CRLF else "") + (r.body + r.unparsed)))
    && Fold(map[], a.lines, KeepLastRaw) == Success(r.headers)
    && (forall l | l in a.lines :: LineOk(l))
    && (!r.headersParsed || CONTENT_LENGTH !in r.headers ==> r.body == "")
  }

  /** Once the header block is over, a counted body does not wait in the buffer. */
  predicate Emptied(r: Requests.Request) {
    r.headersParsed && CONTENT_LENGTH in r.headers ==> r.unparsed == ""
  }

  lemma RequestLineTakesPrefix(u: string)
    requires Requests.ReadTitle(u).Success?
    ensures IsSuffix(Requests.ReadTitle(u).value.rest, u)
  {
    hide Find, FindCrlf, Prefix, Substr, IsSuffix;
    var u1 := Substr(u, Find(u, ' ') + 1).value;
    var u2 := Substr(u1, Find(u1, ' ') + 1).value;
    SubstrIsSuffix(u, Find(u, ' ') + 1);
    SubstrIsSuffix(u1, Find(u1, ' ') + 1);
    SubstrIsSuffix(u2, FindCrlf(u2) + 2);
    SuffixOfSuffix(u2, u1, u);
    SuffixOfSuffix(Requests.ReadTitle(u).value.rest, u2, u);
  }

  lemma RequestLineAccounted(r: Requests.Request) returns (a: Consumed)
    requires !r.titleParsed && !r.headersParsed && r.headers == map[] && r.body == ""
    requires Requests.TitlePhase(r).Success?
    ensures Accounted(Requests.TitlePhase(r).value, r.unparsed, r.unparsed, a)
  {
    hide Requests.ReadTitle;
    RequestLineTakesPrefix(r.unparsed);
    var rest := Requests.ReadTitle(r.unparsed).value.rest;
    a := Consumed(r.unparsed[..|r.unparsed| - |rest|], []);
    assert r.unparsed[|a.title|..] == rest;
    assert r.unparsed == a.title + (Lines([]) + ("" + ("" + rest)));
  }

  lemma ReceivedAccounted(r: Requests.Request, first: string, all: string, a: Consumed, data: string)
    requires Accounted(r, first, all, a)
    ensures Accounted(r.Extended(data), first, all + data, a)
  {
    hide Fold, LineOk, Lines, Requests.ReadTitle;
    var blank := if r.headersParsed then CRLF else "";
    assert all + data == a.title + (Lines(a.lines) + (blank + (r.body + (r.unparsed + data))));
  }

  lemma HeadersAccounted(r: Requests.Request, first: string, all: string, a: Consumed) returns (a': Consumed)
    requires Accounted(r, first, all, a) && Requests.HeadersPhase(r).Success?
    ensures Accounted(Requests.HeadersPhase(r).value, first, all, a')
  {
    hide HeaderPhase, Fold, LineOk, Lines, RawLines, Requests.ReadTitle;
    a' := a;
    if !r.headersParsed {
      HeaderPhaseConserves(r.unparsed, r.headers, KeepLastRaw);
      var ls := RawLines(r.unparsed);
      a' := a.(lines := a.lines + ls);
      LinesAppend(a.lines, ls);
      FoldAppend(map[], a.lines, ls, KeepLastRaw);
      var h := Requests.HeadersPhase(r).value;
      var tail := (if h.headersParsed then CRLF else "") + h.unparsed;
      assert r.body + r.unparsed == r.unparsed && r.body + h.unparsed == h.unparsed;
      assert a.title + (Lines(a.lines) + ("" + (Lines(ls) + tail))) == a.title + (Lines(a.lines) + Lines(ls) + tail);
    }
  }

  lemma BodyAccounted(r: Requests.Request, first: string, all: string, a: Consumed)
    requires Accounted(r, first, all, a) && r.headersParsed && Requests.BodyPhase(r).Success?
    ensures Accounted(Requests.BodyPhase(r).value, first, all, a) && Emptied(Requests.BodyPhase(r).value)
  {
    hide Fold, LineOk, Lines, Requests.ReadTitle;
    assert r.body + r.unparsed + "" == r.body + r.unparsed;
  }

  lemma AppendAccounted(r: Requests.Request, first: string, all: string, a: Consumed, data: string)
    returns (a': Consumed)
    requires (r == Requests.FRESH && all == "" && first == data) || Accounted(r, first, all, a)
    requires Requests.AppendData(r, data).Success?
    ensures Accounted(Requests.AppendData(r, data).value, first, all + data, a')
    ensures Emptied(Requests.AppendData(r, data).value)
  {
    hide Requests.TitlePhase, Requests.HeadersPhase, Requests.BodyPhase, Accounted;
    var q := r.Extended(data);
    var a1 := a;
    if r == Requests.FRESH && all == "" && first == data {
      assert "" + data == data;
      a1 := RequestLineAccounted(q);
    } else {
      ReceivedAccounted(r, first, all, a, data);
      RequestLineIsOver(q, first, all + data, a);
    }
    a' := HeadersAccounted(Requests.TitlePhase(q).value, first, all + data, a1);
    var h := Requests.HeadPhases(q).value;
    if h.headersParsed {
      BodyAccounted(h, first, all + data, a');
    }
  }

  lemma RequestLineIsOver(r: Requests.Request, first: string, all: string, a: Consumed)
    requires Accounted(r, first, all, a)
    ensures Requests.TitlePhase(r) == Success(r)
  {
  }

  /** Byte conservation for requests, in every run that does not throw: the bytes received are the
      raw request line, the raw header lines and blank line, the body, then the buffer. */
  lemma {:induction false} RequestBytesAreConserved(fs: seq<string>) returns (a: Consumed)
    requires fs != [] && Requests.Feed(Requests.FRESH, fs).Success?
    ensures Accounted(Requests.Feed(Requests.FRESH, fs).value, fs[0], Concat(fs), a)
    ensures Emptied(Requests.Feed(Requests.FRESH, fs).value)
  {
    hide Requests.AppendData, Accounted;
    var init, last := fs[..|fs| - 1], fs[|fs| - 1];
    var a0 := Consumed("", []);
    if init != [] {
      a0 := RequestBytesAreConserved(init);
    }
    a := AppendAccounted(Requests.Feed(Requests.FRESH, init).value, fs[0], Concat(init), a0, last);
  }

  /** Repeated names, in every run: of the header lines on the stream, the last of a name decides
      its value, at whatever points the stream was cut. */
  lemma LastValueWins(fs: seq<string>, i: nat) returns (a: Consumed)
    requires fs != [] && Requests.Feed(Requests.FRESH, fs).Success?
    ensures var r := Requests.Feed(Requests.FRESH, fs).value;
            && Accounted(r, fs[0], Concat(fs), a)
            && (Decides(a.lines, i, KeepLastRaw) ==>
                  && SplitLine(a.lines[i]).Success? && NameOf(a.lines[i]) in r.headers
                  && r.headers[NameOf(a.lines[i])] == LineValue(a.lines[i], KeepLastRaw))
  {
    hide Requests.Feed, Requests.ReadTitle, SplitLine, NameOf, LineValue, Fold, Decides;
    a := RequestBytesAreConserved(fs);
    if Decides(a.lines, i, KeepLastRaw) {
      RepeatedNames(a.lines, KeepLastRaw, Requests.Feed(Requests.FRESH, fs).value.headers, i);
    }
  }
}
