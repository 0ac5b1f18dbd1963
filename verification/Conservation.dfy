/** Where every byte of a response went: an account of the stream that the parser keeps. */
module Conservation {
  import opened Outcomes
  import opened Text
  import opened Numbers
  import opened StartLines
  import opened Headers
  import opened ChunkedCoding
  import opened Responses

  /** The stream so far: the raw start line, the raw header lines, what followed the header block
      (`tail`), and the pieces that the chunk decoder took off that, fragment by fragment. */
  datatype Account = Account(title: string, lines: seq<string>, tail: string, rounds: seq<seq<Piece>>)

  /** Fragments without the first `n` of their bytes. */
  function Behind(fs: seq<string>, n: nat): (bs: seq<string>)
    ensures |bs| == |fs|
  {
    if fs == [] then []
    else
      var init, last := fs[..|fs| - 1], fs[|fs| - 1];
      var before := |Concat(init)|;
      Behind(init, n) + [if n <= before then last else if n - before <= |last| then last[n - before..] else ""]
  }

  /** The head: the title is what reading the first fragment took, and gave the status; the lines
      fold to the headers; what is behind them, and the blank line, is the tail. */
  ghost predicate HeadFiled(r: Response, first: string, all: string, a: Account) {
    && r.titleParsed && (r.bodyParsed ==> r.headersParsed) && a.title <= first <= all
    && ReadTitle(first) == Success(Title(r.version, r.code, r.reason, first[|a.title|..]))
    && all == a.title + (Lines(a.lines) + ((if r.headersParsed then CRLF else "") + a.tail))
    && (forall l | l in a.lines :: LineOk(l))
    && Fold(map[], a.lines, KeepFirstTrimmed) == Success(r.headers)
  }

  /** The tail of a chunked message is the pieces taken and the buffer; that of any other message
      its body and the buffer. */
  ghost predicate TailFiled(r: Response, fs: seq<string>, a: Account)
    requires |a.tail| <= |Concat(fs)|
  {
    if r.headersParsed && r.IsChunked() then
      Rounds(Behind(fs, |Concat(fs)| - |a.tail|), a.rounds, r.unparsed, r.bodyParsed)
    else
      && a.tail == r.body + r.unparsed && a.rounds == []
      && (!r.headersParsed || CONTENT_LENGTH !in r.headers ==> r.body == "")
      && (!r.headersParsed ==> CrlfFree(r.unparsed))
  }

  /** Every byte received is filed. */
  ghost predicate Filed(r: Response, fs: seq<string>, a: Account) {
    fs != [] && HeadFiled(r, fs[0], Concat(fs), a) && TailFiled(r, fs, a)
  }

  /** A chunked body is the data of the pieces, no byte more or less. */
  ghost predicate Conserved(r: Response, a: Account) {
    r.IsChunked() ==> r.body == DataOfRounds(a.rounds)
  }

  /** Feeding `data` makes the chunk decoder run on a buffer that doubles. */
  predicate DoublesAt(r: Response, data: string) {
    var h := HeadPhases(r.Extended(data));
    h.Success? && h.value.headersParsed && h.value.IsChunked() && Doubles(h.value.unparsed)
  }

  predicate DoublesIn(fs: seq<string>) {
    fs != [] &&
    var init := fs[..|fs| - 1];
    DoublesIn(init) || (Feed(FRESH, init).Success? && DoublesAt(Feed(FRESH, init).value, fs[|fs| - 1]))
  }

  /** Once the header block is over, a counted body does not wait in the buffer. */
  predicate Emptied(r: Response) {
    r.headersParsed && CONTENT_LENGTH in r.headers ==> r.unparsed == ""
  }

  /** Conserved if and only if not doubled, in a form that every step keeps. */
  ghost predicate Balance(r: Response, a: Account, doubled: bool) {
    if doubled then r.headersParsed && r.IsChunked() && |r.body| > |DataOfRounds(a.rounds)| else Conserved(r, a)
  }

  lemma TitleTakesPrefix(u: string)
    requires ReadTitle(u).Success?
    ensures IsSuffix(ReadTitle(u).value.rest, u)
  {
    hide Find, FindCrlf, Stoi, Prefix, Substr, IsSuffix;
    var u1 := Substr(u, Find(u, ' ') + 1).value;
    var u2 := Substr(u1, Find(u1, ' ') + 1).value;
    SubstrIsSuffix(u, Find(u, ' ') + 1);
    SubstrIsSuffix(u1, Find(u1, ' ') + 1);
    SubstrIsSuffix(u2, FindCrlf(u2) + 2);
    SuffixOfSuffix(u2, u1, u);
    SuffixOfSuffix(ReadTitle(u).value.rest, u2, u);
  }

  /** A head whose tail is still all in the buffer. */
  ghost predicate Untouched(r: Response, a: Account) {
    a.tail == r.unparsed && a.rounds == [] && r.body == "" && !r.bodyParsed
  }

  lemma TitleFiled(r: Response) returns (a: Account)
    requires !r.titleParsed && !r.headersParsed && !r.bodyParsed && r.headers == map[] && r.body == ""
    requires TitlePhase(r).Success?
    ensures HeadFiled(TitlePhase(r).value, r.unparsed, r.unparsed, a) && Untouched(TitlePhase(r).value, a)
  {
    hide ReadTitle;
    TitleTakesPrefix(r.unparsed);
    var rest := ReadTitle(r.unparsed).value.rest;
    a := Account(r.unparsed[..|r.unparsed| - |rest|], [], rest, []);
    assert r.unparsed[|a.title|..] == rest;
    assert r.unparsed == a.title + (Lines([]) + ("" + rest));
  }

  /** More bytes in the buffer are more bytes received. */
  lemma HeadReceives(r: Response, first: string, all: string, a: Account, data: string)
    requires HeadFiled(r, first, all, a)
    ensures HeadFiled(r.Extended(data), first, all + data, a.(tail := a.tail + data))
  {
    hide Fold, LineOk, ReadTitle, Lines;
    var blank := if r.headersParsed then CRLF else "";
    assert all + data == a.title + (Lines(a.lines) + (blank + (a.tail + data)));
  }

  lemma HeadersFiled(r: Response, first: string, all: string, a: Account) returns (a': Account)
    requires HeadFiled(r, first, all, a) && Untouched(r, a) && !r.headersParsed && HeadersPhase(r).Success?
    ensures HeadFiled(HeadersPhase(r).value, first, all, a') && Untouched(HeadersPhase(r).value, a')
  {
    hide HeaderPhase, Fold, LineOk, Lines, RawLines, ReadTitle;
    HeaderPhaseConserves(r.unparsed, r.headers, KeepFirstTrimmed);
    var ls, h := RawLines(r.unparsed), HeadersPhase(r).value;
    a' := a.(lines := a.lines + ls, tail := h.unparsed);
    LinesAppend(a.lines, ls);
    FoldAppend(map[], a.lines, ls, KeepFirstTrimmed);
    var rest := (if h.headersParsed then CRLF else "") + h.unparsed;
    assert a.title + (Lines(a.lines) + ("" + (Lines(ls) + rest))) == a.title + (Lines(a.lines) + Lines(ls) + rest);
  }

  /** The head phases, from a state in which the head was not over: the tail begins in the fragment
      that is new, if it begins at all. */
  lemma HeadAdvances(r: Response, first: string, all: string, a: Account, data: string) returns (a': Account)
    requires (r == FRESH && all == "" && first == data)
             || (HeadFiled(r, first, all, a) && Untouched(r, a) && !r.headersParsed && CrlfFree(r.unparsed))
    requires HeadPhases(r.Extended(data)).Success?
    ensures var h := HeadPhases(r.Extended(data)).value;
            && HeadFiled(h, first, all + data, a') && Untouched(h, a')
            && (!h.headersParsed ==> CrlfFree(h.unparsed)) && (h.headersParsed ==> |h.unparsed| <= |data|)
  {
    hide ReadTitle, HeaderPhase, HeadFiled, CrlfFree;
    var q := r.Extended(data);
    if r == FRESH && all == "" && first == data {
      assert "" + data == data;
      a' := TitleFiled(q);
      NothingLonger(TitlePhase(q).value, first, all + data, a');
      HeaderPhaseShrinks(TitlePhase(q).value.unparsed, q.headers, KeepFirstTrimmed);
    } else {
      TitleIsRead(r, first, all, a);
      HeadReceives(r, first, all, a, data);
      a' := a.(tail := a.tail + data);
      if HeaderPhase(q.unparsed, q.headers, KeepFirstTrimmed).value.done {
        EndsAmongNew(r.unparsed, data, q.headers, KeepFirstTrimmed);
      }
    }
    var t := TitlePhase(q).value;
    if !HeaderPhase(t.unparsed, t.headers, KeepFirstTrimmed).value.done {
      UndoneHasNoBreak(t.unparsed, t.headers, KeepFirstTrimmed);
    }
    a' := HeadersFiled(t, first, all + data, a');
  }

  lemma TitleIsRead(r: Response, first: string, all: string, a: Account)
    requires HeadFiled(r, first, all, a)
    ensures r.titleParsed && (r.bodyParsed ==> r.headersParsed)
  {
  }

  lemma NothingLonger(r: Response, first: string, all: string, a: Account)
    requires HeadFiled(r, first, all, a)
    ensures |a.tail| <= |all|
  {
    hide Fold, LineOk, ReadTitle, Lines;
  }

  /** Where the tail begins, later fragments belong to it whole, and earlier ones not at all. */
  lemma BehindSnoc(fs: seq<string>, data: string, n: nat)
    ensures n <= |Concat(fs)| ==> Behind(fs + [data], n) == Behind(fs, n) + [data]
    ensures |Concat(fs)| <= n <= |Concat(fs)| + |data| ==>
              Behind(fs + [data], n) == Behind(fs, n) + [data[n - |Concat(fs)|..]]
  {
    assert (fs + [data])[..|fs|] == fs;
    assert data[0..] == data;
  }

  lemma {:induction false} NothingBehind(fs: seq<string>, n: nat)
    requires n >= |Concat(fs)|
    ensures forall i | 0 <= i < |Behind(fs, n)| :: Behind(fs, n)[i] == ""
  {
    if fs != [] {
      assert Concat(fs) == Concat(fs[..|fs| - 1]) + fs[|fs| - 1];
      NothingBehind(fs[..|fs| - 1], n);
    }
  }

  /** What is filed as the tail is what the fragments hold behind the head. */
  lemma {:induction false} BehindIsTail(fs: seq<string>, n: nat)
    requires n <= |Concat(fs)|
    ensures Concat(Behind(fs, n)) == Concat(fs)[n..]
  {
    if fs != [] {
      var init, last := fs[..|fs| - 1], fs[|fs| - 1];
      var bs := Behind(fs, n);
      assert bs[..|bs| - 1] == Behind(init, n);
      if n <= |Concat(init)| {
        BehindIsTail(init, n);
      } else {
        NothingBehind(init, n);
        NothingConcat(Behind(init, n));
      }
    }
  }

  lemma {:induction false} NothingConcat(bs: seq<string>)
    requires forall i | 0 <= i < |bs| :: bs[i] == ""
    ensures Concat(bs) == ""
  {
    if bs != [] {
      NothingConcat(bs[..|bs| - 1]);
    }
  }

  lemma ConcatSnoc(fs: seq<string>, data: string)
    ensures Concat(fs + [data]) == Concat(fs) + data
  {
    assert (fs + [data])[..|fs|] == fs;
  }

  lemma HeadStays(r: Response, s: Response, first: string, all: string, a: Account, a': Account)
    requires HeadFiled(r, first, all, a) && r.headersParsed
    requires s == r.(body := s.body, unparsed := s.unparsed, bodyParsed := s.bodyParsed)
    requires a' == a.(rounds := a'.rounds)
    ensures HeadFiled(s, first, all, a')
  {
    hide Fold, LineOk, ReadTitle, Lines;
  }

  /** The chunk decoder adds a round to those there were. */
  lemma BodyRound(h: Response, bs: seq<string>, rounds: seq<seq<Piece>>, left: string, b: string, d: bool)
    returns (ps: seq<Piece>)
    requires h.IsChunked() && BodyPhase(h).Success? && h.unparsed == left + b && Rounds(bs, rounds, left, false)
    requires if d then |h.body| > |DataOfRounds(rounds)| else h.body == DataOfRounds(rounds)
    ensures var s, all := BodyPhase(h).value, DataOfRounds(rounds + [ps]);
            && Rounds(bs + [b], rounds + [ps], s.unparsed, s.bodyParsed)
            && s == h.(body := s.body, unparsed := s.unparsed, bodyParsed := s.bodyParsed)
            && if d || Doubles(h.unparsed) then |s.body| > |all| else s.body == all
  {
    hide Decode, Doubles, Round, Rounds, Stoi, DataOf, DataOfRounds;
    ps := DecodeAccount(h.unparsed, h.body);
    var s := Decode(h.unparsed, h.body).value;
    assert OneMore(left, b, ps, s.unparsed, s.done);
    RoundsSnoc(bs, rounds, left, b, ps, s.unparsed, s.done);
  }

  /** A body that is not chunked. */
  lemma PlainBody(h: Response)
    requires !h.IsChunked() && BodyPhase(h).Success?
    ensures var s := BodyPhase(h).value;
            && s == h.(body := s.body, unparsed := s.unparsed, bodyParsed := s.bodyParsed)
            && s.body + s.unparsed == h.body + h.unparsed
            && (if CONTENT_LENGTH in h.headers then s.unparsed == "" else s.body == h.body)
  {
    hide Stoi;
    assert h.body + h.unparsed + "" == h.body + h.unparsed;
  }

  lemma BodyGoesOn(r: Response, init: seq<string>, a: Account, d: bool, data: string) returns (a': Account)
    requires Filed(r, init, a) && Balance(r, a, d) && r.headersParsed && !r.bodyParsed
    requires BodyPhase(r.Extended(data)).Success?
    ensures var s, doubles := BodyPhase(r.Extended(data)).value, r.IsChunked() && Doubles(r.Extended(data).unparsed);
            Filed(s, init + [data], a') && Emptied(s) && Balance(s, a', d || doubles)
  {
    hide BodyPhase, HeadFiled, Rounds, Behind, DataOfRounds, Doubles, Concat;
    var q, first, all := r.Extended(data), init[0], Concat(init);
    NothingLonger(r, first, all, a);
    HeadReceives(r, first, all, a, data);
    ConcatSnoc(init, data);
    a' := a.(tail := a.tail + data);
    var s := BodyPhase(q).value;
    if r.IsChunked() {
      var n := |all| - |a.tail|;
      var ps := BodyRound(q, Behind(init, n), a.rounds, r.unparsed, data, d);
      BehindSnoc(init, data, n);
      a' := a'.(rounds := a.rounds + [ps]);
    } else {
      PlainBody(q);
      assert r.body + r.unparsed + data == r.body + (r.unparsed + data);
    }
    HeadStays(q, s, first, all + data, a.(tail := a.tail + data), a');
    assert (init + [data])[0] == first;
  }

  lemma BodyBegins(h: Response, fs: seq<string>, a: Account, data: string) returns (a': Account)
    requires fs != [] && fs[|fs| - 1] == data && HeadFiled(h, fs[0], Concat(fs), a) && Untouched(h, a)
    requires h.headersParsed && |h.unparsed| <= |data| && BodyPhase(h).Success?
    ensures var s := BodyPhase(h).value;
            Filed(s, fs, a') && Emptied(s) && Balance(s, a', h.IsChunked() && Doubles(h.unparsed))
  {
    hide BodyPhase, HeadFiled, Rounds, Behind, DataOfRounds, Doubles, Concat;
    var init := fs[..|fs| - 1];
    assert fs == init + [data];
    ConcatSnoc(init, data);
    a' := a;
    var s, n := BodyPhase(h).value, |Concat(fs)| - |a.tail|;
    if h.IsChunked() {
      NothingBehind(init, n);
      var rounds := EmptyRounds(Behind(init, n));
      assert "" + h.unparsed == h.unparsed;
      var ps := BodyRound(h, Behind(init, n), rounds, "", h.unparsed, false);
      BehindSnoc(init, data, n);
      NothingLonger(h, fs[0], Concat(fs), a);
      TailIsSuffix(h, fs[0], Concat(fs), a, data, |Concat(init)|);
      a' := a.(rounds := rounds + [ps]);
    } else {
      PlainBody(h);
      assert "" + h.unparsed == h.unparsed;
      NoRounds();
    }
    HeadStays(h, s, fs[0], Concat(fs), a, a');
    NothingLonger(s, fs[0], Concat(fs), a');
  }

  lemma NoRounds()
    ensures DataOfRounds([]) == ""
  {
  }

  /** A tail no longer than the last fragment is the end of it. */
  lemma TailIsSuffix(r: Response, first: string, all: string, a: Account, data: string, before: nat)
    requires HeadFiled(r, first, all, a) && before + |data| == |all| && data == all[before..] && |a.tail| <= |data|
    ensures data[|all| - |a.tail| - before..] == a.tail
  {
    hide Fold, LineOk, ReadTitle, Lines;
    assert a.tail == all[|all| - |a.tail|..];
  }

  lemma AppendFiled(r: Response, init: seq<string>, a: Account, d: bool, data: string) returns (a': Account)
    requires (init == [] && r == FRESH && !d) || (Filed(r, init, a) && Balance(r, a, d))
    requires AppendData(r, data).Success?
    ensures Filed(AppendData(r, data).value, init + [data], a') && Emptied(AppendData(r, data).value)
    ensures Balance(AppendData(r, data).value, a', d || DoublesAt(r, data))
  {
    hide HeadPhases, BodyPhase, HeadFiled, Rounds, Behind, DataOfRounds, Doubles, Concat;
    var q := r.Extended(data);
    HeadKeepsFlags(q);
    if init != [] && r.headersParsed {
      TitleIsRead(r, init[0], Concat(init), a);
      HeadIsOver(q);
      a' := BodyGoesOn(r, init, a, d, data);
    } else {
      var fs := init + [data];
      ConcatSnoc(init, data);
      NoFragments();
      if init != [] {
        TitleIsRead(r, init[0], Concat(init), a);
        assert r.body + r.unparsed == r.unparsed;
      }
      assert "" + data == data;
      a' := HeadAdvances(r, fs[0], Concat(init), a, data);
      var h := HeadPhases(q).value;
      if h.headersParsed {
        a' := BodyBegins(h, fs, a', data);
      } else {
        NoRounds();
        NothingLonger(h, fs[0], Concat(fs), a');
        assert "" + h.unparsed == h.unparsed;
      }
    }
  }

  lemma NoFragments()
    ensures Concat([]) == ""
  {
  }

  /** An account of every run: whatever the bytes and the cuts, in every state that a parser reaches
      without an exception all the bytes received are filed, and the chunked body is exactly the
      data of the pieces taken, or longer if some fragment made a buffer that doubles. */
  lemma {:induction false} RunAccount(fs: seq<string>) returns (a: Account)
    requires fs != [] && Feed(FRESH, fs).Success?
    ensures Filed(Feed(FRESH, fs).value, fs, a) && Emptied(Feed(FRESH, fs).value)
    ensures Balance(Feed(FRESH, fs).value, a, DoublesIn(fs))
  {
    hide AppendData, DoublesAt, Filed, Balance;
    var init, last := fs[..|fs| - 1], fs[|fs| - 1];
    a := Account("", [], "", []);
    if init != [] {
      a := RunAccount(init);
    }
    assert fs == init + [last];
    a := AppendFiled(Feed(FRESH, init).value, init, a, DoublesIn(init), last);
  }

  // ---------------------------------------------------------------- only one account

  lemma HeadIsUnique(r: Response, first: string, all: string, a: Account, b: Account)
    requires HeadFiled(r, first, all, a) && HeadFiled(r, first, all, b)
    requires !r.headersParsed ==> CrlfFree(a.tail) && CrlfFree(b.tail)
    ensures a.title == b.title && a.lines == b.lines && a.tail == b.tail
  {
    hide Fold, LineOk, ReadTitle, Lines, FindCrlf, RawLines, CrlfFree;
    assert |first[|a.title|..]| == |first[|b.title|..]|;
    assert a.title == first[..|a.title|] && b.title == first[..|b.title|];
    var blank := if r.headersParsed then CRLF else "";
    var rest := all[|a.title|..];
    assert rest == Lines(a.lines) + (blank + a.tail) == Lines(b.lines) + (blank + b.tail);
    TailHasNoLine(r, a.tail);
    TailHasNoLine(r, b.tail);
    RawLinesOf(a.lines, blank + a.tail);
    RawLinesOf(b.lines, blank + b.tail);
    assert blank + a.tail == rest[|Lines(a.lines)|..] == blank + b.tail;
    assert a.tail == (blank + a.tail)[|blank|..] && b.tail == (blank + b.tail)[|blank|..];
  }

  lemma TailHasNoLine(r: Response, tail: string)
    requires !r.headersParsed ==> CrlfFree(tail)
    ensures FindCrlf((if r.headersParsed then CRLF else "") + tail) <= 0
  {
    if r.headersParsed {
      assert CrlfAt(CRLF + tail, 0);
    } else {
      assert "" + tail == tail;
    }
  }

  /** Nothing of what was received can be filed differently. */
  lemma AccountIsUniqueInRun(r: Response, fs: seq<string>, a: Account, b: Account)
    requires Filed(r, fs, a) && Filed(r, fs, b)
    ensures a == b
  {
    hide HeadFiled, Rounds, Behind, Concat, CrlfFree;
    NothingLonger(r, fs[0], Concat(fs), a);
    NothingLonger(r, fs[0], Concat(fs), b);
    if !r.headersParsed {
      assert r.body + r.unparsed == r.unparsed;
    }
    HeadIsUnique(r, fs[0], Concat(fs), a, b);
    if r.headersParsed && r.IsChunked() {
      var bs := Behind(fs, |Concat(fs)| - |a.tail|);
      RoundsAreUnique(bs, a.rounds, r.unparsed, r.bodyParsed, b.rounds, r.unparsed, r.bodyParsed);
    }
  }

  /** An account of all that was received and of the body. */
  ghost predicate InPlace(fs: seq<string>, a: Account) {
    var r := Feed(FRESH, fs);
    r.Success? && Filed(r.value, fs, a) && Conserved(r.value, a)
  }

  /** Byte conservation over whole runs, exactly: every byte received is in one place, start line,
      header lines, framing, body or buffer, if and only if no fragment made a buffer that doubles. */
  lemma BytesAreConserved(fs: seq<string>)
    requires fs != [] && Feed(FRESH, fs).Success?
    ensures (exists a :: InPlace(fs, a)) <==> !DoublesIn(fs)
  {
    hide Feed, Filed, DoublesIn;
    var r := Feed(FRESH, fs).value;
    var a := RunAccount(fs);
    if !DoublesIn(fs) {
      assert InPlace(fs, a);
    }
    if b :| InPlace(fs, b) {
      AccountIsUniqueInRun(r, fs, a, b);
    }
  }

  /** Repeated names, in every run past the title: of the header lines on the stream, the first of a
      name decides its value, at whatever points the stream was cut. */
  lemma FirstValueWins(fs: seq<string>, i: nat) returns (a: Account)
    requires fs != [] && Feed(FRESH, fs).Success?
    ensures var r := Feed(FRESH, fs).value;
            && Filed(r, fs, a)
            && (Decides(a.lines, i, KeepFirstTrimmed) ==>
                  && SplitLine(a.lines[i]).Success? && NameOf(a.lines[i]) in r.headers
                  && r.headers[NameOf(a.lines[i])] == LineValue(a.lines[i], KeepFirstTrimmed))
  {
    hide Feed, SplitLine, NameOf, LineValue, Fold, Decides, Rounds, ReadTitle;
    a := RunAccount(fs);
    if Decides(a.lines, i, KeepFirstTrimmed) {
      RepeatedNames(a.lines, KeepFirstTrimmed, Feed(FRESH, fs).value.headers, i);
    }
  }
}
