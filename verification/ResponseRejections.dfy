/** Exactly which bytes the response parser throws on, in whole and cut start lines, heads and chunks. */
module ResponseRejections {
  import opened Outcomes
  import opened Text
  import opened Numbers
  import opened Headers
  import opened RawHeads
  import opened ChunkedCoding
  import opened Responses
  import opened Conservation

  // ---------------------------------------------------------------- the start line

  /** The text that is read as the status code: what stands between the first two blanks, or as
      much of that as there is. */
  function CodeText(u: string): string {
    var u1 := BehindBlank(u);
    Prefix(u1, Find(u1, ' '))
  }

  predicate TitleBroken(u: string) {
    TitleMissing(u) || Stoi(CodeText(u)).Failure?
  }

  /** The start line is not read exactly when it is missing or has no code. */
  lemma TitleFails(u: string)
    ensures ReadTitle(u).Failure? <==> TitleBroken(u)
    ensures ReadTitle(u).Success? ==> ReadTitle(u).value.rest == BehindTitle(u)
  {
    hide Find, TitleMissing, FindCrlf, Stoi, Prefix;
    NothingBehindBlanks(u);
    BreakInside(BehindBlank(BehindBlank(u)));
  }

  /** The part of the code that the first `k` bytes of a start line show. */
  function SeenCode(m: Message, k: nat): string {
    var behind := |m.version| + 1;
    if k < behind then (m.version + [' '])[..k]
    else if k <= behind + |m.code| then m.code[..k - behind]
    else m.code
  }

  lemma SeenBeforeBlank(m: Message, k: nat)
    requires HeadOk(m) && k <= |m.version|
    ensures var u := StartLine(m)[..k];
            CodeText(u) == u == SeenCode(m, k) && BehindBlank(BehindBlank(u)) == u
  {
    hide Find, Stoi, Fold, LineOk, CrlfFree;
    var u := StartLine(m)[..k];
    assert u == m.version[..k];
    NoBlank(u);
  }

  lemma NoBlank(u: string)
    requires ' ' !in u
    ensures Find(u, ' ') == NPOS && BehindBlank(u) == u && Prefix(u, Find(u, ' ')) == u
  {
  }

  lemma SeenInCode(m: Message, k: nat)
    requires HeadOk(m) && |m.version| < k <= |m.version| + 1 + |m.code|
    ensures var u := StartLine(m)[..k];
            CodeText(u) == SeenCode(m, k) && BehindBlank(BehindBlank(u)) == SeenCode(m, k)
  {
    hide Find, Stoi, Fold, LineOk, CrlfFree;
    var u, seen := StartLine(m)[..k], m.code[..k - |m.version| - 1];
    assert u == m.version + [' '] + seen;
    FindEndsToken(m.version, ' ', seen);
    assert BehindBlank(u) == seen;
    NoBlank(seen);
  }

  lemma SeenBehindCode(m: Message, k: nat)
    requires HeadOk(m) && |m.version| + 1 + |m.code| < k < |StartLine(m)|
    ensures var u, n := StartLine(m)[..k], |m.version| + |m.code| + 2;
            && CodeText(u) == SeenCode(m, k) == m.code && BehindBlank(BehindBlank(u)) == (m.reason + "\r")[..k - n]
            && u == m.version + [' '] + (m.code + [' '] + (m.reason + "\r")[..k - n])
  {
    hide Find, Stoi, Fold, LineOk, CrlfFree;
    var u, rest := StartLine(m)[..k], (m.reason + "\r")[..k - |m.version| - |m.code| - 2];
    var u1 := m.code + [' '] + rest;
    assert StartLine(m)[|m.version| + |m.code| + 2..] == m.reason + CRLF;
    assert u == m.version + [' '] + u1;
    FindEndsToken(m.version, ' ', u1);
    assert BehindBlank(u) == u1;
    FindEndsToken(m.code, ' ', rest);
    assert u1[..|m.code|] == m.code && u1[|m.code| + 1..] == rest;
  }

  /** A cut start line throws exactly if the part of the code that was seen is not a number, or the
      cut is right behind the second blank. */
  lemma CutStartLine(m: Message, k: nat)
    requires HeadOk(m) && k < |StartLine(m)|
    ensures ReadTitle(StartLine(m)[..k]).Failure?
       <==> Stoi(SeenCode(m, k)).Failure? || k == |m.version| + |m.code| + 2
  {
    hide ReadTitle, Stoi, Fold, LineOk, CrlfFree, TitleMissing, SeenCode, CodeText, BehindBlank;
    var u := StartLine(m)[..k];
    TitleFails(u);
    NothingBehindBlanks(u);
    NoNumberInNothing();
    if k <= |m.version| {
      SeenBeforeBlank(m, k);
    } else if k <= |m.version| + 1 + |m.code| {
      SeenInCode(m, k);
    } else {
      SeenBehindCode(m, k);
    }
  }

  lemma NoNumberInNothing()
    ensures Stoi("").Failure?
  {
  }

  /** Where it does not throw it misleads: cut inside the reason or its line break, the response goes
      on without an exception, with what was seen of the reason for the reason, and the same bytes,
      less the first, for the beginning of a header line. */
  lemma CutReasonMisleads(m: Message, k: nat)
    requires HeadOk(m) && |m.version| + |m.code| + 2 < k < |StartLine(m)|
    ensures var seen := (m.reason + "\r")[..k - |m.version| - |m.code| - 2];
            AppendData(FRESH, StartLine(m)[..k]) == Success(
              Response(m.version, Stoi(m.code).value, seen, map[], "", seen[1..], true, false, false))
  {
    hide ReadTitle, Stoi, Fold, LineOk, CrlfFree, FindCrlf;
    var u, seen := StartLine(m)[..k], (m.reason + "\r")[..k - |m.version| - |m.code| - 2];
    SeenBehindCode(m, k);
    SeenHasNoBreak(m.reason, |seen|);
    CutTitleIsRead(m.version, m.code, seen);
    assert "" + u == u;
  }

  lemma SeenHasNoBreak(reason: string, n: nat)
    requires CrlfFree(reason) && 0 < n <= |reason| + 1
    ensures FindCrlf((reason + "\r")[..n]) == NPOS && FindCrlf((reason + "\r")[..n][1..]) == NPOS
  {
    var s := (reason + "\r")[..n];
    forall i | 0 <= i < |s| - 1 ensures !CrlfAt(s, i) {
      if i + 1 < |reason| {
        assert !CrlfAt(reason, i);
      }
    }
    forall i | 0 <= i < |s[1..]| - 1 ensures !CrlfAt(s[1..], i) {
      assert !CrlfAt(s, i + 1);
    }
  }

  lemma CutTitleIsRead(version: string, code: string, seen: string)
    requires ' ' !in version && ' ' !in code && Stoi(code).Success? && seen != "" && FindCrlf(seen) == NPOS
    ensures ReadTitle(version + [' '] + (code + [' '] + seen))
         == Success(Title(version, Stoi(code).value, seen, seen[1..]))
  {
    hide Find, FindCrlf, Stoi;
    var u1 := code + [' '] + seen;
    var u := version + [' '] + u1;
    FindEndsToken(version, ' ', u1);
    assert u[|version| + 1..] == u1 && u[..|version|] == version;
    FindEndsToken(code, ' ', seen);
    assert u1[|code| + 1..] == seen && u1[..|code|] == code;
  }

  // ---------------------------------------------------------------- whole runs

  /** The lines announce a chunked body. */
  ghost predicate SaysChunked(ls: seq<string>) {
    !Mentions(ls, CONTENT_LENGTH) && Says(ls, KeepFirstTrimmed, TRANSFER_ENCODING, CHUNKED)
  }

  /** What stands behind the header block. */
  function TailOf(s: string): string
    requires BlockOver(s)
  {
    s[|Lines(RawLines(s))| + |CRLF|..]
  }

  /** The chunks so far are in order, and the last fragment brings something that cannot be read. */
  ghost predicate BadStream(bs: seq<string>) {
    bs != [] &&
    var n := |bs| - 1;
    BadAfter(bs[..n], bs[n])
  }

  ghost predicate BadAfter(before: seq<string>, b: string) {
    exists rounds, left :: Rounds(before, rounds, left, false) && BadChunks(left + b)
  }

  /** The bytes that are not survived, in terms of the bytes alone. */
  ghost predicate Rejected(fs: seq<string>) {
    fs != [] &&
    (TitleBroken(fs[0]) ||
     BadHead(HeadBytes(fs), KeepFirstTrimmed) || BadBody(fs))
  }

  /** The header block is over and announces chunks, and they come to something unreadable. */
  ghost predicate BadBody(fs: seq<string>)
    requires fs != []
  {
    var s := HeadBytes(fs);
    && BlockOver(s) && SaysChunked(RawLines(s)) && |TailOf(s)| <= |Concat(fs)|
    && BadStream(Behind(fs, |Concat(fs)| - |TailOf(s)|))
  }

  lemma TailOfDone(s: string, p: Policy)
    requires HeaderPhase(s, map[], p).Success? && HeaderPhase(s, map[], p).value.done
    ensures BlockOver(s) && TailOf(s) == HeaderPhase(s, map[], p).value.unparsed
  {
    hide HeaderPhase, RawLines, Lines, Fold, LineOk;
    HeaderPhaseConserves(s, map[], p);
    var front, tail := Lines(RawLines(s)), HeaderPhase(s, map[], p).value.unparsed;
    assert s == front + CRLF + tail;
  }

  lemma ChunkedExactly(ls: seq<string>, r: Response)
    requires Fold(map[], ls, KeepFirstTrimmed) == Success(r.headers)
    ensures SaysChunked(ls) <==> r.IsChunked()
  {
    hide Fold, Says, Mentions;
    NamesOfFold(ls, KeepFirstTrimmed, r.headers, CONTENT_LENGTH);
    SaysExactly(ls, KeepFirstTrimmed, r.headers, TRANSFER_ENCODING, CHUNKED);
  }

  lemma BodyFails(h: Response)
    ensures BodyPhase(h).Failure? <==>
              || (CONTENT_LENGTH in h.headers && Stoi(h.headers[CONTENT_LENGTH]).Failure?)
              || (h.IsChunked() && BadChunks(h.unparsed))
  {
    hide Decode, Stoi, BadChunks;
    DecodeFails(h.unparsed, h.body);
  }

  /** The parser has of the head what the header phase makes of the bytes behind the start line. */
  ghost predicate HeadIs(h: Response, s: string) {
    var hp := HeaderPhase(s, map[], KeepFirstTrimmed);
    && hp.Success? && h.titleParsed && h.headers == hp.value.headers && h.headersParsed == hp.value.done
  }

  /** The buffer of a chunked response holds what the rounds before left, and the new fragment. */
  ghost predicate BufferIs(u: string, before: seq<string>, b: string) {
    exists rounds, left :: Rounds(before, rounds, left, false) && u == left + b
  }

  lemma BadBuffer(u: string, before: seq<string>, b: string)
    requires BufferIs(u, before, b)
    ensures BadChunks(u) <==> BadAfter(before, b)
  {
    hide Rounds, BadChunks;
    var rounds, left :| Rounds(before, rounds, left, false) && u == left + b;
    if rounds', left' :| Rounds(before, rounds', left', false) && BadChunks(left' + b) {
      RoundsAreUnique(before, rounds, left, false, rounds', left', false);
    }
  }

  /** Where the parser stands, after the head phases, when the last fragment has come. */
  ghost predicate Ready(h: Response, fs: seq<string>)
    requires fs != []
  {
    var s := HeadBytes(fs);
    && HeadIs(h, s) && !h.bodyParsed
    && (h.headersParsed ==>
          && BlockOver(s) && |TailOf(s)| <= |Concat(fs)|
          && var bs := Behind(fs, |Concat(fs)| - |TailOf(s)|);
             h.IsChunked() ==> BufferIs(h.unparsed, bs[..|fs| - 1], bs[|fs| - 1]))
  }

  /** The bytes behind the start line are the lines of the account, and its tail. */
  lemma HeadBytesFiled(r: Response, fs: seq<string>, a: Account)
    requires fs != [] && HeadFiled(r, fs[0], Concat(fs), a)
    ensures !TitleBroken(fs[0])
    ensures HeadBytes(fs) == Lines(a.lines) + ((if r.headersParsed then CRLF else "") + a.tail)
  {
    hide Fold, LineOk, ReadTitle, Lines, Concat, BehindTitle, TitleBroken;
    TitleFails(fs[0]);
    ConcatCons(fs);
    var blank := if r.headersParsed then CRLF else "";
    assert fs[0] + Concat(fs[1..]) == a.title + (Lines(a.lines) + (blank + a.tail));
    assert (fs[0] + Concat(fs[1..]))[|a.title|..] == fs[0][|a.title|..] + Concat(fs[1..]);
    assert (a.title + (Lines(a.lines) + (blank + a.tail)))[|a.title|..] == Lines(a.lines) + (blank + a.tail);
  }

  lemma LinesAreRead(r: Response, first: string, all: string, a: Account, rest: string)
    requires HeadFiled(r, first, all, a)
    ensures HeaderPhase(Lines(a.lines) + rest, map[], KeepFirstTrimmed)
         == HeaderPhase(rest, r.headers, KeepFirstTrimmed)
  {
    hide Fold, Lines, ReadTitle, HeaderPhase, LineOk;
    HeaderPhaseFolds(a.lines, rest, map[], KeepFirstTrimmed);
  }

  lemma RoundsSoFar(r: Response, init: seq<string>, a: Account)
    requires Filed(r, init, a) && r.headersParsed && r.IsChunked() && !r.bodyParsed
    ensures |a.tail| <= |Concat(init)|
    ensures Rounds(Behind(init, |Concat(init)| - |a.tail|), a.rounds, r.unparsed, false)
  {
    hide HeadFiled, Rounds, Behind, Concat;
    NothingLonger(r, init[0], Concat(init), a);
  }

  lemma NextHeadBytes(r: Response, init: seq<string>, a: Account, data: string)
    requires init != [] && HeadFiled(r, init[0], Concat(init), a)
    ensures HeadBytes(init + [data])
         == Lines(a.lines) + ((if r.headersParsed then CRLF else "") + (a.tail + data))
  {
    hide HeadFiled, Lines, Concat, HeadBytes;
    HeadBytesFiled(r, init, a);
    NextBytes(init, data);
    EndGrows(Lines(a.lines), if r.headersParsed then CRLF else "", a.tail, data);
  }

  lemma NextBytes(init: seq<string>, data: string)
    requires init != []
    ensures HeadBytes(init + [data]) == HeadBytes(init) + data
  {
    hide HeadBytes;
    HeadBytesSnoc(init + [data]);
    assert (init + [data])[..|init|] == init;
  }

  lemma EndGrows(front: string, blank: string, tail: string, data: string)
    ensures front + (blank + tail) + data == front + (blank + (tail + data))
  {
  }

  lemma BodyHeadIs(r: Response, init: seq<string>, a: Account, data: string)
    requires init != [] && HeadFiled(r, init[0], Concat(init), a) && r.headersParsed
    ensures var s := HeadBytes(init + [data]);
            HeadIs(r.Extended(data), s) && BlockOver(s) && TailOf(s) == a.tail + data
  {
    hide HeadFiled, Lines, Concat, HeadBytes, HeaderPhase, BlockOver, TailOf;
    NextHeadBytes(r, init, a, data);
    LinesAreRead(r, init[0], Concat(init), a, CRLF + (a.tail + data));
    EmptyLine(a.tail + data, r.headers, KeepFirstTrimmed);
    TailOfDone(HeadBytes(init + [data]), KeepFirstTrimmed);
    TitleIsRead(r, init[0], Concat(init), a);
  }

  lemma BodyBuffer(r: Response, init: seq<string>, a: Account, data: string)
    requires Filed(r, init, a) && r.headersParsed && r.IsChunked() && !r.bodyParsed && |a.tail| <= |Concat(init)|
    ensures var bs := Behind(init + [data], |Concat(init)| - |a.tail|);
            BufferIs(r.unparsed + data, bs[..|init|], bs[|init|])
  {
    hide Filed, Concat, Rounds, Behind;
    var n := |Concat(init)| - |a.tail|;
    RoundsSoFar(r, init, a);
    BehindSnoc(init, data, n);
    BufferGrows(Behind(init, n), a.rounds, r.unparsed, data);
    var bs := Behind(init + [data], n);
    assert bs[..|init|] == Behind(init, n) && bs[|init|] == data;
  }

  /** The head was over before: what comes now is body. */
  lemma BodyIsReady(r: Response, init: seq<string>, a: Account, data: string)
    requires Filed(r, init, a) && r.headersParsed && !r.bodyParsed
    ensures Ready(r.Extended(data), init + [data])
  {
    hide HeadFiled, TailFiled, Concat, HeadIs, BufferIs, Behind, HeadBytes, BlockOver, TailOf;
    BodyHeadIs(r, init, a, data);
    NothingLonger(r, init[0], Concat(init), a);
    ConcatSnoc(init, data);
    if r.IsChunked() {
      BodyBuffer(r, init, a, data);
    }
  }

  lemma BufferGrows(before: seq<string>, rounds: seq<seq<Piece>>, left: string, b: string)
    requires Rounds(before, rounds, left, false)
    ensures BufferIs(left + b, before, b)
  {
    hide Rounds;
  }

  lemma NewHeadIs(h: Response, fs: seq<string>, a: Account)
    requires fs != [] && HeadFiled(h, fs[0], Concat(fs), a) && (!h.headersParsed ==> CrlfFree(a.tail))
    ensures HeadIs(h, HeadBytes(fs))
    ensures h.headersParsed ==> BlockOver(HeadBytes(fs)) && TailOf(HeadBytes(fs)) == a.tail
  {
    hide HeadFiled, Lines, Concat, HeaderPhase, HeadBytes, BlockOver, TailOf, CrlfFree;
    HeadBytesFiled(h, fs, a);
    TitleIsRead(h, fs[0], Concat(fs), a);
    var blank := if h.headersParsed then CRLF else "";
    LinesAreRead(h, fs[0], Concat(fs), a, blank + a.tail);
    if h.headersParsed {
      EmptyLine(a.tail, h.headers, KeepFirstTrimmed);
      TailOfDone(HeadBytes(fs), KeepFirstTrimmed);
    } else {
      assert "" + a.tail == a.tail;
      NoBreakWaits(a.tail, h.headers);
    }
  }

  /** The head was not over before: if it is now, all the tail is new. */
  lemma NewHeadIsReady(h: Response, fs: seq<string>, a: Account)
    requires fs != [] && HeadFiled(h, fs[0], Concat(fs), a) && Untouched(h, a)
    requires h.headersParsed ==> |h.unparsed| <= |fs[|fs| - 1]|
    requires !h.headersParsed ==> CrlfFree(h.unparsed)
    ensures Ready(h, fs)
  {
    hide HeadFiled, Concat, HeadIs, BufferIs, Behind, HeadBytes, BlockOver, TailOf, CrlfFree;
    NewHeadIs(h, fs, a);
    NothingLonger(h, fs[0], Concat(fs), a);
    if h.headersParsed {
      AllTailIsNew(h, fs, a);
    }
  }

  lemma NoBreakWaits(u: string, h: HeaderMap)
    requires CrlfFree(u)
    ensures HeaderPhase(u, h, KeepFirstTrimmed) == Success(Head(u, h, false))
  {
    hide AddLine;
  }

  lemma AllTailIsNew(h: Response, fs: seq<string>, a: Account)
    requires fs != [] && HeadFiled(h, fs[0], Concat(fs), a) && Untouched(h, a) && |a.tail| <= |Concat(fs)|
    requires |h.unparsed| <= |fs[|fs| - 1]|
    ensures var bs := Behind(fs, |Concat(fs)| - |a.tail|);
            BufferIs(h.unparsed, bs[..|fs| - 1], bs[|fs| - 1])
  {
    hide HeadFiled, Concat, Rounds, Behind, BufferIs;
    var init, data := fs[..|fs| - 1], fs[|fs| - 1];
    LastFragment(fs);
    var n := |Concat(fs)| - |a.tail|;
    TailIsSuffix(h, fs[0], Concat(fs), a, data, |Concat(init)|);
    NothingBehind(init, n);
    var rounds := EmptyRounds(Behind(init, n));
    LastBehind(fs, n);
    BufferGrows(Behind(init, n), rounds, "", a.tail);
    assert "" + a.tail == h.unparsed;
  }

  lemma LastFragment(fs: seq<string>)
    requires fs != []
    ensures var before := |Concat(fs[..|fs| - 1])|;
            before + |fs[|fs| - 1]| == |Concat(fs)| && fs[|fs| - 1] == Concat(fs)[before..]
  {
  }

  lemma LastBehind(fs: seq<string>, n: nat)
    requires fs != [] && |Concat(fs[..|fs| - 1])| <= n <= |Concat(fs)|
    ensures Behind(fs, n)[..|fs| - 1] == Behind(fs[..|fs| - 1], n)
    ensures Behind(fs, n)[|fs| - 1] == fs[|fs| - 1][n - |Concat(fs[..|fs| - 1])|..]
  {
    LastFragment(fs);
    hide Concat;
  }

  /** What the last step comes to: either the head is not survived, or the parser is ready. */
  lemma HeadStep(fs: seq<string>)
    requires fs != [] && !TitleBroken(fs[0])
    requires Feed(FRESH, fs[..|fs| - 1]).Success? && !Feed(FRESH, fs[..|fs| - 1]).value.Complete()
    ensures var init := fs[..|fs| - 1];
            var h := HeadPhases(Feed(FRESH, init).value.Extended(fs[|fs| - 1]));
            && (h.Failure? <==> HeaderPhase(HeadBytes(fs), map[], KeepFirstTrimmed).Failure?)
            && (h.Success? ==> Ready(h.value, fs))
  {
    hide Ready, HeaderPhase, TitleBroken, HeadFiled, Concat, HeadBytes, CrlfFree, ReadTitle, AppendData;
    var init, data := fs[..|fs| - 1], fs[|fs| - 1];
    var r := Feed(FRESH, init).value;
    var q := r.Extended(data);
    assert fs == init + [data];
    NoFragments();
    if init == [] {
      FirstHeadFails(fs, data);
      if HeadPhases(q).Success? {
        var a := HeadAdvances(r, data, "", Account("", [], "", []), data);
        ConcatSnoc([], data);
        NewHeadIsReady(HeadPhases(q).value, fs, a);
      }
    } else {
      var a := RunAccount(init);
      TitleIsRead(r, init[0], Concat(init), a);
      if r.headersParsed {
        HeadIsOver(q);
        BodyIsReady(r, init, a, data);
        ReadyIsRead(q, fs);
      } else {
        assert r.body + r.unparsed == r.unparsed;
        NextHeadFails(r, init, a, data);
        if HeadPhases(q).Success? {
          ConcatSnoc(init, data);
          a := HeadAdvances(r, init[0], Concat(init), a, data);
          NewHeadIsReady(HeadPhases(q).value, fs, a);
        }
      }
    }
  }

  lemma ReadyIsRead(h: Response, fs: seq<string>)
    requires fs != [] && Ready(h, fs)
    ensures HeaderPhase(HeadBytes(fs), map[], KeepFirstTrimmed).Success?
  {
    hide HeaderPhase, HeadBytes, BufferIs, Behind, TailOf, BlockOver;
  }

  lemma FirstHeadFails(fs: seq<string>, data: string)
    requires fs == [data] && !TitleBroken(data)
    ensures HeadPhases(FRESH.Extended(data)).Failure?
       <==> HeaderPhase(HeadBytes(fs), map[], KeepFirstTrimmed).Failure?
  {
    hide ReadTitle, HeaderPhase, TitleBroken, BehindTitle;
    TitleFails(data);
    HeadBytesOne(fs);
    assert "" + data == data;
  }

  lemma NextHeadFails(r: Response, init: seq<string>, a: Account, data: string)
    requires init != [] && HeadFiled(r, init[0], Concat(init), a) && !r.headersParsed && a.tail == r.unparsed
    ensures HeadPhases(r.Extended(data)).Failure?
       <==> HeaderPhase(HeadBytes(init + [data]), map[], KeepFirstTrimmed).Failure?
  {
    hide ReadTitle, HeaderPhase, Lines, HeadFiled, HeadBytes, Concat;
    NextHeadBytes(r, init, a, data);
    assert "" + (a.tail + data) == r.unparsed + data;
    LinesAreRead(r, init[0], Concat(init), a, r.unparsed + data);
    TitleIsRead(r, init[0], Concat(init), a);
  }

  lemma MissingTitleThrows(fs: seq<string>)
    requires fs != [] && TitleBroken(fs[0])
    ensures Feed(FRESH, fs).Failure?
  {
    hide TitleBroken, ReadTitle, HeaderPhase, Feed;
    TitleFails(fs[0]);
    assert "" + fs[0] == fs[0];
    assert AppendData(FRESH, fs[0]).Failure?;
    FirstFeed(fs);
    FeedFailsForGood(FRESH, fs, 1);
  }

  lemma FirstFeed(fs: seq<string>)
    requires fs != []
    ensures Feed(FRESH, fs[..1]) == AppendData(FRESH, fs[0])
  {
    hide AppendData;
    assert fs[..1][..0] == [];
  }

  /** An incomplete response parser throws on one more fragment, in any run, exactly when the bytes
      it has been given are now rejected: the first fragment has no start line or no code in it, a
      header field has an empty value, the header block is over and its first Content-Length is not
      a number that fits, or the body is chunked and the new fragment brings the decoder to a size
      line that is no number or to an end line that is not all there. */
  lemma ThrowsExactly(fs: seq<string>)
    requires fs != []
    requires Feed(FRESH, fs[..|fs| - 1]).Success? && !Feed(FRESH, fs[..|fs| - 1]).value.Complete()
    ensures Feed(FRESH, fs).Failure? <==> Rejected(fs)
  {
    hide TitleBroken, HeadBytes, HeadPhases, BodyPhase, BadHead, BadBody, Ready, AppendData, HeaderPhase, Stoi;
    if TitleBroken(fs[0]) {
      MissingTitleThrows(fs);
    } else {
      HeadStep(fs);
      var r, data := Feed(FRESH, fs[..|fs| - 1]).value, fs[|fs| - 1];
      var h := HeadPhases(r.Extended(data));
      BadHeadExactly(HeadBytes(fs), KeepFirstTrimmed);
      FailsInPhases(r, data);
      if h.Success? {
        BodyFails(h.value);
        ReadyFails(h.value, fs);
      }
    }
  }

  lemma FailsInPhases(r: Response, data: string)
    ensures var h := HeadPhases(r.Extended(data));
            AppendData(r, data).Failure? <==>
              h.Failure? || (h.value.headersParsed && (h.value.bodyParsed || BodyPhase(h.value).Failure?))
  {
    hide HeadPhases, BodyPhase;
  }

  lemma ReadyFails(h: Response, fs: seq<string>)
    requires fs != [] && Ready(h, fs)
    ensures !h.bodyParsed
    ensures var s := HeadBytes(fs);
            && HeadIs(h, s) && (h.headersParsed <==> BlockOver(s))
            && (h.headersParsed && h.IsChunked() && BadChunks(h.unparsed) <==> BadBody(fs))
  {
    hide HeaderPhase, HeadBytes, BufferIs, Behind, TailOf, BlockOver, RawLines, SaysChunked, BadChunks, BadAfter, Fold,
      Lines, LineOk, Concat;
    var s := HeadBytes(fs);
    DoneIsOver(s, map[], KeepFirstTrimmed);
    HeaderPhaseConserves(s, map[], KeepFirstTrimmed);
    ChunkedExactly(RawLines(s), h);
    if h.headersParsed && h.IsChunked() {
      var bs := Behind(fs, |Concat(fs)| - |TailOf(s)|);
      BadBuffer(h.unparsed, bs[..|fs| - 1], bs[|fs| - 1]);
    }
  }
}
