/** The header block, which requests and responses parse and print alike, up to two choices: a
    response keeps the first value of a repeated name and trims values (std::map::insert), a
    request keeps the last value and leaves it as it is (operator[]). */
module Headers {
  import opened Outcomes
  import opened Text

  type HeaderMap = map<string, string>

  datatype Policy = KeepFirstTrimmed | KeepLastRaw

  const SEPARATOR: string := ": "
  const HTTP_VERSION: string := "1.1"
  const CONTENT_LENGTH: string := "Content-Length"

  /** Name and raw value of a line.  Without a colon the whole line is the name, and the value is
      the line less its first character. */
  function SplitLine(line: string): Result<(string, string)> {
    var i := Find(line, ':');
    var raw :- Substr(line, i + 2);
    Success((Prefix(line, i), raw))
  }

  function ValueOf(raw: string, p: Policy): string {
    if p.KeepFirstTrimmed? then Trim(raw) else raw
  }

  function Insert(h: HeaderMap, name: string, value: string, p: Policy): HeaderMap {
    if p.KeepFirstTrimmed? && name in h then h else h[name := value]
  }

  function AddLine(h: HeaderMap, line: string, p: Policy): Result<HeaderMap> {
    var (name, raw) :- SplitLine(line);
    Success(Insert(h, name, ValueOf(raw, p), p))
  }

  /** A line with a colon names what stands before it; one byte behind it is skipped unseen.  A
      response keeps the first value and trims it, a request takes the new one as it is. */
  lemma FieldLine(h: HeaderMap, name: string, skipped: char, value: string)
    requires ':' !in name
    ensures AddLine(h, name + ":" + [skipped] + value, KeepFirstTrimmed)
         == Success(if name in h then h else h[name := Trim(value)])
    ensures AddLine(h, name + ":" + [skipped] + value, KeepLastRaw) == Success(h[name := value])
  {
    hide Find, Trim;
    var line := name + ":" + [skipped] + value;
    assert line == name + [':'] + ([skipped] + value);
    FindEndsToken(name, ':', [skipped] + value);
    assert line[..|name|] == name && line[|name| + 2..] == value;
  }

  /** A line without a colon is its own name, and its value but for the first byte. */
  lemma ColonlessLine(h: HeaderMap, line: string)
    requires line != "" && ':' !in line
    ensures AddLine(h, line, KeepFirstTrimmed) == Success(if line in h then h else h[line := Trim(line[1..])])
    ensures AddLine(h, line, KeepLastRaw) == Success(h[line := line[1..]])
  {
    hide Trim;
  }

  // ---------------------------------------------------------------- the header phase of a parser

  datatype Head = Head(unparsed: string, headers: HeaderMap, done: bool)

  /** Take whole lines until the empty one, or until the buffer holds no whole line. */
  function HeaderPhase(u: string, h: HeaderMap, p: Policy): (r: Result<Head>)
    ensures r.Failure? ==> r.error != NeverReturns
    decreases |u|
  {
    var next := FindCrlf(u);
    if next == 0 then Success(Head(u[2..], h, true))
    else if next == NPOS then Success(Head(u, h, false))
    else
      var h' :- AddLine(h, u[..next], p);
      HeaderPhase(u[next + 2..], h', p)
  }

  /** The phase does not care where the stream is cut, not even between CR and LF: this holds for
      all bytes, whether or not they make sense. */
  lemma {:induction false} HeaderPhaseResumes(u: string, v: string, h: HeaderMap, p: Policy)
    ensures HeaderPhase(u + v, h, p) ==
            var r := HeaderPhase(u, h, p);
            if r.Failure? then r
            else if r.value.done then Success(r.value.(unparsed := r.value.unparsed + v))
            else HeaderPhase(r.value.unparsed + v, r.value.headers, p)
    decreases |u|
  {
    hide AddLine, FindCrlf;
    var next := FindCrlf(u);
    if next != NPOS {
      FindCrlfExtends(u, v);
      assert (u + v)[next + 2..] == u[next + 2..] + v;
      if next > 0 {
        assert (u + v)[..next] == u[..next];
        var r := AddLine(h, u[..next], p);
        if r.Success? {
          HeaderPhaseResumes(u[next + 2..], v, r.value, p);
        }
      }
    }
  }

  // ---------------------------------------------------------------- header lines as a list

  predicate LineOk(line: string) {
    line != "" && CrlfFree(line)
  }

  function Lines(ls: seq<string>): string {
    if ls == [] then "" else Lines(ls[..|ls| - 1]) + (ls[|ls| - 1] + CRLF)
  }

  function Fold(h: HeaderMap, ls: seq<string>, p: Policy): Result<HeaderMap> {
    if ls == [] then Success(h)
    else
      var h' :- Fold(h, ls[..|ls| - 1], p);
      AddLine(h', ls[|ls| - 1], p)
  }

  lemma OneLine(line: string, rest: string, h: HeaderMap, p: Policy)
    requires LineOk(line)
    ensures HeaderPhase(line + CRLF + rest, h, p) ==
            var r := AddLine(h, line, p);
            if r.Failure? then Failure(r.error) else HeaderPhase(rest, r.value, p)
  {
    hide AddLine, FindCrlf;
    var u := line + CRLF + rest;
    FindCrlfEndsLine(line, rest);
    assert u[..|line|] == line && u[|line| + 2..] == rest;
  }

  lemma EmptyLine(rest: string, h: HeaderMap, p: Policy)
    ensures HeaderPhase(CRLF + rest, h, p) == Success(Head(rest, h, true))
  {
    hide FindCrlf;
    assert "" + CRLF + rest == CRLF + rest;
    FindCrlfEndsLine("", rest);
    assert (CRLF + rest)[2..] == rest;
  }

  /** The phase folds the lines it meets into the header map, in order. */
  lemma {:induction false} HeaderPhaseFolds(ls: seq<string>, rest: string, h: HeaderMap, p: Policy)
    requires forall l | l in ls :: LineOk(l)
    ensures HeaderPhase(Lines(ls) + rest, h, p) ==
            var r := Fold(h, ls, p);
            if r.Failure? then Failure(r.error) else HeaderPhase(rest, r.value, p)
  {
    hide HeaderPhase, AddLine;
    if ls == [] {
      assert Lines(ls) + rest == rest;
    } else {
      var init, last := ls[..|ls| - 1], ls[|ls| - 1];
      assert Lines(ls) + rest == Lines(init) + (last + CRLF + rest);
      HeaderPhaseFolds(init, last + CRLF + rest, h, p);
      var r := Fold(h, init, p);
      if r.Success? {
        OneLine(last, rest, r.value, p);
      }
    }
  }

  /** A whole header block, however the fold comes out. */
  lemma HeaderBlock(ls: seq<string>, rest: string, h: HeaderMap, p: Policy)
    requires forall l | l in ls :: LineOk(l)
    ensures HeaderPhase(Lines(ls) + (CRLF + rest), h, p) ==
            var r := Fold(h, ls, p);
            if r.Failure? then Failure(r.error) else Success(Head(rest, r.value, true))
  {
    hide HeaderPhase, AddLine;
    HeaderPhaseFolds(ls, CRLF + rest, h, p);
    if Fold(h, ls, p).Success? {
      EmptyLine(rest, Fold(h, ls, p).value, p);
    }
  }

  /** The lines that the phase takes off the front of a buffer. */
  function RawLines(u: string): (ls: seq<string>)
    decreases |u|
  {
    var next := FindCrlf(u);
    if next == 0 || next == NPOS then [] else [u[..next]] + RawLines(u[next + 2..])
  }

  lemma {:induction false} LinesCons(line: string, ls: seq<string>)
    ensures Lines([line] + ls) == line + CRLF + Lines(ls)
  {
    var all := [line] + ls;
    if ls == [] {
      assert all[..0] == [];
    } else {
      assert all[..|all| - 1] == [line] + ls[..|ls| - 1];
      LinesCons(line, ls[..|ls| - 1]);
    }
  }

  lemma {:induction false} FoldCons(h: HeaderMap, line: string, ls: seq<string>, p: Policy)
    ensures Fold(h, [line] + ls, p) ==
            var r := AddLine(h, line, p);
            if r.Failure? then Failure(r.error) else Fold(r.value, ls, p)
  {
    hide AddLine;
    var all := [line] + ls;
    if ls == [] {
      assert all[..0] == [];
    } else {
      assert all[..|all| - 1] == [line] + ls[..|ls| - 1];
      FoldCons(h, line, ls[..|ls| - 1], p);
    }
  }

  lemma {:induction false} LinesAppend(a: seq<string>, b: seq<string>)
    ensures Lines(a + b) == Lines(a) + Lines(b)
  {
    if b == [] {
      assert a + b == a;
    } else {
      var init, last := b[..|b| - 1], b[|b| - 1];
      LinesAppend(a, init);
      assert (a + b)[..|a + b| - 1] == a + init;
      assert Lines(a) + Lines(init) + (last + CRLF) == Lines(a) + (Lines(init) + (last + CRLF));
    }
  }

  lemma {:induction false} FoldAppend(h: HeaderMap, a: seq<string>, b: seq<string>, p: Policy)
    requires Fold(h, a, p).Success?
    ensures Fold(h, a + b, p) == Fold(Fold(h, a, p).value, b, p)
  {
    hide AddLine;
    if b == [] {
      assert a + b == a;
    } else {
      FoldAppend(h, a, b[..|b| - 1], p);
      assert (a + b)[..|a + b| - 1] == a + b[..|b| - 1];
    }
  }

  lemma HeaderTurn(u: string, h: HeaderMap, p: Policy) returns (line: string, rest: string, h': HeaderMap)
    requires FindCrlf(u) > 0 && HeaderPhase(u, h, p).Success?
    ensures u == line + CRLF + rest && LineOk(line)
    ensures AddLine(h, line, p) == Success(h')
    ensures HeaderPhase(u, h, p) == HeaderPhase(rest, h', p)
    ensures RawLines(u) == [line] + RawLines(rest)
  {
    hide AddLine, FindCrlf;
    var next := FindCrlf(u);
    LineBeforeBreak(u);
    line, rest := u[..next], u[next + 2..];
    h' := AddLine(h, line, p).value;
  }

  lemma HeaderStops(u: string, h: HeaderMap, p: Policy)
    requires FindCrlf(u) <= 0
    ensures HeaderPhase(u, h, p).Success?
    ensures var head := HeaderPhase(u, h, p).value;
            && u == Lines(RawLines(u)) + ((if head.done then CRLF else "") + head.unparsed)
            && Fold(h, RawLines(u), p) == Success(head.headers) && RawLines(u) == []
  {
    hide AddLine;
    assert FindCrlf(u) == 0 ==> u == CRLF + u[2..];
  }

  /** Nothing is lost or invented: what was taken is exactly the raw lines (and the empty line if
      the block is over), and the map is their fold. */
  lemma {:induction false} HeaderPhaseConserves(u: string, h: HeaderMap, p: Policy)
    requires HeaderPhase(u, h, p).Success?
    ensures var head := HeaderPhase(u, h, p).value;
            && u == Lines(RawLines(u)) + ((if head.done then CRLF else "") + head.unparsed)
            && Fold(h, RawLines(u), p) == Success(head.headers)
            && (forall l | l in RawLines(u) :: LineOk(l))
    decreases |u|
  {
    hide AddLine, FindCrlf, LineOk, HeaderPhase, RawLines, Lines, Fold;
    if FindCrlf(u) <= 0 {
      HeaderStops(u, h, p);
    } else {
      var line, rest, h' := HeaderTurn(u, h, p);
      HeaderPhaseConserves(rest, h', p);
      LinesCons(line, RawLines(rest));
      FoldCons(h, line, RawLines(rest), p);
      var head := HeaderPhase(u, h, p).value;
      var tail := (if head.done then CRLF else "") + head.unparsed;
      assert line + CRLF + (Lines(RawLines(rest)) + tail) == line + CRLF + Lines(RawLines(rest)) + tail;
    }
  }

  /** The raw lines of a buffer that starts with lines are those lines. */
  lemma {:induction false} RawLinesOf(ls: seq<string>, rest: string)
    requires (forall l | l in ls :: LineOk(l)) && FindCrlf(rest) <= 0
    ensures RawLines(Lines(ls) + rest) == ls
  {
    hide FindCrlf, LineOk, Lines;
    if ls == [] {
      NoLines();
      assert "" + rest == rest;
    } else {
      var line, more := ls[0], ls[1..];
      assert ls == [line] + more && LineOk(line);
      LinesCons(line, more);
      RawLinesOf(more, rest);
      assert Lines(ls) + rest == line + CRLF + (Lines(more) + rest);
      RawLinesCons(line, Lines(more) + rest);
    }
  }

  lemma NoLines()
    ensures Lines([]) == ""
  {
  }

  lemma RawLinesCons(line: string, rest: string)
    requires LineOk(line)
    ensures RawLines(line + CRLF + rest) == [line] + RawLines(rest)
  {
    hide FindCrlf;
    FindCrlfEndsLine(line, rest);
    var u := line + CRLF + rest;
    assert u[..|line|] == line && u[|line| + 2..] == rest;
  }

  /** What is left when the phase waits holds no line break. */
  lemma {:induction false} UndoneHasNoBreak(u: string, h: HeaderMap, p: Policy)
    requires HeaderPhase(u, h, p).Success? && !HeaderPhase(u, h, p).value.done
    ensures CrlfFree(HeaderPhase(u, h, p).value.unparsed)
    decreases |u|
  {
    hide FindCrlf, AddLine;
    var next := FindCrlf(u);
    if next != NPOS {
      UndoneHasNoBreak(u[next + 2..], AddLine(h, u[..next], p).value, p);
    }
  }

  lemma {:induction false} HeaderPhaseShrinks(u: string, h: HeaderMap, p: Policy)
    requires HeaderPhase(u, h, p).Success?
    ensures |HeaderPhase(u, h, p).value.unparsed| <= |u|
    decreases |u|
  {
    hide FindCrlf, AddLine;
    var next := FindCrlf(u);
    if next > 0 {
      HeaderPhaseShrinks(u[next + 2..], AddLine(h, u[..next], p).value, p);
    }
  }

  /** If there was no line break before, the block can only end among the bytes that are new. */
  lemma EndsAmongNew(u: string, v: string, h: HeaderMap, p: Policy)
    requires CrlfFree(u) && HeaderPhase(u + v, h, p).Success? && HeaderPhase(u + v, h, p).value.done
    ensures |HeaderPhase(u + v, h, p).value.unparsed| <= |v|
  {
    var w := u + v;
    var next := FindCrlf(w);
    BreakIsLate(u, v);
    hide FindCrlf, AddLine;
    if next > 0 {
      HeaderPhaseShrinks(w[next + 2..], AddLine(h, w[..next], p).value, p);
    }
  }

  lemma BreakIsLate(u: string, v: string)
    requires CrlfFree(u)
    ensures FindCrlf(u + v) != NPOS ==> FindCrlf(u + v) + 2 >= |u|
  {
    hide FindCrlf;
    forall i | 0 <= i < |u| - 1 ensures !CrlfAt(u + v, i) {
      assert !CrlfAt(u, i);
    }
  }

  lemma LineBeforeBreak(u: string)
    requires FindCrlf(u) > 0
    ensures LineOk(u[..FindCrlf(u)])
  {
    hide FindCrlf;
    var next := FindCrlf(u);
    forall i | 0 <= i < next ensures !CrlfAt(u[..next], i) {
      assert !CrlfAt(u, i);
    }
  }

  // ---------------------------------------------------------------- repeated names

  function NameOf(line: string): string {
    Prefix(line, Find(line, ':'))
  }

  /** The value a line gives its name, if the line has one. */
  function LineValue(line: string, p: Policy): string
    requires SplitLine(line).Success?
  {
    ValueOf(SplitLine(line).value.1, p)
  }

  lemma {:induction false} FoldSplits(h: HeaderMap, ls: seq<string>, p: Policy)
    requires Fold(h, ls, p).Success?
    ensures forall l | l in ls :: SplitLine(l).Success?
  {
    hide AddLine, SplitLine;
    if ls != [] {
      var init, last := ls[..|ls| - 1], ls[|ls| - 1];
      FoldSplits(h, init, p);
      AddLineSplits(Fold(h, init, p).value, last, p);
      assert ls == init + [last];
    }
  }

  lemma AddLineSplits(h: HeaderMap, line: string, p: Policy)
    requires AddLine(h, line, p).Success?
    ensures SplitLine(line).Success?
  {
    hide SplitLine;
  }

  /** Index of the line that decides the value of a name: the first of that name, or the last. */
  ghost predicate Decides(ls: seq<string>, i: nat, p: Policy) {
    i < |ls| &&
    if p.KeepFirstTrimmed? then forall j | 0 <= j < i :: NameOf(ls[j]) != NameOf(ls[i])
    else forall j | i < j < |ls| :: NameOf(ls[j]) != NameOf(ls[i])
  }

  ghost predicate Mentions(ls: seq<string>, name: string) {
    exists i :: 0 <= i < |ls| && NameOf(ls[i]) == name
  }

  lemma MentionsSnoc(ls: seq<string>, name: string)
    requires ls != []
    ensures Mentions(ls, name) <==> Mentions(ls[..|ls| - 1], name) || NameOf(ls[|ls| - 1]) == name
  {
    hide NameOf;
    var init := ls[..|ls| - 1];
    if i :| 0 <= i < |ls| && NameOf(ls[i]) == name {
      assert i < |init| ==> NameOf(init[i]) == name;
    }
    if i :| 0 <= i < |init| && NameOf(init[i]) == name {
      assert NameOf(ls[i]) == name;
    }
  }

  /** A name is in the map exactly when a line has it. */
  lemma {:induction false} NamesOfFold(ls: seq<string>, p: Policy, h: HeaderMap, name: string)
    requires Fold(map[], ls, p) == Success(h)
    ensures name in h <==> Mentions(ls, name)
  {
    FoldSplits(map[], ls, p);
    if ls != [] {
      hide AddLine, NameOf, LineValue, Mentions;
      var h0 := Fold(map[], ls[..|ls| - 1], p).value;
      NamesOfFold(ls[..|ls| - 1], p, h0, name);
      LineParts(h0, ls[|ls| - 1], p);
      MentionsSnoc(ls, name);
    }
  }

  /** The deciding line gives a repeated name its value: responses keep the first one, requests
      the last, whatever comes in between. */
  lemma {:induction false} RepeatedNames(ls: seq<string>, p: Policy, h: HeaderMap, i: nat)
    requires Fold(map[], ls, p) == Success(h) && Decides(ls, i, p)
    ensures SplitLine(ls[i]).Success?
    ensures NameOf(ls[i]) in h && h[NameOf(ls[i])] == LineValue(ls[i], p)
  {
    hide AddLine, SplitLine, NameOf, LineValue, Mentions;
    FoldSplits(map[], ls, p);
    var init, last := ls[..|ls| - 1], ls[|ls| - 1];
    var h0 := Fold(map[], init, p).value;
    LineParts(h0, last, p);
    if i < |init| {
      assert init[i] == ls[i] && Decides(init, i, p);
      RepeatedNames(init, p, h0, i);
    } else {
      NamesOfFold(init, p, h0, NameOf(last));
      if p.KeepFirstTrimmed? {
        NotMentioned(ls);
      }
    }
  }

  lemma NotMentioned(ls: seq<string>)
    requires ls != [] && forall j | 0 <= j < |ls| - 1 :: NameOf(ls[j]) != NameOf(ls[|ls| - 1])
    ensures !Mentions(ls[..|ls| - 1], NameOf(ls[|ls| - 1]))
  {
  }

  lemma LineParts(h: HeaderMap, line: string, p: Policy)
    requires SplitLine(line).Success?
    ensures AddLine(h, line, p) == Success(Insert(h, NameOf(line), LineValue(line, p), p))
  {
  }

  // ---------------------------------------------------------------- printing and reading back

  /** What every parsed header map satisfies. */
  predicate Canonical(h: HeaderMap, p: Policy) {
    forall n | n in h ::
      && ':' !in n && CrlfFree(n) && CrlfFree(h[n])
      && (p.KeepFirstTrimmed? ==> Trimmed(h[n]))
  }

  lemma SplitLinePieces(line: string)
    requires SplitLine(line).Success?
    ensures var (name, raw) := SplitLine(line).value;
            && ':' !in name && name <= line
            && |raw| <= |line| && raw == line[|line| - |raw|..]
  {
    hide Find;
  }

  lemma AddLineCanonical(h: HeaderMap, line: string, p: Policy)
    requires Canonical(h, p) && CrlfFree(line) && AddLine(h, line, p).Success?
    ensures Canonical(AddLine(h, line, p).value, p)
  {
    hide SplitLine, Trim, CrlfFree, Trimmed;
    var (name, raw) := SplitLine(line).value;
    SplitLinePieces(line);
    PieceIsCrlfFree(line, 0, |name|);
    assert line[0..|name|] == name;
    PieceIsCrlfFree(line, |line| - |raw|, |line|);
    assert line[|line| - |raw|..|line|] == raw;
    var a, b := TrimIsTrimmedPiece(raw);
    PieceIsCrlfFree(raw, a, b);
  }

  lemma {:induction false} FoldCanonical(h: HeaderMap, ls: seq<string>, p: Policy)
    requires Canonical(h, p) && (forall l | l in ls :: LineOk(l)) && Fold(h, ls, p).Success?
    ensures Canonical(Fold(h, ls, p).value, p)
  {
    hide Canonical, AddLine;
    if ls != [] {
      FoldCanonical(h, ls[..|ls| - 1], p);
      assert LineOk(ls[|ls| - 1]);
      AddLineCanonical(Fold(h, ls[..|ls| - 1], p).value, ls[|ls| - 1], p);
    }
  }

  /** `order` lists the keys of `h`, each once.  (std::map lists them in byte order; nothing below
      depends on which order it is.) */
  predicate Enumerates(order: seq<string>, h: HeaderMap) {
    && (forall n | n in order :: n in h)
    && (forall n | n in h :: n in order)
    && (forall i, j | 0 <= i < j < |order| :: order[i] != order[j])
  }

  function PrintLine(name: string, value: string): string {
    name + (SEPARATOR + value)
  }

  /** The header lines that the printing loop writes. */
  function Printed(h: HeaderMap, order: seq<string>): (ls: seq<string>)
    requires forall n | n in order :: n in h
    ensures |ls| == |order|
  {
    if order == [] then []
    else
      var name := order[|order| - 1];
      Printed(h, order[..|order| - 1]) + [PrintLine(name, h[name])]
  }

  lemma PrintedLineOk(name: string, value: string)
    requires CrlfFree(name) && CrlfFree(value)
    ensures LineOk(PrintLine(name, value))
  {
    var s := PrintLine(name, value);
    forall i | 0 <= i < |s| ensures !CrlfAt(s, i) {
      if i < |name| {
        assert !CrlfAt(name, i);
      } else if i >= |name| + 2 {
        assert !CrlfAt(value, i - |name| - 2);
      }
    }
  }

  lemma PrintedLineReadsBack(h: HeaderMap, name: string, value: string, p: Policy)
    requires ':' !in name && (p.KeepFirstTrimmed? ==> Trimmed(value))
    ensures AddLine(h, PrintLine(name, value), p) == Success(Insert(h, name, value, p))
  {
    hide Find, Trim;
    var line := PrintLine(name, value);
    assert line == name + [':'] + ([' '] + value);
    FindEndsToken(name, ':', [' '] + value);
    assert line[..|name|] == name && line[|name| + 2..] == value;
    if p.KeepFirstTrimmed? {
      TrimFixed(value);
    }
  }

  function Restrict(h: HeaderMap, order: seq<string>): HeaderMap {
    map n | n in h && n in order :: h[n]
  }

  lemma {:induction false} PrintedFolds(h: HeaderMap, order: seq<string>, p: Policy)
    requires Canonical(h, p) && (forall n | n in order :: n in h)
    requires forall i, j | 0 <= i < j < |order| :: order[i] != order[j]
    ensures Fold(map[], Printed(h, order), p) == Success(Restrict(h, order))
    ensures forall l | l in Printed(h, order) :: LineOk(l)
  {
    hide AddLine, LineOk, PrintLine;
    if order == [] {
      assert Restrict(h, order) == map[];
    } else {
      var init, name := order[..|order| - 1], order[|order| - 1];
      PrintedFolds(h, init, p);
      PrintedLineReadsBack(Restrict(h, init), name, h[name], p);
      PrintedLineOk(name, h[name]);
      var ls := Printed(h, order);
      assert ls[..|ls| - 1] == Printed(h, init);
      RestrictSnoc(h, order, p);
    }
  }

  lemma RestrictSnoc(h: HeaderMap, order: seq<string>, p: Policy)
    requires order != [] && (forall n | n in order :: n in h)
    requires forall i, j | 0 <= i < j < |order| :: order[i] != order[j]
    ensures var name := order[|order| - 1];
            Insert(Restrict(h, order[..|order| - 1]), name, h[name], p) == Restrict(h, order)
  {
    var name := order[|order| - 1];
    assert name !in Restrict(h, order[..|order| - 1]);
    assert Insert(Restrict(h, order[..|order| - 1]), name, h[name], p) == Restrict(h, order);
  }

  /** Printing a parsed header map in any order and folding the lines gives the same map. */
  lemma PrintedReadsBack(h: HeaderMap, order: seq<string>, p: Policy)
    requires Canonical(h, p) && Enumerates(order, h)
    ensures Fold(map[], Printed(h, order), p) == Success(h)
    ensures forall l | l in Printed(h, order) :: LineOk(l)
  {
    hide Canonical, LineOk, Fold;
    PrintedFolds(h, order, p);
    assert Restrict(h, order) == h;
  }

  /** The lines printed, byte for byte; and they are the lines that stand in front of the print. */
  lemma {:induction false} PrintedLines(h: HeaderMap, order: seq<string>)
    requires forall n | n in order :: n in h
    ensures forall i | 0 <= i < |order| :: Printed(h, order)[i] == order[i] + ": " + h[order[i]]
  {
    if order != [] {
      var n := |order| - 1;
      PrintedLines(h, order[..n]);
      assert order[n] + (": " + h[order[n]]) == order[n] + ": " + h[order[n]];
    }
  }

  lemma RawLinesOfPrint(h: HeaderMap, order: seq<string>, p: Policy, rest: string)
    requires Canonical(h, p) && Enumerates(order, h)
    ensures RawLines(Lines(Printed(h, order)) + ("\r\n" + rest)) == Printed(h, order)
    ensures forall i | 0 <= i < |order| :: Printed(h, order)[i] == order[i] + ": " + h[order[i]]
  {
    hide Canonical, LineOk, FindCrlf, Lines, RawLines, Fold;
    PrintedReadsBack(h, order, p);
    PrintedLines(h, order);
    assert "" + CRLF + rest == CRLF + rest;
    FindCrlfEndsLine("", rest);
    RawLinesOf(Printed(h, order), CRLF + rest);
  }

  /** The printing loop of `commit_headers`. */
  method PrintHeaders(start: string, h: HeaderMap, order: seq<string>) returns (ret: string)
    requires Enumerates(order, h)
    ensures ret == start + Lines(Printed(h, order)) + CRLF
    ensures forall i | 0 <= i < |order| :: Printed(h, order)[i] == order[i] + ": " + h[order[i]]
  {
    hide Printed, Lines, PrintLine;
    NoPrintedLines(h);
    ret := start;
    for i := 0 to |order|
      invariant ret == start + Lines(Printed(h, order[..i]))
    {
      ghost var before := Lines(Printed(h, order[..i]));
      var name := order[i];
      ret := ret + (name + SEPARATOR + h[name] + CRLF);
      PrintedStep(h, order, i);
      LineText(name, h[name]);
      assert start + (before + (PrintLine(name, h[name]) + CRLF)) == start + before + (PrintLine(name, h[name]) + CRLF);
    }
    assert order[..|order|] == order;
    ret := ret + CRLF;
    PrintedLines(h, order);
  }

  lemma NoPrintedLines(h: HeaderMap)
    ensures Lines(Printed(h, [])) == ""
  {
  }

  lemma LineText(name: string, value: string)
    ensures name + SEPARATOR + value + CRLF == PrintLine(name, value) + CRLF
  {
  }

  lemma PrintedStep(h: HeaderMap, order: seq<string>, i: nat)
    requires i < |order| && (forall n | n in order :: n in h)
    ensures Lines(Printed(h, order[..i + 1]))
         == Lines(Printed(h, order[..i])) + (PrintLine(order[i], h[order[i]]) + CRLF)
  {
    var ls := Printed(h, order[..i + 1]);
    assert order[..i + 1][..i] == order[..i];
    assert ls[..|ls| - 1] == Printed(h, order[..i]);
  }
}
