/** The chunked transfer coding (section 4.1 of RFC 7230) as the proxy decodes and encodes it. */
module ChunkedCoding {
  import opened Outcomes
  import opened Text
  import opened Numbers

  const TERMINATOR: string := "0" + CRLF + CRLF
  const BLOCK: nat := 100

  // ---------------------------------------------------------------- decoding

  datatype Decoded = Decoded(body: string, unparsed: string, done: bool)

  /** One look at the front of the buffer: the declared size, as the 32-bit variable holds it. */
  datatype SizeLine = SizeLine(eol: int, size: nat)

  function ReadSize(u: string): (r: Result<SizeLine>)
    ensures r.Success? ==> NPOS <= r.value.eol && r.value.size < TWO_TO_32
    ensures r.Failure? ==> r.error != NeverReturns
  {
    var eol := FindCrlf(u);
    var n :- Stoul16(Prefix(u, eol));
    Success(SizeLine(eol, n % TWO_TO_32))
  }

  /** chunksize + 2 in 32-bit unsigned arithmetic: the two largest sizes wrap round. */
  function Needed(size: nat): (n: nat)
    requires size < TWO_TO_32
    ensures n == (size + 2) % TWO_TO_32
  {
    if size < TWO_TO_32 - 2 then size + 2 else size + 2 - TWO_TO_32
  }

  /** The chunk loop: take whole chunks off the front until one is incomplete, or until a line of
      size zero, which is skipped with the four bytes that are expected to follow its digits. */
  function Decode(u: string, body: string): (r: Result<Decoded>)
    ensures r.Failure? ==> r.error != NeverReturns
    decreases |u|
  {
    if u == "" then Success(Decoded(body, u, false))
    else
      var line :- ReadSize(u);
      if line.size == 0 then
        var rest :- Substr(u, line.eol + 4);
        Success(Decoded(body, rest, true))
      else
        var temp :- Substr(u, line.eol + 2);
        if |temp| < Needed(line.size) then Success(Decoded(body, u, false))
        else Decode(temp[Needed(line.size)..], body + Prefix(temp, line.size))
  }

  /** Every chunk taken off the front had its whole size line in the buffer, and a size for which
      size + 2 does not wrap round. */
  predicate Clean(u: string)
    decreases |u|
  {
    u == "" ||
    match ReadSize(u)
    case Failure(_) => true
    case Success(line) =>
      line.size == 0 || |u| < line.eol + 2 ||
      var temp := u[line.eol + 2..];
      |temp| < Needed(line.size) ||
      (line.eol != NPOS && line.size < TWO_TO_32 - 2 && Clean(temp[Needed(line.size)..]))
  }

  /** The four ways one turn of the loop can go, when the size line can be read. */
  lemma EmptyWaits(body: string)
    ensures Decode("", body) == Success(Decoded(body, "", false)) && Clean("")
  {
  }

  lemma ShortWaits(u: string, line: SizeLine, body: string)
    requires u != "" && ReadSize(u) == Success(line) && line.size != 0
    requires line.eol + 2 <= |u| < line.eol + 2 + Needed(line.size)
    ensures Decode(u, body) == Success(Decoded(body, u, false)) && Clean(u)
  {
    hide ReadSize, Needed;
  }

  lemma LongTakes(u: string, line: SizeLine, body: string)
    requires u != "" && ReadSize(u) == Success(line) && line.size != 0
    requires line.eol + 2 + Needed(line.size) <= |u|
    ensures var temp := u[line.eol + 2..];
            && Decode(u, body) == Decode(temp[Needed(line.size)..], body + Prefix(temp, line.size))
            && Clean(u) == (line.eol != NPOS && line.size < TWO_TO_32 - 2 && Clean(temp[Needed(line.size)..]))
  {
    hide ReadSize, Needed;
    assert Substr(u, line.eol + 2) == Success(u[line.eol + 2..]);
  }

  lemma ZeroEnds(u: string, line: SizeLine, body: string)
    requires u != "" && ReadSize(u) == Success(line) && line.size == 0
    ensures Decode(u, body) ==
            if line.eol + 4 <= |u| then Success(Decoded(body, u[line.eol + 4..], true)) else Failure(OutOfRange)
  {
    hide ReadSize;
  }

  /** A size line that is all there reads the same whatever follows. */
  lemma SizeExtends(u: string, v: string, line: SizeLine)
    requires ReadSize(u) == Success(line) && line.eol != NPOS
    ensures ReadSize(u + v) == Success(line)
  {
    hide Stoul16;
    FindCrlfExtends(u, v);
    assert Prefix(u + v, line.eol) == Prefix(u, line.eol);
  }

  /** A chunk that was taken is taken just the same when more bytes stand behind it. */
  lemma TakesExtended(u: string, v: string, line: SizeLine, body: string)
    requires u != "" && ReadSize(u) == Success(line) && line.size != 0 && line.eol != NPOS
    requires line.size < TWO_TO_32 - 2 && line.eol + 2 + (line.size + 2) <= |u|
    ensures var temp := u[line.eol + 2..];
            var rest, body' := temp[line.size + 2..], body + temp[..line.size];
            && |rest| < |u|
            && Clean(u) == Clean(rest)
            && Decode(u, body) == Decode(rest, body')
            && Decode(u + v, body) == Decode(rest + v, body')
  {
    hide Decode, Clean, ReadSize;
    var temp := u[line.eol + 2..];
    LongTakes(u, line, body);
    SizeExtends(u, v, line);
    LongTakes(u + v, line, body);
    assert (u + v)[line.eol + 2..] == temp + v;
    assert (temp + v)[line.size + 2..] == temp[line.size + 2..] + v;
    assert Prefix(temp + v, line.size) == temp[..line.size];
  }

  /** A clean decode either waits at once or takes a chunk. */
  lemma CleanTurn(u: string, body: string) returns (line: SizeLine)
    requires u != "" && Clean(u)
    requires Decode(u, body).Success? && !Decode(u, body).value.done
    ensures ReadSize(u) == Success(line) && line.size != 0 && line.eol + 2 <= |u|
    ensures || Decode(u, body) == Success(Decoded(body, u, false))
            || (line.eol != NPOS && line.size < TWO_TO_32 - 2 && line.eol + 2 + (line.size + 2) <= |u|)
  {
    hide ReadSize;
    line := ReadSize(u).value;
  }

  /** Waiting loses nothing: if a clean decode stops for lack of data, decoding everything at once
      is decoding what was kept, extended by what came later.  True of any bytes whatsoever. */
  lemma {:induction false} DecodeResumes(u: string, v: string, body: string)
    requires Clean(u)
    requires Decode(u, body).Success? && !Decode(u, body).value.done
    ensures var d := Decode(u, body).value; Decode(u + v, body) == Decode(d.unparsed + v, d.body)
    decreases |u|
  {
    if u == "" {
      EmptyWaits(body);
    } else {
      hide Decode, Clean, ReadSize;
      var line := CleanTurn(u, body);
      if Decode(u, body) != Success(Decoded(body, u, false)) {
        TakesExtended(u, v, line, body);
        var temp := u[line.eol + 2..];
        DecodeResumes(temp[line.size + 2..], v, body + temp[..line.size]);
      }
    }
  }

  // ---------------------------------------------------------------- conservation

  /** What one turn of the loop takes off the front of the buffer `seen`: a frame around the size
      line and then, unless the size is zero, data for the body and the gap behind it. */
  datatype Piece =
    | DataPiece(seen: string, frame: string, data: string, gap: string)
    | EndPiece(seen: string, frame: string)

  function PieceText(p: Piece): string {
    if p.DataPiece? then p.frame + p.data + p.gap else p.frame
  }

  /** The text that is read as a size: everything before the first line break, or the whole buffer
      if there is none. */
  function FirstLine(u: string): (line: string)
    ensures CrlfFree(line) && (if CrlfFree(u) then line == u else line + CRLF <= u)
  {
    PrefixBeforeBreak(u);
    Prefix(u, FindCrlf(u))
  }

  /** Length of the frame: the size line and its line break, or a single byte where no line break
      has been seen, because npos + 2 is 1. */
  function FrameLength(u: string): nat {
    if CrlfFree(u) then 1 else |FirstLine(u)| + |CRLF|
  }

  /** The piece stands at the front of the buffer it was read from, and its size line says how it
      is divided: as many bytes of data as declared and a gap of two, or, for the two sizes with
      which size + 2 wraps round to 0 and 1, just that many bytes of data. */
  predicate PieceOk(p: Piece) {
    var size := Stoul16(FirstLine(p.seen));
    && size.Success? && PieceText(p) <= p.seen
    && var n := size.value % TWO_TO_32;
       match p
       case EndPiece(seen, frame) => n == 0 && |frame| == FrameLength(seen) + 2
       case DataPiece(seen, frame, data, gap) =>
         && n != 0 && |frame| == FrameLength(seen)
         && if n < TWO_TO_32 - 2 then |data| == n && |gap| == 2
            else |data| == n + 2 - TWO_TO_32 && gap == ""
  }

  /** The buffer `u` is the pieces, one behind the other, and then `rest`.  Each piece was read from
      all the buffer held from there on; only a last piece, and only if the message is over, is an
      end. */
  predicate Taken(u: string, ps: seq<Piece>, rest: string, over: bool) {
    if ps == [] then u == rest && !over
    else
      var p := ps[0];
      && PieceOk(p) && p.seen == u
      && var left := u[|PieceText(p)|..];
         if p.EndPiece? then |ps| == 1 && left == rest && over
         else Taken(left, ps[1..], rest, over)
  }

  /** No piece can be taken off the front of the buffer. */
  ghost predicate Stuck(u: string) {
    forall p :: !(PieceOk(p) && p.seen == u)
  }

  /** One call of the decoder: it takes all the pieces it can. */
  ghost predicate Round(u: string, ps: seq<Piece>, rest: string, over: bool) {
    Taken(u, ps, rest, over) && (over || Stuck(rest))
  }

  /** The data of the pieces. */
  function DataOf(ps: seq<Piece>): string {
    if ps == [] then "" else (if ps[0].DataPiece? then ps[0].data else "") + DataOf(ps[1..])
  }

  /** A chunk is taken whose size is 2^32 - 2 or 2^32 - 1, although more stands behind its size line
      than the 0 or 1 bytes that size + 2 comes to: what goes beyond them is copied to the body and
      stays in the buffer. */
  predicate Doubles(u: string)
    decreases |u|
  {
    u != "" &&
    match ReadSize(u)
    case Failure(_) => false
    case Success(line) =>
      && line.size != 0 && line.eol + 2 + Needed(line.size) <= |u|
      && var temp := u[line.eol + 2..];
         || (line.size >= TWO_TO_32 - 2 && |temp| > Needed(line.size))
         || Doubles(temp[Needed(line.size)..])
  }

  /** A decode that does not throw has read a size line and finds room behind it. */
  lemma TurnReads(u: string, body: string) returns (line: SizeLine)
    requires u != "" && Decode(u, body).Success?
    ensures ReadSize(u) == Success(line)
    ensures if line.size == 0 then line.eol + 4 <= |u| else line.eol + 2 <= |u|
  {
    hide ReadSize;
    line := ReadSize(u).value;
  }

  lemma SizeOfFirstLine(u: string, line: SizeLine)
    requires ReadSize(u) == Success(line)
    ensures Stoul16(FirstLine(u)).Success? && Stoul16(FirstLine(u)).value % TWO_TO_32 == line.size
    ensures FrameLength(u) == line.eol + 2
  {
    hide Stoul16;
    if line.eol != NPOS {
      assert CrlfAt(u, line.eol);
    }
  }

  lemma ZeroDoesNotDouble(u: string, line: SizeLine)
    requires ReadSize(u) == Success(line) && line.size == 0
    ensures !Doubles(u)
  {
    hide ReadSize;
  }

  lemma ZeroPieceOk(u: string, line: SizeLine)
    requires ReadSize(u) == Success(line) && line.size == 0 && line.eol + 4 <= |u|
    ensures PieceOk(EndPiece(u, u[..line.eol + 4]))
  {
    SizeOfFirstLine(u, line);
    hide ReadSize, Stoul16, FirstLine, FrameLength;
  }

  lemma ZeroPiece(u: string, line: SizeLine, body: string) returns (p: Piece)
    requires u != "" && ReadSize(u) == Success(line) && line.size == 0 && line.eol + 4 <= |u|
    ensures p.EndPiece? && PieceOk(p) && p.seen == u && !Doubles(u)
    ensures Decode(u, body) == Success(Decoded(body, u[|PieceText(p)|..], true))
  {
    hide Decode, ReadSize, PieceOk, Doubles;
    p := EndPiece(u, u[..line.eol + 4]);
    ZeroPieceOk(u, line);
    ZeroDoesNotDouble(u, line);
    ZeroEnds(u, line, body);
  }

  lemma ChunkPieceOk(u: string, line: SizeLine, p: Piece)
    requires ReadSize(u) == Success(line) && line.size != 0
    requires p.DataPiece? && p.seen == u && PieceText(p) <= u && |p.frame| == line.eol + 2
    requires if line.size < TWO_TO_32 - 2 then |p.data| == line.size && |p.gap| == 2
             else |p.data| == Needed(line.size) && p.gap == ""
    ensures PieceOk(p)
  {
    SizeOfFirstLine(u, line);
    hide ReadSize, Stoul16, FirstLine, FrameLength, PieceText;
  }

  lemma DoublesTurn(u: string, line: SizeLine)
    requires u != "" && ReadSize(u) == Success(line) && line.size != 0
    requires line.eol + 2 + Needed(line.size) <= |u|
    ensures var temp := u[line.eol + 2..];
            Doubles(u) <==> (line.size >= TWO_TO_32 - 2 && |temp| > Needed(line.size))
                            || Doubles(temp[Needed(line.size)..])
  {
    hide ReadSize, Needed;
  }

  /** A chunk that is taken is a piece; `copied` is what the body gets for it. */
  lemma LongPiece(u: string, line: SizeLine, body: string) returns (p: Piece, copied: string)
    requires u != "" && ReadSize(u) == Success(line) && line.size != 0
    requires line.eol + 2 + Needed(line.size) <= |u|
    ensures p.DataPiece? && PieceOk(p) && p.seen == u && |PieceText(p)| <= |u|
    ensures var left := u[|PieceText(p)|..];
            && |left| < |u| && Decode(u, body) == Decode(left, body + copied)
            && |copied| >= |p.data| && (|copied| == |p.data| ==> copied == p.data)
            && (Doubles(u) <==> |copied| > |p.data| || Doubles(left))
  {
    hide Decode, ReadSize, Clean, Doubles, PieceOk, PieceText, Needed;
    var temp, needed := u[line.eol + 2..], Needed(line.size);
    var n := DataLength(line);
    p := DataPiece(u, u[..line.eol + 2], temp[..n], temp[n..needed]);
    copied := Prefix(temp, line.size);
    PieceTextIs(p, u, line.eol + 2, n, needed);
    LongTakes(u, line, body);
    DoublesTurn(u, line);
    ChunkPieceOk(u, line, p);
  }

  /** How much of what is needed for a chunk is its data. */
  function DataLength(line: SizeLine): (n: nat)
    requires line.size < TWO_TO_32
    ensures n <= Needed(line.size)
    ensures if line.size < TWO_TO_32 - 2 then n == line.size && Needed(line.size) == n + 2 else n == Needed(line.size)
  {
    if line.size < TWO_TO_32 - 2 then line.size else Needed(line.size)
  }

  lemma PieceTextIs(p: Piece, u: string, i: nat, n: nat, needed: nat)
    requires i + needed <= |u| && n <= needed
    requires p == DataPiece(u, u[..i], u[i..][..n], u[i..][n..needed])
    ensures PieceText(p) == u[..i + needed] && u[i + needed..] == u[i..][needed..]
  {
    assert p.data + p.gap == u[i..][..needed];
    assert p.frame + p.data + p.gap == p.frame + (p.data + p.gap);
  }

  lemma PieceHasFrame(p: Piece)
    requires PieceOk(p)
    ensures p.seen != ""
  {
    hide Stoul16, FirstLine;
  }

  lemma EmptyIsStuck()
    ensures Stuck("")
  {
    hide PieceOk;
    forall p | PieceOk(p) ensures p.seen != "" {
      PieceHasFrame(p);
    }
  }

  /** How long a piece is says its size line alone. */
  lemma PieceFits(p: Piece, line: SizeLine)
    requires PieceOk(p) && ReadSize(p.seen) == Success(line) && line.size != 0
    ensures line.eol + 2 + Needed(line.size) <= |p.seen|
  {
    SizeOfFirstLine(p.seen, line);
    hide ReadSize, Stoul16, FirstLine, FrameLength;
  }

  lemma ShortIsStuck(u: string, line: SizeLine)
    requires ReadSize(u) == Success(line) && line.size != 0 && line.eol + 2 + Needed(line.size) > |u|
    ensures Stuck(u)
  {
    hide ReadSize, PieceOk, Needed;
    forall p | PieceOk(p) && ReadSize(p.seen) == Success(line) ensures line.eol + 2 + Needed(line.size) <= |p.seen| {
      PieceFits(p, line);
    }
  }

  lemma ShortKeeps(u: string, line: SizeLine)
    requires ReadSize(u) == Success(line) && line.size != 0 && line.eol + 2 + Needed(line.size) > |u|
    ensures !Doubles(u)
  {
    hide ReadSize, Needed;
  }

  /** The account of one call of the decoder.  Whatever the bytes, if it does not throw, the pieces
      it takes and the bytes it leaves are the buffer, and the body grows by the data of the pieces,
      or by more if the buffer doubles. */
  lemma {:induction false} DecodeAccount(u: string, body: string) returns (ps: seq<Piece>)
    requires Decode(u, body).Success?
    ensures var d := Decode(u, body).value;
            && Round(u, ps, d.unparsed, d.done)
            && if Doubles(u) then |d.body| > |body| + |DataOf(ps)| else d.body == body + DataOf(ps)
    decreases |u|
  {
    hide Decode, ReadSize, Doubles, PieceOk, PieceText, Needed, Stuck;
    ps := [];
    if u == "" {
      EmptyIsStuck();
      EmptyWaits(body);
      EmptyDoesNotDouble();
    } else {
      var line := TurnReads(u, body);
      if line.size == 0 {
        var p := ZeroPiece(u, line, body);
        ps := [p];
      } else if line.eol + 2 + Needed(line.size) > |u| {
        ShortWaits(u, line, body);
        ShortKeeps(u, line);
        ShortIsStuck(u, line);
      } else {
        var p, copied := LongPiece(u, line, body);
        var more := DecodeAccount(u[|PieceText(p)|..], body + copied);
        ps := [p] + more;
        assert ps[1..] == more;
        assert body + copied + DataOf(more) == body + (copied + DataOf(more));
      }
    }
  }

  lemma EmptyDoesNotDouble()
    ensures !Doubles("")
  {
  }

  lemma PieceIsInFront(p: Piece, u: string)
    requires PieceOk(p) && p.seen <= u
    ensures |PieceText(p)| <= |u|
  {
  }

  lemma {:induction false} TakenShrinks(u: string, ps: seq<Piece>, rest: string, over: bool)
    requires Taken(u, ps, rest, over)
    ensures |rest| <= |u| && (ps != [] ==> |rest| < |u|)
  {
    hide FirstLine;
    if ps != [] && ps[0].DataPiece? {
      PieceIsInFront(ps[0], u);
      TakenShrinks(u[|PieceText(ps[0])|..], ps[1..], rest, over);
    }
  }

  /** Two pieces read from the same buffer are the same piece. */
  lemma PieceIsUnique(p: Piece, q: Piece)
    requires PieceOk(p) && PieceOk(q) && p.seen == q.seen
    ensures p == q
  {
    hide Stoul16, FirstLine, FrameLength;
    assert p.frame == p.seen[..|p.frame|] && q.frame == q.seen[..|q.frame|];
    if p.DataPiece? {
      var i, j := |p.frame|, |p.frame| + |p.data|;
      assert PieceText(p) == p.seen[..|PieceText(p)|] && PieceText(q) == PieceText(p);
      assert p.data == PieceText(p)[i..j] && p.gap == PieceText(p)[j..];
      assert q.data == PieceText(q)[i..j] && q.gap == PieceText(q)[j..];
    }
  }

  /** There is one account of a buffer at most: nothing in it can be filed differently. */
  lemma {:induction false} AccountIsUnique(u: string, ps: seq<Piece>, qs: seq<Piece>, rest: string, over: bool)
    requires Taken(u, ps, rest, over) && Taken(u, qs, rest, over)
    ensures ps == qs
  {
    hide PieceOk, PieceText;
    if ps == [] || qs == [] {
      TakenShrinks(u, ps, rest, over);
      TakenShrinks(u, qs, rest, over);
    } else {
      PieceIsUnique(ps[0], qs[0]);
      PieceIsInFront(ps[0], u);
      if ps[0].DataPiece? {
        AccountIsUnique(u[|PieceText(ps[0])|..], ps[1..], qs[1..], rest, over);
      }
      assert ps == [ps[0]] + ps[1..] && qs == [qs[0]] + qs[1..];
    }
  }

  /** The pieces account for all the decoder did: for the buffer, and for what the body gained. */
  ghost predicate Accounts(u: string, body: string, ps: seq<Piece>) {
    var r := Decode(u, body);
    && r.Success? && Taken(u, ps, r.value.unparsed, r.value.done)
    && r.value.body == body + DataOf(ps)
  }

  /** Conservation, exactly: every byte the decoder was given is in one place afterwards, framing,
      body or buffer, if and only if the buffer does not double. */
  lemma DecodeConserves(u: string, body: string)
    requires Decode(u, body).Success?
    ensures (exists ps :: Accounts(u, body, ps)) <==> !Doubles(u)
  {
    hide Decode, Taken, Doubles;
    var ps := DecodeAccount(u, body);
    if !Doubles(u) {
      assert Accounts(u, body, ps);
    }
    if qs :| Accounts(u, body, qs) {
      var d := Decode(u, body).value;
      AccountIsUnique(u, ps, qs, d.unparsed, d.done);
      assert |body + DataOf(qs)| == |body| + |DataOf(ps)|;
    }
  }

  // ---------------------------------------------------------------- what cannot be decoded

  /** What stands in front is no size, or it is a size of zero without the four bytes (three, where
      no line break has been seen) that are skipped with it. */
  predicate Unreadable(u: string) {
    u != "" &&
    var size := Stoul16(FirstLine(u));
    size.Failure? || (size.value % TWO_TO_32 == 0 && |u| < FrameLength(u) + 2)
  }

  /** Behind some pieces the buffer cannot be read. */
  ghost predicate BadChunks(u: string) {
    exists ps, left :: Taken(u, ps, left, false) && Unreadable(left)
  }

  lemma {:induction false} FailureAccount(u: string, body: string) returns (ps: seq<Piece>, left: string)
    requires Decode(u, body).Failure?
    ensures Taken(u, ps, left, false) && Unreadable(left)
    decreases |u|
  {
    ps, left := [], u;
    var read := ReadSize(u);
    if read.Failure? {
      NoSizeFails(u);
    } else {
      var line := read.value;
      SizeOfFirstLine(u, line);
      hide Decode, ReadSize, Doubles, PieceOk, PieceText, Needed, Stoul16, FirstLine, FrameLength, Clean;
      FailureShape(u, line, body);
      if line.size != 0 {
        var p, copied := LongPiece(u, line, body);
        ps, left := FailureAccount(u[|PieceText(p)|..], body + copied);
        assert ([p] + ps)[1..] == ps;
        ps := [p] + ps;
      }
    }
  }

  lemma NoSizeFails(u: string)
    requires ReadSize(u).Failure? && u != ""
    ensures Unreadable(u)
  {
    hide Stoul16, FindCrlf;
  }

  lemma FailureShape(u: string, line: SizeLine, body: string)
    requires Decode(u, body).Failure? && ReadSize(u) == Success(line)
    ensures if line.size == 0 then |u| < line.eol + 4 else line.eol + 2 + Needed(line.size) <= |u|
  {
    hide ReadSize, Needed;
    LineIsInside(u, line);
  }

  lemma LineIsInside(u: string, line: SizeLine)
    requires ReadSize(u) == Success(line) && u != ""
    ensures line.eol + 2 <= |u|
  {
    hide Stoul16;
  }

  lemma UnreadableFails(u: string, body: string)
    requires Unreadable(u)
    ensures Decode(u, body).Failure?
  {
    hide Stoul16;
  }

  /** A piece that stands in front is taken. */
  lemma PieceIsTaken(p: Piece, body: string) returns (copied: string)
    requires PieceOk(p) && p.DataPiece? && |PieceText(p)| <= |p.seen|
    ensures Decode(p.seen, body) == Decode(p.seen[|PieceText(p)|..], body + copied)
  {
    var u := p.seen;
    PieceHasFrame(p);
    var line := PieceSize(p);
    PieceFits(p, line);
    hide Decode, ReadSize, Doubles, PieceOk, PieceText, Needed;
    var q, data := LongPiece(u, line, body);
    PieceIsUnique(p, q);
    copied := data;
  }

  lemma PieceSize(p: Piece) returns (line: SizeLine)
    requires PieceOk(p) && p.DataPiece?
    ensures ReadSize(p.seen) == Success(line) && line.size != 0
  {
    hide Stoul16, FindCrlf, FrameLength;
    line := ReadSize(p.seen).value;
  }

  lemma {:induction false} BadChunksFail(u: string, ps: seq<Piece>, left: string, body: string)
    requires Taken(u, ps, left, false) && Unreadable(left)
    ensures Decode(u, body).Failure?
  {
    hide Decode, PieceOk, PieceText, Unreadable;
    if ps == [] {
      UnreadableFails(u, body);
    } else {
      PieceIsInFront(ps[0], u);
      var copied := PieceIsTaken(ps[0], body);
      BadChunksFail(u[|PieceText(ps[0])|..], ps[1..], left, body + copied);
    }
  }

  /** The decoder throws exactly when it comes to something that cannot be read. */
  lemma DecodeFails(u: string, body: string)
    ensures Decode(u, body).Failure? <==> BadChunks(u)
  {
    hide Decode, Taken, Unreadable;
    if Decode(u, body).Failure? {
      var ps, left := FailureAccount(u, body);
    }
    if ps, left :| Taken(u, ps, left, false) && Unreadable(left) {
      BadChunksFail(u, ps, left, body);
    }
  }

  // ---------------------------------------------------------------- accounts of whole streams

  /** A round on what was left and a fragment. */
  ghost predicate OneMore(left: string, b: string, ps: seq<Piece>, rest: string, over: bool) {
    Round(left + b, ps, rest, over)
  }

  /** A stream that arrives in the fragments `bs`, with the pieces taken after each of them from what
      was left before and the fragment; the message is not over before the last. */
  ghost predicate Rounds(bs: seq<string>, rounds: seq<seq<Piece>>, rest: string, over: bool)
    decreases |bs|
  {
    |bs| == |rounds| &&
    if bs == [] then rest == "" && !over
    else
      var n := |bs| - 1;
      exists left :: OneMore(left, bs[n], rounds[n], rest, over) && Rounds(bs[..n], rounds[..n], left, false)
  }

  function DataOfRounds(rounds: seq<seq<Piece>>): string {
    if rounds == [] then "" else DataOfRounds(rounds[..|rounds| - 1]) + DataOf(rounds[|rounds| - 1])
  }

  /** There is one way only to take all the pieces that can be taken. */
  lemma {:induction false} RoundIsUnique(
      u: string, ps: seq<Piece>, rest: string, over: bool, qs: seq<Piece>, rest': string, over': bool)
    requires Round(u, ps, rest, over) && Round(u, qs, rest', over')
    ensures ps == qs && rest == rest' && over == over'
  {
    hide PieceOk, PieceText;
    if ps != [] && qs != [] {
      PieceIsUnique(ps[0], qs[0]);
      PieceIsInFront(ps[0], u);
      if ps[0].DataPiece? {
        RoundIsUnique(u[|PieceText(ps[0])|..], ps[1..], rest, over, qs[1..], rest', over');
      }
      assert ps == [ps[0]] + ps[1..] && qs == [qs[0]] + qs[1..];
    }
  }

  /** And so a stream has one account at most, given the fragments it arrived in. */
  lemma {:induction false} RoundsAreUnique(
      bs: seq<string>, rounds: seq<seq<Piece>>, rest: string, over: bool,
      rounds': seq<seq<Piece>>, rest': string, over': bool)
    requires Rounds(bs, rounds, rest, over) && Rounds(bs, rounds', rest', over')
    ensures rounds == rounds' && rest == rest' && over == over'
    decreases |bs|
  {
    hide Round;
    if bs != [] {
      var n := |bs| - 1;
      var left :| OneMore(left, bs[n], rounds[n], rest, over) && Rounds(bs[..n], rounds[..n], left, false);
      var left' :| OneMore(left', bs[n], rounds'[n], rest', over') && Rounds(bs[..n], rounds'[..n], left', false);
      RoundsAreUnique(bs[..n], rounds[..n], left, false, rounds'[..n], left', false);
      RoundIsUnique(left + bs[n], rounds[n], rest, over, rounds'[n], rest', over');
      assert rounds == rounds[..n] + [rounds[n]] && rounds' == rounds'[..n] + [rounds'[n]];
    }
  }

  /** One more fragment, one more round. */
  lemma RoundsSnoc(bs: seq<string>, rounds: seq<seq<Piece>>, left: string, b: string,
      ps: seq<Piece>, rest: string, over: bool)
    requires Rounds(bs, rounds, left, false) && OneMore(left, b, ps, rest, over)
    ensures Rounds(bs + [b], rounds + [ps], rest, over)
    ensures DataOfRounds(rounds + [ps]) == DataOfRounds(rounds) + DataOf(ps)
  {
    hide OneMore;
    assert (bs + [b])[..|bs|] == bs && (rounds + [ps])[..|rounds|] == rounds;
  }

  /** Nothing arrives and nothing is taken. */
  lemma {:induction false} EmptyRounds(bs: seq<string>) returns (rounds: seq<seq<Piece>>)
    requires forall i | 0 <= i < |bs| :: bs[i] == ""
    ensures Rounds(bs, rounds, "", false) && DataOfRounds(rounds) == ""
  {
    rounds := [];
    if bs != [] {
      hide OneMore, Rounds;
      var init := bs[..|bs| - 1];
      rounds := EmptyRounds(init);
      EmptyRound();
      RoundsSnoc(init, rounds, "", bs[|bs| - 1], [], "", false);
      assert init + [bs[|bs| - 1]] == bs;
      rounds := rounds + [[]];
    }
  }

  lemma EmptyRound()
    ensures OneMore("", "", [], "", false) && DataOf([]) == ""
  {
    assert "" + "" == "";
    EmptyIsStuck();
  }

  /** Bytes can really be doubled: "-2" reads as 2^32 - 2, for which nothing is needed, and the byte
      behind it both goes to the body and stays in the buffer, so that no account exists. */
  lemma WrappedSizeDuplicates()
    ensures Decode("-2" + CRLF + "1", "") == Success(Decoded("1", "1", false))
    ensures !exists ps :: Accounts("-2" + CRLF + "1", "", ps)
  {
    hide Decode, Numeral, FindCrlf, Value, Needed, Doubles, Accounts;
    var u := "-2" + CRLF + "1";
    MinusTwoLine("1");
    SmallValues();
    hide Stoul16;
    LongTakes(u, SizeLine(2, TWO_TO_32 - 2), "");
    assert u[4..] == "1" && "1"[0..] == "1" && "" + "1" == "1";
    assert Prefix("1", TWO_TO_32 - 2) == "1";
    assert Prefix("1", NPOS) == "1";
    ShortWaits("1", SizeLine(NPOS, 1), "1");
    DoublesBehind(u, SizeLine(2, TWO_TO_32 - 2));
    DecodeConserves(u, "");
  }

  /** The same size with nothing behind it wraps as well, but nothing is doubled. */
  lemma WrappedSizeAloneIsHarmless()
    ensures Decode("-2" + CRLF, "") == Success(Decoded("", "", false)) && !Doubles("-2" + CRLF)
  {
    hide Decode, Numeral, FindCrlf, Value, Needed;
    var u := "-2" + CRLF;
    MinusTwoLine("");
    assert u + "" == u;
    SmallValues();
    hide Stoul16;
    LongTakes(u, SizeLine(2, TWO_TO_32 - 2), "");
    assert u[4..] == "" && ""[0..] == "" && Prefix("", TWO_TO_32 - 2) == "" && "" + "" == "";
    EmptyWaits("");
    EmptyDoesNotDouble();
  }

  lemma MinusTwoLine(rest: string)
    ensures ReadSize("-2" + CRLF + rest) == Success(SizeLine(2, TWO_TO_32 - 2))
  {
    hide Numeral, FindCrlf, Value;
    SmallValues();
    hide Stoul16;
    FindCrlfEndsLine("-2", rest);
    assert Prefix("-2" + CRLF + rest, 2) == "-2";
  }

  lemma DoublesBehind(u: string, line: SizeLine)
    requires ReadSize(u) == Success(line) && line.size >= TWO_TO_32 - 2 && |u| > line.eol + 2 + Needed(line.size)
    ensures Doubles(u)
  {
    hide ReadSize;
  }

  lemma SmallValues()
    ensures Stoul16("-2") == Success(TWO_TO_64 - 2) && CrlfFree("-2")
    ensures Stoul16("1") == Success(1) && FindCrlf("1") == NPOS
    ensures Needed(TWO_TO_32 - 2) == 0
  {
    hide Numeral, LTrim, DigitRun;
    assert "2"[..0] == "" && "1"[..0] == "";
    assert "1" + "" == "1";
    StoulOfDigits("1", "");
    MinusTwo();
  }

  lemma ValueOfTwo()
    ensures Value("2", 16) == 2
  {
    assert "2"[..0] == "";
  }

  lemma MinusTwo()
    ensures Numeral("-2", 16) == Success((true, 2))
  {
    hide FirstNonSpace, Unsigned;
    var s, two := "-2", "2";
    LTrimFixed(s);
    assert s[1..] == two;
    UnsignedTwo();
  }

  lemma UnsignedTwo()
    ensures Unsigned("2", 16) == Success(2)
  {
    hide RunEnd, Value;
    var two := "2";
    assert two + "" == two;
    DigitRunStops(two, "", 16);
    ValueOfTwo();
  }

  // ---------------------------------------------------------------- what is on the wire

  /** A chunk as sent: the text of its size line, and its data. */
  datatype Chunk = Chunk(line: string, data: string)

  predicate ChunkOk(c: Chunk) {
    && c.line != "" && CrlfFree(c.line)
    && Stoul16(c.line) == Success(|c.data|)
    && 0 < |c.data| < TWO_TO_32 - 2
  }

  predicate ChunksOk(cs: seq<Chunk>) {
    forall c | c in cs :: ChunkOk(c)
  }

  /** A size line of hexadecimal digits only, without a leading zero. */
  predicate Bare(line: string) {
    line != "" && Digits(line, 16) && line[0] != '0'
  }

  function ChunkWire(c: Chunk): string {
    c.line + CRLF + (c.data + CRLF)
  }

  function Wire(cs: seq<Chunk>): string {
    if cs == [] then "" else Wire(cs[..|cs| - 1]) + ChunkWire(cs[|cs| - 1])
  }

  function Payload(cs: seq<Chunk>): string {
    if cs == [] then "" else Payload(cs[..|cs| - 1]) + cs[|cs| - 1].data
  }

  lemma SizeOfLine(c: Chunk, rest: string)
    requires ChunkOk(c)
    ensures ReadSize(c.line + CRLF + rest) == Success(SizeLine(|c.line|, |c.data|))
  {
    hide Stoul16, FindCrlf;
    FindCrlfEndsLine(c.line, rest);
    var u := c.line + CRLF + rest;
    assert Prefix(u, |c.line|) == c.line;
  }

  lemma DecodeOneChunk(c: Chunk, rest: string, body: string)
    requires ChunkOk(c)
    ensures Decode(ChunkWire(c) + rest, body) == Decode(rest, body + c.data)
    ensures Clean(ChunkWire(c) + rest) == Clean(rest)
  {
    hide Decode, Clean, ReadSize, Stoul16;
    var u := ChunkWire(c) + rest;
    var temp := c.data + CRLF + rest;
    assert u == c.line + CRLF + temp;
    SizeOfLine(c, temp);
    assert u[|c.line| + 2..] == temp;
    assert temp[|c.data| + 2..] == rest;
    assert Prefix(temp, |c.data|) == c.data;
    LongTakes(u, SizeLine(|c.line|, |c.data|), body);
  }

  /** Whatever the partition into chunks, and whatever the chunks contain, the decoder passes over
      them and keeps exactly their data. */
  lemma {:induction false} DecodeChunks(cs: seq<Chunk>, rest: string, body: string)
    requires ChunksOk(cs)
    ensures Decode(Wire(cs) + rest, body) == Decode(rest, body + Payload(cs))
    ensures Clean(Wire(cs) + rest) == Clean(rest)
  {
    hide Decode, Clean, ChunkOk;
    if cs == [] {
      assert Wire(cs) + rest == rest && body + Payload(cs) == body;
    } else {
      var init, last := cs[..|cs| - 1], cs[|cs| - 1];
      assert Wire(cs) + rest == Wire(init) + (ChunkWire(last) + rest);
      DecodeChunks(init, ChunkWire(last) + rest, body);
      DecodeOneChunk(last, rest, body + Payload(init));
      assert body + Payload(init) + last.data == body + Payload(cs);
    }
  }

  /** A line of size zero ends the message and takes the next two bytes with it. */
  lemma DecodeZeroLine(line: string, rest: string, body: string)
    requires CrlfFree(line) && line != "" && Stoul16(line) == Success(0)
    ensures Decode(line + CRLF + rest, body) ==
            if |rest| < 2 then Failure(OutOfRange) else Success(Decoded(body, rest[2..], true))
  {
    hide Decode, Clean, Stoul16, FindCrlf;
    var u := line + CRLF + rest;
    FindCrlfEndsLine(line, rest);
    assert Prefix(u, |line|) == line;
    ZeroEnds(u, SizeLine(|line|, 0), body);
    if |rest| >= 2 {
      assert u[|line| + 4..] == rest[2..];
    }
  }

  lemma StoulOfDigits(ds: string, rest: string)
    requires ds != "" && Digits(ds, 16) && Value(ds, 16) < TWO_TO_64
    requires rest == "" || (DigitVal(rest[0]) >= 16 && rest[0] != 'x' && rest[0] != 'X')
    ensures Stoul16(ds + rest) == Success(Value(ds, 16))
  {
    hide Numeral, Value;
    NumeralOfDigits(ds, rest, 16);
  }

  /** One-shot decoding of any partition: completes with the concatenated data, nothing left. */
  lemma DecodeWholeMessage(cs: seq<Chunk>, rest: string, body: string)
    requires ChunksOk(cs)
    ensures Decode(Wire(cs) + (TERMINATOR + rest), body) == Success(Decoded(body + Payload(cs), rest, true))
  {
    hide Decode, Clean, Stoul16;
    DecodeChunks(cs, TERMINATOR + rest, body);
    ZeroLineValue();
    assert TERMINATOR + rest == "0" + CRLF + (CRLF + rest);
    DecodeZeroLine("0", CRLF + rest, body + Payload(cs));
    assert (CRLF + rest)[2..] == rest;
  }

  lemma ZeroLineValue()
    ensures Stoul16("0") == Success(0) && CrlfFree("0")
  {
    hide Numeral, Value;
    ZeroValue();
    assert "0" + "" == "0";
    StoulOfDigits("0", "");
  }

  // ---------------------------------------------------------------- where the stream may be cut

  /** The first `n` bytes of a size line and its CR, as a decoder sees them before the LF is there:
      hexadecimal digits that announce something, and more than there is behind the first of them. */
  predicate Kept(line: string, n: nat) {
    Digits(line, 16) &&
    var v := Value(if n <= |line| then line[..n] else line, 16);
    v > 0 && n <= v + 2
  }

  /** A cut at `k` bytes into the chunks is quiet unless it falls inside, or right behind the CR
      of, a size line of which the part before the cut is not kept. */
  predicate QuietCut(cs: seq<Chunk>, k: nat) {
    && k <= |Wire(cs)|
    && forall j | 0 <= j < |cs| && |Wire(cs[..j])| < k <= |Wire(cs[..j])| + |cs[j].line| + 1 ::
         Kept(cs[j].line, k - |Wire(cs[..j])|)
  }

  /** Without leading zeros every part of a size line is kept: k digits announce at least k bytes,
      and only k - 1 are taken for data. */
  lemma BareIsKept(line: string, n: nat)
    requires Bare(line) && 0 < n <= |line| + 1
    ensures Kept(line, n)
  {
    hide Value;
    ValueBeatsLength(if n <= |line| then line[..n] else line);
  }

  lemma DigitsThenCrAreCrlfFree(ds: string, rest: string)
    requires Digits(ds, 16) && (rest == "" || rest == "\r")
    ensures CrlfFree(ds + rest) && FindCrlf(ds + rest) == NPOS
  {
    var q := ds + rest;
    forall i | 0 <= i < |q| ensures !CrlfAt(q, i) {
      assert i < |ds| ==> q[i] == ds[i] && DigitVal(ds[i]) < 16;
    }
  }

  lemma ValueOfDigitLine(c: Chunk)
    requires ChunkOk(c) && Digits(c.line, 16)
    ensures Value(c.line, 16) == |c.data|
  {
    hide Value;
    assert c.line + "" == c.line;
    NumeralOfDigits(c.line, "", 16);
  }

  /** A piece of a chunk cut inside a size line of digits, or behind its CR, waits for the rest if
      and only if it is kept.  Otherwise it is taken for the end of the message, or for a chunk. */
  lemma PartialSizeLine(c: Chunk, q: string, body: string)
    requires ChunkOk(c) && Digits(c.line, 16)
    requires 0 < |q| <= |c.line| + 1 && q <= c.line + CRLF
    ensures Decode(q, body) == Success(Decoded(body, q, false)) <==> Kept(c.line, |q|)
    ensures Kept(c.line, |q|) ==> Clean(q)
  {
    hide Decode, Clean, Stoul16, FindCrlf, Value;
    var k := if |q| <= |c.line| then |q| else |c.line|;
    var ds, rest := q[..k], q[k..];
    assert ds == c.line[..k] && q == ds + rest;
    assert c.line[..|c.line|] == c.line;
    assert rest != "" ==> rest == "\r";
    DigitsThenCrAreCrlfFree(ds, rest);
    ValueOfPrefix(c.line, k, 16);
    ValueOfDigitLine(c);
    StoulOfDigits(ds, rest);
    assert Prefix(q, NPOS) == q;
    var line := SizeLine(NPOS, Value(ds, 16));
    if line.size == 0 {
      ZeroEnds(q, line, body);
    } else if |q| <= line.size + 2 {
      ShortWaits(q, line, body);
    } else {
      LongDoesNotWait(q, line, body);
    }
  }

  /** A decoder that takes a chunk leaves less than it was given. */
  lemma LongDoesNotWait(u: string, line: SizeLine, body: string)
    requires u != "" && ReadSize(u) == Success(line) && line.size != 0
    requires line.eol + 2 + Needed(line.size) <= |u|
    ensures Decode(u, body).Success? ==> |Decode(u, body).value.unparsed| < |u|
  {
    hide Decode, ReadSize, Doubles, PieceOk, Needed, Taken, PieceText;
    var p, copied := LongPiece(u, line, body);
    if Decode(u, body).Success? {
      var left := u[|PieceText(p)|..];
      var ps := DecodeAccount(left, body + copied);
      var d := Decode(left, body + copied).value;
      TakenShrinks(left, ps, d.unparsed, d.done);
    }
  }

  /** A piece that has the whole size line but not all the data and its CRLF waits as well. */
  lemma PartialDataWaits(c: Chunk, d: string, body: string)
    requires ChunkOk(c) && |d| < |c.data| + 2
    ensures var q := c.line + CRLF + d; Decode(q, body) == Success(Decoded(body, q, false)) && Clean(q)
  {
    hide Decode, Clean, ReadSize, Stoul16;
    SizeOfLine(c, d);
    ShortWaits(c.line + CRLF + d, SizeLine(|c.line|, |c.data|), body);
  }

  /** Any part of a chunk short of its end is kept as it is. */
  lemma PartialChunkWaits(c: Chunk, q: string, body: string)
    requires ChunkOk(c) && q <= ChunkWire(c) && |q| < |ChunkWire(c)|
    requires 0 < |q| <= |c.line| + 1 ==> Kept(c.line, |q|)
    ensures Decode(q, body) == Success(Decoded(body, q, false)) && Clean(q)
  {
    hide Decode, Clean, ChunkOk;
    if |q| > |c.line| + 1 {
      var d := q[|c.line| + 2..];
      assert q == c.line + CRLF + d by {
        assert q == ChunkWire(c)[..|q|];
        assert ChunkWire(c)[..|c.line| + 2] == c.line + CRLF;
      }
      PartialDataWaits(c, d, body);
    } else if q != "" {
      assert q <= c.line + CRLF by {
        assert q == ChunkWire(c)[..|q|];
        assert ChunkWire(c)[..|c.line| + 2] == c.line + CRLF;
      }
      PartialSizeLine(c, q, body);
    } else {
      EmptyWaits(body);
    }
  }

  /** A cut falls after some whole chunks and part of the next one. */
  lemma {:induction false} LocateCut(cs: seq<Chunk>, k: nat) returns (j: nat, q: string)
    requires k < |Wire(cs)|
    ensures j < |cs| && Wire(cs)[..k] == Wire(cs[..j]) + q
    ensures q <= ChunkWire(cs[j]) && |q| < |ChunkWire(cs[j])|
    ensures k == |Wire(cs[..j])| + |q|
  {
    var init := cs[..|cs| - 1];
    if k < |Wire(init)| {
      j, q := LocateCut(init, k);
      assert init[..j] == cs[..j];
      assert Wire(cs)[..k] == Wire(init)[..k];
    } else {
      j := |cs| - 1;
      q := ChunkWire(cs[j])[..k - |Wire(init)|];
    }
  }

  /** At a quiet cut the decoder has taken the whole chunks, waits for the rest, and did so
      cleanly. */
  lemma QuietCutWaits(cs: seq<Chunk>, k: nat, body: string)
    requires ChunksOk(cs) && QuietCut(cs, k)
    ensures var p := Wire(cs)[..k];
            Clean(p) && Decode(p, body).Success? && !Decode(p, body).value.done
  {
    hide Decode, Clean, ChunkOk;
    if k == |Wire(cs)| {
      assert Wire(cs)[..k] == Wire(cs) + "";
      DecodeChunks(cs, "", body);
      EmptyWaits(body + Payload(cs));
    } else {
      var j, q := LocateCut(cs, k);
      var whole := cs[..j];
      DecodeChunks(whole, q, body);
      PartialChunkWaits(cs[j], q, body + Payload(whole));
    }
  }

  /** A cut inside a size line of digits, exactly: the decoder is where the sender is, with the whole
      chunks taken and the cut one untouched, if and only if the part before the cut is kept. */
  lemma SizeLineCut(cs: seq<Chunk>, j: nat, n: nat, body: string)
    requires ChunksOk(cs) && j < |cs| && Digits(cs[j].line, 16) && 0 < n <= |cs[j].line| + 1
    ensures Decode(Wire(cs[..j]) + ChunkWire(cs[j])[..n], body)
         == Success(Decoded(body + Payload(cs[..j]), ChunkWire(cs[j])[..n], false))
       <==> Kept(cs[j].line, n)
  {
    hide Decode, Clean, ChunkOk, Kept;
    var q := ChunkWire(cs[j])[..n];
    assert ChunkWire(cs[j])[..|cs[j].line| + 2] == cs[j].line + CRLF;
    assert q == (cs[j].line + CRLF)[..n];
    DecodeChunks(cs[..j], q, body);
    PartialSizeLine(cs[j], q, body + Payload(cs[..j]));
  }

  /** When every size line is bare, every cut among the chunks is quiet. */
  lemma BareCutsAreQuiet(cs: seq<Chunk>, k: nat)
    requires forall c | c in cs :: Bare(c.line)
    requires k <= |Wire(cs)|
    ensures QuietCut(cs, k)
  {
    forall j | 0 <= j < |cs| && |Wire(cs[..j])| < k <= |Wire(cs[..j])| + |cs[j].line| + 1
      ensures Kept(cs[j].line, k - |Wire(cs[..j])|)
    {
      BareIsKept(cs[j].line, k - |Wire(cs[..j])|);
    }
  }

  lemma PartialZeroThrows(rest: string, body: string)
    requires rest == "" || rest == "\r"
    ensures Decode("0" + rest, body) == Failure(OutOfRange)
  {
    hide Decode, Stoul16, Value, FindCrlf;
    var q := "0" + rest;
    ZeroValue();
    StoulOfDigits("0", rest);
    DigitsThenCrAreCrlfFree("0", rest);
    assert Prefix(q, NPOS) == q;
    ZeroEnds(q, SizeLine(NPOS, 0), body);
  }

  /** A cut strictly inside the terminator is never survived: the four bytes skipped after the
      zero are not all there. */
  lemma CutTerminatorThrows(cs: seq<Chunk>, m: nat, body: string)
    requires ChunksOk(cs) && 0 < m < |TERMINATOR|
    ensures Decode(Wire(cs) + TERMINATOR[..m], body) == Failure(OutOfRange)
  {
    hide Decode, Clean, ReadSize, Stoul16, Value;
    var q := TERMINATOR[..m];
    DecodeChunks(cs, q, body);
    if m >= 3 {
      ZeroLineValue();
      assert q == "0" + CRLF + q[3..];
      DecodeZeroLine("0", q[3..], body + Payload(cs));
    } else {
      var rest := q[1..];
      assert q == "0" + rest && (rest == "" || rest == "\r");
      PartialZeroThrows(rest, body + Payload(cs));
    }
  }

  /** Why leading zeros are excluded: fed in two pieces, a message whose only chunk is announced by
      "0001" is over before its data has come. */
  lemma LeadingZerosEndEarly(body: string)
    ensures Decode("000", body) == Success(Decoded(body, "", true))
  {
    hide Decode, Stoul16, Value, FindCrlf;
    var z := "000";
    ZeroValue();
    assert z + "" == z;
    StoulOfDigits(z, "");
    DigitsThenCrAreCrlfFree(z, "");
    assert Prefix(z, NPOS) == z;
    ZeroEnds(z, SizeLine(NPOS, 0), body);
    assert z[3..] == "";
  }

  // ---------------------------------------------------------------- encoding

  /** The full blocks of a body, as chunks with `int`-wide sizes. */
  function Blocks(body: string, n: nat): (cs: seq<Chunk>)
    requires BLOCK * n <= |body|
    ensures |cs| == n
  {
    if n == 0 then []
    else Blocks(body, n - 1) + [Chunk(IntToHex(BLOCK, INT_HEX_WIDTH), body[BLOCK * (n - 1)..BLOCK * n])]
  }

  /** What the encoder writes: full blocks, then the remainder, then the last-chunk. */
  function Encode(body: string): string {
    var n := |body| / BLOCK;
    Wire(Blocks(body, n))
    + (IntToHex(|body| % BLOCK, SIZE_HEX_WIDTH) + CRLF + (body[BLOCK * n..] + CRLF))
    + TERMINATOR
  }

  /** The encoder of `commit`, loop for loop; `ret` starts as what was printed before. */
  method EncodeBody(head: string, body: string) returns (ret: string)
    ensures ret == head + Encode(body)
  {
    hide IntToHex, Wire, Blocks;
    ret := head;
    var n := |body| / BLOCK;
    NoBlocks(body);
    for i := 0 to n
      invariant ret == head + Wire(Blocks(body, i))
    {
      ghost var before := ret;
      var piece := body[BLOCK * i..BLOCK * i + BLOCK];
      ret := ret + (IntToHex(BLOCK, INT_HEX_WIDTH) + CRLF);
      ret := ret + piece;
      ret := ret + CRLF;
      BlocksStep(body, i);
      var wire := ChunkWire(Chunk(IntToHex(BLOCK, INT_HEX_WIDTH), piece));
      assert ret == before + wire;
      assert ret == head + (Wire(Blocks(body, i)) + wire);
    }
    ret := ret + (IntToHex(|body| % BLOCK, SIZE_HEX_WIDTH) + CRLF);
    ret := ret + body[|body| - |body| % BLOCK..];
    ret := ret + CRLF + "0" + CRLF;
    ret := ret + CRLF;
    assert |body| - |body| % BLOCK == BLOCK * n;
    assert ret == head + Encode(body);
  }

  lemma NoBlocks(body: string)
    ensures Wire(Blocks(body, 0)) == ""
  {
  }

  lemma BlocksStep(body: string, i: nat)
    requires BLOCK * (i + 1) <= |body|
    ensures var c := Chunk(IntToHex(BLOCK, INT_HEX_WIDTH), body[BLOCK * i..BLOCK * (i + 1)]);
            Wire(Blocks(body, i + 1)) == Wire(Blocks(body, i)) + ChunkWire(c)
  {
    hide IntToHex;
    var cs := Blocks(body, i + 1);
    assert cs[..i] == Blocks(body, i);
  }

  lemma BlockIsOk(piece: string)
    requires |piece| == BLOCK
    ensures ChunkOk(Chunk(IntToHex(BLOCK, INT_HEX_WIDTH), piece))
  {
    hide Stoul16, IntToHex;
    StoulOfIntToHex(BLOCK, INT_HEX_WIDTH);
  }

  lemma ChunksSnoc(cs: seq<Chunk>, c: Chunk)
    ensures Payload(cs + [c]) == Payload(cs) + c.data
    ensures ChunksOk(cs) && ChunkOk(c) ==> ChunksOk(cs + [c])
  {
    hide ChunkOk;
    assert (cs + [c])[..|cs|] == cs;
  }

  lemma {:induction false} BlocksCarryBody(body: string, n: nat)
    requires BLOCK * n <= |body|
    ensures ChunksOk(Blocks(body, n)) && Payload(Blocks(body, n)) == body[..BLOCK * n]
  {
    hide ChunkOk, IntToHex;
    if n > 0 {
      hide ChunksOk, Payload;
      var piece := body[BLOCK * (n - 1)..BLOCK * n];
      BlocksCarryBody(body, n - 1);
      BlockIsOk(piece);
      ChunksSnoc(Blocks(body, n - 1), Chunk(IntToHex(BLOCK, INT_HEX_WIDTH), piece));
      assert body[..BLOCK * (n - 1)] + piece == body[..BLOCK * n];
    }
  }

  /** What one-shot decoding leaves behind: if the last block is full, its empty successor is
      already taken for the end of the message, and the real terminator remains. */
  function Leftover(body: string): string {
    if |body| % BLOCK == 0 then TERMINATOR else ""
  }

  /** The encoder is undone by the decoder on every body, despite the "0x" and the padding. */
  lemma DecodeOfEncode(body: string, before: string)
    ensures Decode(Encode(body), before) == Success(Decoded(before + body, Leftover(body), true))
  {
    hide Decode, Clean, Stoul16, IntToHex, Blocks, Wire;
    var n := |body| / BLOCK;
    var r := |body| % BLOCK;
    var line := IntToHex(r, SIZE_HEX_WIDTH);
    var cs := Blocks(body, n);
    var tail := body[BLOCK * n..];
    BlocksCarryBody(body, n);
    StoulOfIntToHex(r, SIZE_HEX_WIDTH);
    assert |tail| == r;
    var sofar := before + body[..BLOCK * n];
    assert sofar + tail == before + body;
    assert Encode(body) == Wire(cs) + (line + CRLF + (tail + CRLF + TERMINATOR));
    DecodeChunks(cs, line + CRLF + (tail + CRLF + TERMINATOR), before);
    DecodeRemainder(line, tail, sofar);
    if r == 0 {
      assert sofar + tail == sofar;
    }
  }

  lemma DecodeRemainder(line: string, tail: string, body: string)
    requires line != "" && CrlfFree(line) && Stoul16(line) == Success(|tail|) && |tail| < BLOCK
    ensures Decode(line + CRLF + (tail + CRLF + TERMINATOR), body)
         == Success(Decoded(body + tail, if tail == "" then TERMINATOR else "", true))
  {
    hide Decode, Clean, Stoul16;
    if tail == "" {
      assert tail + CRLF + TERMINATOR == CRLF + TERMINATOR;
      DecodeZeroLine(line, CRLF + TERMINATOR, body);
      assert (CRLF + TERMINATOR)[2..] == TERMINATOR;
      assert body + tail == body;
    } else {
      var last := Chunk(line, tail);
      assert line + CRLF + (tail + CRLF + TERMINATOR) == ChunkWire(last) + TERMINATOR;
      DecodeOneChunk(last, TERMINATOR, body);
      DecodeWholeMessage([], "", body + tail);
      assert Wire([]) + (TERMINATOR + "") == TERMINATOR;
      assert body + tail + Payload([]) == body + tail;
    }
  }

  lemma {:induction false} BlocksSize(body: string, n: nat)
    requires BLOCK * n <= |body|
    ensures |Wire(Blocks(body, n))| == 114 * n
  {
    hide IntToHex;
    if n > 0 {
      BlocksSize(body, n - 1);
      BlocksStep(body, n - 1);
      HexWidths(0);
    }
  }

  lemma HexWidths(r: nat)
    requires r < BLOCK
    ensures |IntToHex(BLOCK, INT_HEX_WIDTH)| == 10 && |IntToHex(r, SIZE_HEX_WIDTH)| == 18
  {
    hide IntToHex;
    assert Pow16(2) == 256;
    assert Pow16(8) == 0x1_0000_0000;
    assert Pow16(16) == 0x1_0000_0000_0000_0000;
    IntToHexLength(BLOCK, INT_HEX_WIDTH);
    IntToHexLength(r, SIZE_HEX_WIDTH);
  }

  /** The exact cost of the coding: 14 bytes for every full block of 100, and 27 at the end. */
  lemma EncodedSize(body: string)
    ensures |Encode(body)| == |body| + 14 * (|body| / 100) + 27
  {
    BlocksSize(body, |body| / BLOCK);
    HexWidths(|body| % BLOCK);
  }
}
