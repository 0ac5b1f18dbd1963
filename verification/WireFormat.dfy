/** Messages as literal bytes: what is read, and what is printed. */
module WireFormat {
  import opened Outcomes
  import opened Text
  import opened Numbers
  import opened NumberText
  import opened StartLines
  import opened Headers
  import opened ChunkedCoding
  import opened Responses
  import opened ResponseRelay
  import Q = Requests
  import QR = RequestRelay

  // ---------------------------------------------------------------- chunks

  /** A chunk is taken: its size is the number on its line, modulo 2^32, and the two bytes behind its
      data are skipped, whatever they are. */
  lemma ChunkIsTaken(line: string, data: string, gap: string, rest: string, body: string)
    requires CrlfFree(line) && |gap| == 2 && Stoul16(line).Success?
    requires Stoul16(line).value % 4294967296 == |data| && 0 < |data| < 4294967294
    ensures Decode(line + "\r\n" + (data + gap + rest), body) == Decode(rest, body + data)
  {
    hide Decode, Clean, Stoul16, FindCrlf;
    var temp := data + gap + rest;
    var u := line + CRLF + temp;
    FindCrlfEndsLine(line, temp);
    assert Prefix(u, |line|) == line;
    LongTakes(u, SizeLine(|line|, |data|), body);
    assert u[|line| + 2..] == temp && temp[|data| + 2..] == rest && Prefix(temp, |data|) == data;
  }

  /** A size of zero, modulo 2^32, ends the message, and two more bytes go with it. */
  lemma ZeroIsTaken(line: string, rest: string, body: string)
    requires CrlfFree(line) && Stoul16(line).Success? && Stoul16(line).value % 4294967296 == 0
    ensures Decode(line + "\r\n" + rest, body)
         == if |rest| < 2 then Failure(OutOfRange) else Success(Decoded(body, rest[2..], true))
  {
    hide Decode, Clean, Stoul16, FindCrlf;
    var u := line + CRLF + rest;
    FindCrlfEndsLine(line, rest);
    assert Prefix(u, |line|) == line;
    ZeroEnds(u, SizeLine(|line|, 0), body);
    if |rest| >= 2 {
      assert u[|line| + 4..] == rest[2..];
    }
  }

  /** A chunk that is not all there, with two bytes behind its data, stays in the buffer. */
  lemma ChunkWaits(line: string, part: string, body: string)
    requires CrlfFree(line) && Stoul16(line).Success?
    requires var n := Stoul16(line).value % 4294967296; 0 < n < 4294967294 && |part| < n + 2
    ensures Decode(line + "\r\n" + part, body) == Success(Decoded(body, line + "\r\n" + part, false))
  {
    hide Decode, Clean, Stoul16, FindCrlf;
    var u := line + CRLF + part;
    FindCrlfEndsLine(line, part);
    assert Prefix(u, |line|) == line;
    ShortWaits(u, SizeLine(|line|, Stoul16(line).value % TWO_TO_32), body);
  }

  lemma DigitLineIsCrlfFree(line: string)
    requires HexText(line)
    ensures CrlfFree(line)
  {
    forall i | 0 <= i < |line| ensures !CrlfAt(line, i) {
      assert line[i] in "0123456789abcdefABCDEF";
    }
  }

  /** A chunk of ten bytes, its size in a capital letter. */
  lemma CapitalSizeIsRead()
    ensures Decode("A" + "\r\n" + ("0123456789" + "\r\n" + ("0" + "\r\n" + "\r\n")), "")
         == Success(Decoded("0123456789", "", true))
  {
    hide Decode, Stoul16, FindCrlf, CrlfFree, HexText;
    CapitalA();
    var data, end := "0123456789", "0" + "\r\n" + "\r\n";
    ChunkIsTaken("A", data, "\r\n", end, "");
    assert "" + data == data;
    ZeroIsTaken("0", "\r\n", data);
  }

  lemma CapitalA()
    ensures Stoul16("A") == Success(10) && Stoul16("0") == Success(0) && CrlfFree("A") && CrlfFree("0")
  {
    hide Stoul16;
    StoulOfDigit(10);
    StoulOfDigit(0);
    assert "0123456789ABCDEF"[10] == 'A' && "0123456789ABCDEF"[0] == '0';
  }

  /** The encoder, byte for byte: 114 bytes for each full block of 100. */
  lemma {:induction false} EncodedBlocks(body: string, n: nat, i: nat)
    requires 100 * n <= |body| && i < n
    ensures |Wire(Blocks(body, n))| == 114 * n
    ensures Wire(Blocks(body, n))[114 * i..114 * i + 114]
         == "0x00000064\r\n" + body[100 * i..100 * i + 100] + "\r\n"
  {
    hide IntToHex, Wire;
    BlocksSize(body, n);
    BlocksSize(body, n - 1);
    BlocksStep(body, n - 1);
    var front, last := Wire(Blocks(body, n - 1)), body[100 * (n - 1)..100 * n];
    HundredInHex();
    if i < n - 1 {
      EncodedBlocks(body, n - 1, i);
      assert Wire(Blocks(body, n))[114 * i..114 * i + 114] == front[114 * i..114 * i + 114];
    } else {
      assert Wire(Blocks(body, n))[114 * i..114 * i + 114] == "0x00000064" + CRLF + (last + CRLF);
    }
  }

  lemma HundredInHex()
    ensures IntToHex(BLOCK, INT_HEX_WIDTH) == "0x00000064"
  {
    assert Render(100, 16) == Render(6, 16) + [DigitChar(4)];
    assert Render(6, 16) == "6" && Render(100, 16) == "64";
    assert Zeros(6) == "000000" by {
      assert Zeros(3) == "000";
      assert Zeros(4) == "0000";
      assert Zeros(5) == "00000";
    }
  }

  /** Behind the full blocks: the size of the remainder in 16 digits, the remainder, the last-chunk. */
  lemma EncodedEnd(body: string)
    ensures var n := |body| / 100;
            var size := IntToHex(|body| % 100, 16);
            && Encode(body) == Wire(Blocks(body, n)) + (size + "\r\n" + (body[100 * n..] + "\r\n")) + "0\r\n\r\n"
            && |size| == 18 && Stoul16(size) == Success(|body| % 100)
            && size[0] == '0' && size[1] == 'x' && (forall i | 2 <= i < 18 :: size[i] in "0123456789abcdef")
  {
    hide IntToHex, Stoul16, Wire, Blocks;
    HexWidths(|body| % 100);
    StoulOfIntToHex(|body| % 100, 16);
    IntToHexIsHex(|body| % 100, 16);
    assert TERMINATOR == "0\r\n\r\n";
  }

  // ---------------------------------------------------------------- what is read

  lemma FreshParsers()
    ensures FRESH == Response("HTTP/1.1", 0, "", map[], "", "", false, false, false)
    ensures Q.FRESH == Q.Request("", "/", "HTTP/1.1", map[], "", "", false, false, false)
  {
  }

  /** A header line as it should be: no colon in the name, no line break, and, where values are
      trimmed, no blanks around the value. */
  predicate PlainField(name: string, value: string, p: Policy) {
    ':' !in name && CrlfFree(name) && CrlfFree(value) && (p.KeepFirstTrimmed? ==> Trimmed(value))
  }

  lemma OneFieldFolds(name: string, value: string, p: Policy)
    requires PlainField(name, value, p)
    ensures LineOk(name + ": " + value)
    ensures Fold(map[], [name + ": " + value], p) == Success(map[name := value])
    ensures Lines([name + ": " + value]) == name + ": " + value + "\r\n"
  {
    hide AddLine, Trim, CrlfFree;
    var line := name + ": " + value;
    assert line == PrintLine(name, value);
    PrintedLineOk(name, value);
    FieldLine(map[], name, ' ', value);
    assert name + ":" + [' '] + value == line;
    if p.KeepFirstTrimmed? {
      TrimFixed(value);
    }
    assert [line][..0] == [];
    var none: HeaderMap := map[];
    assert none[name := value] == map[name := value];
  }

  /** A response with a counted body, as bytes. */
  lemma CountedResponseIsRead(version: string, code: string, reason: string, length: string, body: string)
    requires ' ' !in version && ' ' !in code && Stoi(code).Success? && CrlfFree(reason)
    requires CrlfFree(length) && Trimmed(length) && Stoi(length) == Success(|body|)
    ensures AppendData(FRESH, version + " " + code + " " + reason + "\r\n" + "Content-Length: " + length + "\r\n"
                              + "\r\n" + body)
         == Success(Response(version, Stoi(code).value, reason, map["Content-Length" := length], body, "",
                             true, true, true))
  {
    hide AppendData, Stoi, CrlfFree, Lines, Fold, LineOk;
    NamesArePlain();
    OneFieldFolds("Content-Length", length, KeepFirstTrimmed);
    var line := "Content-Length" + ": " + length;
    var m := Message(version, code, reason, [line], Sized(body));
    OneShot(m);
    assert MessageWire(m) == StartLine(m) + (line + "\r\n" + "\r\n" + body);
    assert StartLine(m) == version + " " + code + " " + reason + "\r\n";
    assert "Content-Length: " + length == line;
    SixParts(StartLine(m), line, body, "Content-Length: ", length);
  }

  lemma SixParts(start: string, line: string, body: string, name: string, value: string)
    requires line == name + value
    ensures start + name + value + "\r\n" + "\r\n" + body == start + (line + "\r\n" + "\r\n" + body)
  {
  }

  lemma NamesArePlain()
    ensures ':' !in "Content-Length" && CrlfFree("Content-Length")
    ensures ':' !in "Transfer-Encoding" && CrlfFree("Transfer-Encoding")
    ensures CrlfFree("chunked") && Trimmed("chunked")
  {
  }

  /** A chunked response, as bytes, with its chunks as they come. */
  lemma ChunkedResponseIsRead(version: string, code: string, reason: string, cs: seq<Chunk>)
    requires ' ' !in version && ' ' !in code && Stoi(code).Success? && CrlfFree(reason) && ChunksOk(cs)
    ensures AppendData(FRESH, version + " " + code + " " + reason + "\r\n" + "Transfer-Encoding: " + "chunked" + "\r\n"
                              + "\r\n" + (Wire(cs) + "0\r\n\r\n"))
         == Success(Response(version, Stoi(code).value, reason, map["Transfer-Encoding" := "chunked"], Payload(cs), "",
                             true, true, true))
  {
    hide AppendData, Stoi, CrlfFree, Lines, Fold, LineOk, Wire, Payload, ChunksOk;
    NamesArePlain();
    OneFieldFolds("Transfer-Encoding", "chunked", KeepFirstTrimmed);
    var line := "Transfer-Encoding" + ": " + "chunked";
    var m := Message(version, code, reason, [line], Chunks(cs));
    OneShot(m);
    assert TERMINATOR == "0\r\n\r\n";
    var body := Wire(cs) + "0\r\n\r\n";
    assert MessageWire(m) == StartLine(m) + (line + "\r\n" + "\r\n" + body);
    assert StartLine(m) == version + " " + code + " " + reason + "\r\n";
    assert "Transfer-Encoding: " + "chunked" == line;
    SixParts(StartLine(m), line, body, "Transfer-Encoding: ", "chunked");
  }

  // ---------------------------------------------------------------- what is printed

  /** The head of a response, byte for byte; ToStringIsDecimal and PrintedLines say what the code and
      the lines are. */
  lemma ResponseHead(r: Response, order: seq<string>)
    requires Enumerates(order, r.headers)
    ensures CommitHeaders(r, order)
         == "HTTP/1.1 " + ToString(r.code) + " " + r.reason + "\r\n" + Lines(Printed(r.headers, order)) + "\r\n"
  {
    hide Lines, Printed, ToString;
    assert "HTTP/1.1 " == "HTTP/" + HTTP_VERSION + [' '];
  }

  lemma RequestHead(r: Q.Request, order: seq<string>)
    requires Enumerates(order, r.headers)
    ensures QR.CommitHeaders(r, order)
         == r.verb + " " + r.url + " " + r.version + "\r\n" + Lines(Printed(r.headers, order)) + "\r\n"
  {
    hide Lines, Printed;
  }

  predicate IsChunkCoded(r: Response) {
    "Transfer-Encoding" in r.headers && r.headers["Transfer-Encoding"] == "chunked"
  }

  /** Behind the head stands the body, in chunks if the headers say so, otherwise as it is with a line
      break; whatever else the headers say. */
  lemma ResponseBody(r: Response, order: seq<string>)
    requires Enumerates(order, r.headers)
    ensures Commit(r, order) == CommitHeaders(r, order) + if IsChunkCoded(r) then Encode(r.body) else r.body + "\r\n"
  {
    hide CommitHeaders, Encode;
  }

  lemma RequestBody(r: Q.Request, order: seq<string>)
    requires Enumerates(order, r.headers)
    ensures QR.Commit(r, order) == QR.CommitHeaders(r, order) + r.body + "\r\n"
  {
    hide QR.CommitHeaders;
  }

  lemma LastTwo(front: string, body: string)
    ensures var s := front + (body + "\r\n");
            |s| >= 2 && s[|s| - 2..] == "\r\n" && s[..|s| - 2] == front + body
  {
  }

  /** A counted response survives its print but for the last line break: without those two bytes it
      is read back whole. */
  lemma CountedPrintHoldsBody(r: Response, order: seq<string>)
    requires Sound(r) && r.Complete() && Enumerates(order, r.headers)
    requires "Content-Length" in r.headers && !IsChunkCoded(r)
    ensures var s := Commit(r, order);
            && |s| >= 2 && s[|s| - 2..] == "\r\n"
            && AppendData(FRESH, s[..|s| - 2]) == Success(r.(version := "HTTP/1.1", unparsed := ""))
  {
    hide AppendData, CommitHeaders, Commit, Sound, Encode;
    ResponseBody(r, order);
    LastTwo(CommitHeaders(r, order), r.body);
    SoundBodyReadsBack(r, order);
    assert "HTTP/" + HTTP_VERSION == "HTTP/1.1";
  }

  /** The same for a request with a body of the declared length, parsed or composed. */
  lemma RequestPrintHoldsBody(r: Q.Request, order: seq<string>)
    requires QR.Printable(r) && QR.Delimited(r) && Enumerates(order, r.headers)
    ensures var s := QR.Commit(r, order);
            && |s| >= 2 && s[|s| - 2..] == "\r\n"
            && Q.AppendData(Q.FRESH, s[..|s| - 2])
               == Success(r.(unparsed := "", titleParsed := true, headersParsed := true, bodyParsed := true))
  {
    hide Q.AppendData, QR.CommitHeaders, Stoi, Canonical, CrlfFree;
    LastTwo(QR.CommitHeaders(r, order), r.body);
    QR.ReparseIsBodyPhase(r, order, r.body);
    assert "" + r.body == r.body;
  }

  /** A request with one header and a body, as bytes. */
  lemma RequestIsRead(verb: string, url: string, version: string, length: string, body: string)
    requires ' ' !in verb && ' ' !in url && CrlfFree(version)
    requires CrlfFree(length) && Stoi(length) == Success(|body|)
    ensures Q.AppendData(Q.FRESH, verb + " " + url + " " + version + "\r\n" + "Content-Length: " + length + "\r\n"
                                  + "\r\n" + body)
         == Success(Q.Request(verb, url, version, map["Content-Length" := length], body, "", true, true, true))
  {
    hide Q.AppendData, Stoi, CrlfFree, Lines, Fold, LineOk, QR.CommitHeaders;
    NamesArePlain();
    var h: HeaderMap := map["Content-Length" := length];
    var r := Q.Request(verb, url, version, h, body, "", true, true, true);
    var order := ["Content-Length"];
    QR.ReparseIsBodyPhase(r, order, body);
    RequestHead(r, order);
    OneFieldFolds("Content-Length", length, KeepLastRaw);
    OnePrinted(h, "Content-Length", length);
    assert "" + body == body;
    var start := verb + " " + url + " " + version + "\r\n";
    assert "Content-Length" + ": " + length == "Content-Length: " + length;
    FourParts(start, "Content-Length: ", length, body);
    assert QR.CommitHeaders(r, order) + body == start + "Content-Length: " + length + "\r\n" + "\r\n" + body;
  }

  lemma OnePrinted(h: HeaderMap, name: string, value: string)
    requires h == map[name := value]
    ensures Printed(h, [name]) == [name + ": " + value]
  {
    PrintedLines(h, [name]);
  }

  lemma FourParts(start: string, name: string, value: string, body: string)
    ensures start + name + value + "\r\n" + "\r\n" + body == start + (name + value + "\r\n") + "\r\n" + body
  {
  }
}
