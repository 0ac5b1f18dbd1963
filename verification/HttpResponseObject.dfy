/** The response object of the program: fields that `parse` and `commit` update in place, proved to
    do what the functions on parser states say. */
module HttpResponseObject {
  import opened Outcomes
  import opened Text
  import opened Numbers
  import opened Headers
  import opened ChunkedCoding
  import R = Responses
  import Relay = ResponseRelay
  import W = WireFormat

  class HttpResponse {
    var version: string
    var code: int
    var reason: string
    var headers: HeaderMap
    var body: string
    var unparsed: string
    var titleParsed: bool
    var headersParsed: bool
    var bodyParsed: bool

    /** The fields, as a value. */
    function State(): R.Response
      reads this
    {
      R.Response(version, code, reason, headers, body, unparsed, titleParsed, headersParsed, bodyParsed)
    }

    predicate IsComplete()
      reads this
    {
      titleParsed && headersParsed && bodyParsed
    }

    /** The body flag goes up last. */
    predicate Valid()
      reads this
    {
      bodyParsed ==> IsComplete()
    }

    constructor ()
      ensures State() == R.FRESH && Valid()
    {
      version, code, reason := "HTTP/" + HTTP_VERSION, 0, "";
      headers, body, unparsed := map[], "", "";
      titleParsed, headersParsed, bodyParsed := false, false, false;
    }

    /** A copy of a parser kept as a value. */
    constructor Copy(r: R.Response)
      ensures State() == r
    {
      version, code, reason := r.version, r.code, r.reason;
      headers, body, unparsed := r.headers, r.body, r.unparsed;
      titleParsed, headersParsed, bodyParsed := r.titleParsed, r.headersParsed, r.bodyParsed;
    }

    /** headers.insert: an existing name keeps its value. */
    method AddHeader(name: string, value: string)
      modifies this`headers
      ensures headers == Insert(old(headers), name, value, KeepFirstTrimmed)
    {
      if name !in headers {
        headers := headers[name := value];
      }
    }

    /** Adds a fragment and parses on.  The caller must not do this to a complete message, which
        would never return. */
    method AppendData(data: string) returns (error: Option<Error>)
      requires Valid() && !IsComplete()
      modifies this
      ensures error.None? ==> Valid() && R.AppendData(old(State()), data) == Success(State())
      ensures error.Some? ==> R.AppendData(old(State()), data) == Failure(error.value)
    {
      unparsed := unparsed + data;
      error := Parse();
    }

    method ParseTitle() returns (error: Option<Error>)
      requires !titleParsed
      modifies this
      ensures error.None? ==> R.TitlePhase(old(State())) == Success(State())
      ensures error.Some? ==> R.TitlePhase(old(State())) == Failure(error.value)
    {
      hide Find, FindCrlf, Stoi, Prefix, Substr, From;
      var sp := Find(unparsed, ' ');
      version := Prefix(unparsed, sp);
      unparsed := From(unparsed, sp + 1);
      var sp1 := Find(unparsed, ' ');
      var parsed := Stoi(Prefix(unparsed, sp1));
      if parsed.Failure? {
        return Some(parsed.error);
      }
      unparsed := From(unparsed, sp1 + 1);
      var eol := FindCrlf(unparsed);
      var newReason := Prefix(unparsed, eol);
      var rest := Substr(unparsed, eol + 2);
      if rest.Failure? {
        return Some(rest.error);
      }
      unparsed := rest.value;
      code, reason := parsed.value, newReason;
      titleParsed := true;
      error := None;
    }

    /** The phase loop. */
    method Parse() returns (error: Option<Error>)
      requires Valid() && !IsComplete()
      modifies this
      ensures error.None? ==> Valid() && R.Parse(old(State())) == Success(State())
      ensures error.Some? ==> R.Parse(old(State())) == Failure(error.value)
    {
      hide R.ReadTitle, R.BodyPhase, SplitLine, Trim, FindCrlf;
      while true
        invariant !bodyParsed
        invariant R.Parse(State()) == R.Parse(old(State()))
        decreases !titleParsed, !headersParsed, |unparsed|
      {
        if !titleParsed {
          error := ParseTitle();
          if error.Some? {
            return;
          }
        } else if !headersParsed {
          var next := FindCrlf(unparsed);
          if next == 0 {
            headersParsed := true;
            unparsed := unparsed[2..];
          } else if next == NPOS {
            break;
          } else {
            var curr := unparsed[..next];
            unparsed := unparsed[next + 2..];
            var split := SplitLine(curr);
            if split.Failure? {
              return Some(split.error);
            }
            AddHeader(split.value.0, Trim(split.value.1));
          }
        } else if !bodyParsed {
          error := ParseBody();
          return;
        }
      }
      error := None;
    }

    /** The body phase: a counted body, a chunked one, one whose coding is unknown, or none. */
    method ParseBody() returns (error: Option<Error>)
      requires titleParsed && headersParsed && !bodyParsed
      modifies this
      ensures error.None? ==> Valid() && R.BodyPhase(old(State())) == Success(State())
      ensures error.Some? ==> R.BodyPhase(old(State())) == Failure(error.value)
    {
      hide Stoi, Decode;
      error := None;
      if CONTENT_LENGTH in headers {
        var cnt := Stoi(headers[CONTENT_LENGTH]);
        if cnt.Failure? {
          return Some(cnt.error);
        }
        body := body + unparsed;
        unparsed := "";
        if cnt.value == |body| {
          bodyParsed := true;
        }
      } else if R.TRANSFER_ENCODING in headers {
        if headers[R.TRANSFER_ENCODING] == R.CHUNKED {
          error := DecodeChunks();
        }
      } else {
        bodyParsed := true;
      }
    }

    /** The chunk loop: `unparsed` shrinks at every turn that does not leave it. */
    method DecodeChunks() returns (error: Option<Error>)
      requires !bodyParsed
      modifies this
      ensures error.None? ==> Decode(old(unparsed), old(body)) == Success(Decoded(body, unparsed, bodyParsed))
      ensures error.Some? ==> Decode(old(unparsed), old(body)) == Failure(error.value)
      ensures State() == old(State()).(body := body, unparsed := unparsed, bodyParsed := bodyParsed)
    {
      hide Stoul16, FindCrlf, Prefix, Substr, Needed;
      while true
        invariant !bodyParsed
        invariant Decode(unparsed, body) == Decode(old(unparsed), old(body))
        invariant State() == old(State()).(body := body, unparsed := unparsed, bodyParsed := bodyParsed)
        decreases |unparsed|
      {
        if |unparsed| == 0 {
          break;
        }
        var eol := FindCrlf(unparsed);
        var parsed := Stoul16(Prefix(unparsed, eol));
        if parsed.Failure? {
          return Some(parsed.error);
        }
        var chunkSize := parsed.value % TWO_TO_32;
        if chunkSize == 0 {
          var rest := Substr(unparsed, eol + 4);
          if rest.Failure? {
            return Some(rest.error);
          }
          unparsed := rest.value;
          bodyParsed := true;
          break;
        }
        var temp := From(unparsed, eol + 2);
        if |temp| < Needed(chunkSize) {
          break;
        }
        body := body + Prefix(temp, chunkSize);
        unparsed := temp[Needed(chunkSize)..];
      }
      error := None;
    }

    /** Status line and headers; `order` is the order in which the map lists its keys. */
    method CommitHeaders(order: seq<string>) returns (ret: string)
      requires Enumerates(order, headers)
      ensures ret == Relay.CommitHeaders(State(), order)
      ensures ret == "HTTP/1.1 " + ToString(code) + " " + reason + "\r\n" + Lines(Printed(headers, order)) + "\r\n"
    {
      hide Lines, Printed, ToString;
      ret := "HTTP/" + HTTP_VERSION + " " + ToString(code) + " " + reason + CRLF;
      ghost var m := Relay.PrintedHead(State(), order);
      assert ret == R.StartLine(m);
      ret := PrintHeaders(ret, headers, order);
      assert ret == R.StartLine(m) + (Lines(m.lines) + CRLF);
      W.ResponseHead(State(), order);
    }

    /** Head and body.  Looking the coding up by operator[] leaves an empty Transfer-Encoding in
        the map when there was none. */
    method Commit(order: seq<string>) returns (ret: string)
      requires Enumerates(order, headers)
      modifies this`headers
      ensures ret == Relay.Commit(old(State()), order)
      ensures ret == Relay.CommitHeaders(old(State()), order)
                     + if W.IsChunkCoded(old(State())) then Encode(body) else body + "\r\n"
      ensures headers == if R.TRANSFER_ENCODING in old(headers) then old(headers)
                         else old(headers)[R.TRANSFER_ENCODING := ""]
    {
      hide Encode, Relay.CommitHeaders, Lines, Printed, ToString;
      W.ResponseBody(State(), order);
      ret := CommitHeaders(order);
      ghost var head := ret;
      if R.TRANSFER_ENCODING !in headers {
        headers := headers[R.TRANSFER_ENCODING := ""];
      }
      if headers[R.TRANSFER_ENCODING] != R.CHUNKED {
        ret := ret + body;
        ret := ret + CRLF;
        assert ret == head + (body + CRLF);
      } else {
        ret := EncodeBody(ret, body);
      }
    }
  }
}
