/** The request object of the program, proved against the functions on parser states. */
module HttpRequestObject {
  import opened Outcomes
  import opened Text
  import opened Numbers
  import opened Headers
  import Q = Requests
  import Relay = RequestRelay
  import W = WireFormat

  class HttpRequest {
    var verb: string
    var url: string
    var version: string
    var headers: HeaderMap
    var body: string
    var unparsed: string
    var titleParsed: bool
    var headersParsed: bool
    var bodyParsed: bool

    /** The fields, as a value. */
    function State(): Q.Request
      reads this
    {
      Q.Request(verb, url, version, headers, body, unparsed, titleParsed, headersParsed, bodyParsed)
    }

    predicate IsComplete()
      reads this
    {
      titleParsed && headersParsed && bodyParsed
    }

    /** The body flag goes up last. */
    predicate Valid()
      reads this
    {
      bodyParsed ==> IsComplete()
    }

    constructor ()
      ensures State() == Q.FRESH && Valid()
    {
      verb, url, version := "", "/", "HTTP/" + HTTP_VERSION;
      headers, body, unparsed := map[], "", "";
      titleParsed, headersParsed, bodyParsed := false, false, false;
    }

    /** A copy of a parser kept as a value. */
    constructor Copy(r: Q.Request)
      ensures State() == r
    {
      verb, url, version := r.verb, r.url, r.version;
      headers, body, unparsed := r.headers, r.body, r.unparsed;
      titleParsed, headersParsed, bodyParsed := r.titleParsed, r.headersParsed, r.bodyParsed;
    }

    /** headers[name] = value: a repeated name takes the new value. */
    method AddHeader(name: string, value: string)
      modifies this`headers
      ensures headers == Insert(old(headers), name, value, KeepLastRaw)
    {
      headers := headers[name := value];
    }

    method AppendData(data: string) returns (error: Option<Error>)
      requires Valid() && !IsComplete()
      modifies this
      ensures error.None? ==> Valid() && Q.AppendData(old(State()), data) == Success(State())
      ensures error.Some? ==> Q.AppendData(old(State()), data) == Failure(error.value)
    {
      unparsed := unparsed + data;
      error := Parse();
    }

    method ParseTitle() returns (error: Option<Error>)
      requires !titleParsed
      modifies this
      ensures error.None? ==> Q.TitlePhase(old(State())) == Success(State())
      ensures error.Some? ==> Q.TitlePhase(old(State())) == Failure(error.value)
    {
      hide Find, FindCrlf, Prefix, Substr, From;
      ghost var u0 := unparsed;
      var sp := Find(unparsed, ' ');
      verb := Prefix(unparsed, sp);
      unparsed := From(unparsed, sp + 1);
      var sp1 := Find(unparsed, ' ');
      url := Prefix(unparsed, sp1);
      unparsed := From(unparsed, sp1 + 1);
      var eol := FindCrlf(unparsed);
      version := Prefix(unparsed, eol);
      var rest := Substr(unparsed, eol + 2);
      assert Q.ReadTitle(u0) == if rest.Failure? then Failure(rest.error)
                                else Success(Q.Title(verb, url, version, rest.value));
      hide Q.ReadTitle;
      if rest.Failure? {
        return Some(rest.error);
      }
      unparsed := rest.value;
      titleParsed := true;
      error := None;
    }

    /** The phase loop. */
    method Parse() returns (error: Option<Error>)
      requires Valid() && !IsComplete()
      modifies this
      ensures error.None? ==> Valid() && Q.Parse(old(State())) == Success(State())
      ensures error.Some? ==> Q.Parse(old(State())) == Failure(error.value)
    {
      hide Q.ReadTitle, SplitLine, FindCrlf, Stoi;
      while true
        invariant !bodyParsed
        invariant Q.Parse(State()) == Q.Parse(old(State()))
        decreases !titleParsed, !headersParsed, |unparsed|
      {
        if !titleParsed {
          error := ParseTitle();
          if error.Some? {
            return;
          }
        } else if !headersParsed {
          var next := FindCrlf(unparsed);
          if next == 0 {
            headersParsed := true;
            unparsed := unparsed[2..];
          } else if next == NPOS {
            break;
          } else {
            var curr := unparsed[..next];
            unparsed := unparsed[next + 2..];
            var split := SplitLine(curr);
            if split.Failure? {
              return Some(split.error);
            }
            AddHeader(split.value.0, split.value.1);
          }
        } else if !bodyParsed {
          if CONTENT_LENGTH in headers {
            var cnt := Stoi(headers[CONTENT_LENGTH]);
            if cnt.Failure? {
              return Some(cnt.error);
            }
            body := body + unparsed;
            unparsed := "";
            if cnt.value == |body| {
              bodyParsed := true;
            }
          } else {
            bodyParsed := true;
          }
          return None;
        }
      }
      error := None;
    }

    /** Request line and headers; `order` is the order in which the map lists its keys. */
    method CommitHeaders(order: seq<string>) returns (ret: string)
      requires Enumerates(order, headers)
      ensures ret == Relay.CommitHeaders(State(), order)
      ensures ret == verb + " " + url + " " + version + "\r\n" + Lines(Printed(headers, order)) + "\r\n"
    {
      hide Lines, Printed;
      ret := verb + " " + url + " " + version + CRLF;
      assert ret == Relay.RequestLine(State());
      ret := PrintHeaders(ret, headers, order);
      assert ret == Relay.RequestLine(State()) + (Lines(Printed(headers, order)) + CRLF);
      W.RequestHead(State(), order);
    }

    /** Head, body and one more CRLF. */
    method Commit(order: seq<string>) returns (ret: string)
      requires Enumerates(order, headers)
      ensures ret == Relay.Commit(State(), order)
      ensures ret == Relay.CommitHeaders(State(), order) + body + "\r\n"
    {
      hide Relay.CommitHeaders, Lines, Printed;
      ret := CommitHeaders(order);
      ghost var head := ret;
      ret := ret + body;
      ret := ret + CRLF;
      assert ret == head + (body + CRLF);
    }
  }
}
