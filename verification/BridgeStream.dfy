/** What the data handler of a bridge makes of the stream it reads: responses handed on, and a
    parser that starts afresh after each one, and after each exception. */
module BridgeStream {
  import opened Outcomes
  import opened Responses

  /** The parser after one fragment, and the response that was completed, if any. */
  function Receive(parser: Response, data: string): (Response, Option<Response>) {
    match AppendData(parser, data)
    case Success(r) => if r.Complete() then (FRESH, Some(r)) else (r, None)
    case Failure(_) => (FRESH, None)
  }

  function AsSeq<T>(o: Option<T>): seq<T> {
    if o.Some? then [o.value] else []
  }

  /** The parser and all responses handed on after a list of fragments. */
  function ReceiveAll(parser: Response, fs: seq<string>): (Response, seq<Response>) {
    if fs == [] then (parser, [])
    else
      var (p, out) := ReceiveAll(parser, fs[..|fs| - 1]);
      var (p', o) := Receive(p, fs[|fs| - 1]);
      (p', out + AsSeq(o))
  }

  lemma NoneAdded(rs: seq<Response>)
    ensures rs + AsSeq(None) == rs
  {
  }

  lemma {:induction false} ReceiveAllAppend(parser: Response, a: seq<string>, b: seq<string>)
    ensures var (p, out) := ReceiveAll(parser, a);
            var (p', out') := ReceiveAll(p, b);
            ReceiveAll(parser, a + b) == (p', out + out')
  {
    hide Receive;
    var (p, out) := ReceiveAll(parser, a);
    if b == [] {
      assert a + b == a && out + [] == out;
    } else {
      var init := b[..|b| - 1];
      ReceiveAllAppend(parser, a, init);
      assert (a + b)[..|a + b| - 1] == a + init;
      var (p1, out1) := ReceiveAll(p, init);
      var o := Receive(p1, b[|b| - 1]).1;
      assert out + out1 + AsSeq(o) == out + (out1 + AsSeq(o));
    }
  }

  /** As long as nothing completes, the handler only feeds its parser. */
  lemma {:induction false} ReceivingIsFeeding(fs: seq<string>)
    requires forall i | 1 <= i <= |fs| :: Feed(FRESH, fs[..i]).Success? && !Feed(FRESH, fs[..i]).value.Complete()
    ensures Feed(FRESH, fs).Success? && ReceiveAll(FRESH, fs) == (Feed(FRESH, fs).value, [])
  {
    hide AppendData;
    if fs != [] {
      var init := fs[..|fs| - 1];
      forall i | 1 <= i <= |init|
        ensures Feed(FRESH, init[..i]).Success? && !Feed(FRESH, init[..i]).value.Complete()
      {
        assert init[..i] == fs[..i];
      }
      ReceivingIsFeeding(init);
      assert fs[..|fs|] == fs;
      assert Feed(FRESH, fs[..|fs|]).Success? && !Feed(FRESH, fs[..|fs|]).value.Complete();
      assert Receive(Feed(FRESH, init).value, fs[|fs| - 1]) == (Feed(FRESH, fs).value, None);
      var none: Option<Response> := None;
      assert [] + AsSeq(none) == [];
    }
  }

  /** One message, quietly cut: it is handed on once, at its last fragment, with its own meaning,
      and the parser is as good as new. */
  lemma OneMessage(m: Message, fs: seq<string>)
    requires MessageOk(m) && QuietCuts(m, fs)
    ensures ReceiveAll(FRESH, fs) == (FRESH, [Completed(m)])
  {
    hide AppendData, HeadOk, BodyOk, QuietCuts;
    QuietCutsAreNotEmpty(m, fs);
    CutIndependence(m, fs);
    var init := fs[..|fs| - 1];
    forall i | 1 <= i <= |init|
      ensures Feed(FRESH, init[..i]).Success? && !Feed(FRESH, init[..i]).value.Complete()
    {
      assert init[..i] == fs[..i];
    }
    ReceivingIsFeeding(init);
    CompletedIsComplete(m);
    assert [] + [Completed(m)] == [Completed(m)];
  }

  lemma QuietCutsAreNotEmpty(m: Message, fs: seq<string>)
    requires QuietCuts(m, fs)
    ensures fs != []
  {
  }

  lemma CompletedIsComplete(m: Message)
    requires MessageOk(m)
    ensures Completed(m).Complete()
  {
  }

  /** Messages on one connection, each with the fragments it arrives in; every boundary between
      messages is a cut. */
  datatype Sent = Sent(message: Message, fragments: seq<string>)

  predicate SentOk(s: Sent) {
    MessageOk(s.message) && QuietCuts(s.message, s.fragments)
  }

  function Arrivals(ss: seq<Sent>): seq<string> {
    if ss == [] then [] else Arrivals(ss[..|ss| - 1]) + ss[|ss| - 1].fragments
  }

  function Meaning(s: Sent): Response
    requires SentOk(s)
  {
    Completed(s.message)
  }

  function Meanings(ss: seq<Sent>): (rs: seq<Response>)
    requires forall s | s in ss :: SentOk(s)
    ensures |rs| == |ss|
  {
    if ss == [] then []
    else
      assert forall s | s in ss[..|ss| - 1] :: s in ss;
      Meanings(ss[..|ss| - 1]) + [Meaning(ss[|ss| - 1])]
  }

  lemma {:induction false} MeaningsAt(ss: seq<Sent>, i: nat)
    requires (forall s | s in ss :: SentOk(s)) && i < |ss|
    ensures SentOk(ss[i]) && Meanings(ss)[i] == Meaning(ss[i])
  {
    hide SentOk, Meaning;
    assert ss[i] in ss;
    if i < |ss| - 1 {
      MeaningsAt(ss[..|ss| - 1], i);
    }
  }

  /** In-order delivery: for every keep-alive sequence of well-formed responses, however each one is
      quietly cut, the handler hands on exactly one response per message, in order, each with that
      message's status, headers and body, and ends with a fresh parser. */
  lemma {:induction false} InOrderDelivery(ss: seq<Sent>)
    requires forall s | s in ss :: SentOk(s)
    ensures ReceiveAll(FRESH, Arrivals(ss)) == (FRESH, Meanings(ss))
  {
    hide ReceiveAll, SentOk, Meaning;
    if ss == [] {
      NothingReceived();
    } else {
      var init, last := ss[..|ss| - 1], ss[|ss| - 1];
      InOrderDelivery(init);
      assert SentOk(last);
      SentIsReceived(last);
      ReceiveAllAppend(FRESH, Arrivals(init), last.fragments);
    }
  }

  lemma NothingReceived()
    ensures ReceiveAll(FRESH, []) == (FRESH, [])
  {
  }

  lemma SentIsReceived(s: Sent)
    requires SentOk(s)
    ensures ReceiveAll(FRESH, s.fragments) == (FRESH, [Meaning(s)])
  {
    hide ReceiveAll, MessageOk, QuietCuts;
    OneMessage(s.message, s.fragments);
  }

  // ---------------------------------------------------------------- the parser between fragments

  /** A parser that has not completed its message is never asked to go on after it: it stays
      incomplete, so that the phase loop always terminates. */
  lemma ReceiveStaysIncomplete(parser: Response, data: string)
    requires !parser.bodyParsed
    ensures !Receive(parser, data).0.bodyParsed
    ensures AppendData(parser, data) != Failure(NeverReturns)
  {
    hide HeadPhases, BodyPhase;
    HeadNeverSpins(parser.Extended(data));
    var h := HeadPhases(parser.Extended(data));
    if h.Success? {
      HeadKeepsFlags(parser.Extended(data));
      if h.value.headersParsed {
        BodyNeverSpins(h.value);
        if BodyPhase(h.value).Success? {
          BodyKeepsFlags(h.value);
        }
      }
    }
  }
}
