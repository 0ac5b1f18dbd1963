/** What a client makes of the responses it is sent, one behind the other on one connection, if it
    reads them as the proxy itself reads a bridge. */
module ClientStream {
  import opened Outcomes
  import opened Numbers
  import opened Headers
  import opened ChunkedCoding
  import opened Responses
  import opened ResponseRelay
  import opened BridgeStream

  /** A parser past its head whose body is longer already than its headers declare. */
  predicate Swallows(p: Response) {
    && p.titleParsed && p.headersParsed && !p.bodyParsed && p.unparsed == ""
    && CONTENT_LENGTH in p.headers
    && var cnt := Stoi(p.headers[CONTENT_LENGTH]);
       cnt.Success? && cnt.value < |p.body|
  }

  /** Such a parser takes everything that comes for body, and hands nothing on. */
  lemma SwallowsOn(p: Response, data: string)
    requires Swallows(p)
    ensures Receive(p, data) == (p.(body := p.body + data), None) && Swallows(Receive(p, data).0)
  {
    hide Stoi, AppendData;
    ContentLengthStep(p, data, Stoi(p.headers[CONTENT_LENGTH]).value);
  }

  /** And so for ever, in whatever fragments. */
  lemma {:induction false} SwallowsAll(p: Response, fs: seq<string>)
    requires Swallows(p)
    ensures ReceiveAll(p, fs).1 == [] && Swallows(ReceiveAll(p, fs).0)
  {
    hide Swallows, Receive;
    if fs != [] {
      SwallowsAll(p, fs[..|fs| - 1]);
      SwallowsOn(ReceiveAll(p, fs[..|fs| - 1]).0, fs[|fs| - 1]);
    }
  }

  /** The print of a counted response leaves a fresh parser swallowing. */
  lemma CountedPrint(r: Response, order: seq<string>)
    requires Sound(r) && r.Complete() && Enumerates(order, r.headers) && CONTENT_LENGTH in r.headers
    ensures Receive(FRESH, Commit(r, order)).1 == None && Swallows(Receive(FRESH, Commit(r, order)).0)
  {
    hide AppendData, CommitHeaders, Encode, Stoi, Canonical;
    ReparseIsBodyPhase(r, order, CommitBody(r));
    EncodedSize(r.body);
    assert "" + CommitBody(r) == CommitBody(r);
  }

  /** The print of any other response is read for what it is, and the parser is as good as new. */
  lemma UncountedPrint(r: Response, order: seq<string>)
    requires Sound(r) && r.Complete() && Enumerates(order, r.headers) && CONTENT_LENGTH !in r.headers
    ensures var (p, done) := Receive(FRESH, Commit(r, order));
            p == FRESH && done.Some? && SameMeaning(r, done.value)
  {
    hide AppendData, Commit, Sound;
    SoundRelay(r, order);
  }

  // ---------------------------------------------------------------- a list of responses

  /** Each response can be printed, its headers in the order given for it. */
  predicate Printable(rs: seq<Response>, orders: seq<seq<string>>) {
    && |rs| == |orders|
    && forall i | 0 <= i < |rs| :: Sound(rs[i]) && rs[i].Complete() && Enumerates(orders[i], rs[i].headers)
  }

  /** The prints, one fragment each. */
  function Prints(rs: seq<Response>, orders: seq<seq<string>>): (fs: seq<string>)
    requires Printable(rs, orders)
    ensures |fs| == |rs|
  {
    if rs == [] then []
    else
      var n := |rs| - 1;
      assert Printable(rs[..n], orders[..n]);
      Prints(rs[..n], orders[..n]) + [Commit(rs[n], orders[n])]
  }

  /** How many responses come before the first with a Content-Length: all, if there is none. */
  function Uncounted(rs: seq<Response>): (n: nat)
    ensures n <= |rs| && forall i | 0 <= i < n :: CONTENT_LENGTH !in rs[i].headers
    ensures n < |rs| ==> CONTENT_LENGTH in rs[n].headers
  {
    if rs == [] then 0
    else
      var n, last := Uncounted(rs[..|rs| - 1]), rs[|rs| - 1];
      if n < |rs| - 1 || CONTENT_LENGTH in last.headers then n else n + 1
  }

  /** The same responses, as far as meaning goes. */
  predicate SameMeanings(sent: seq<Response>, got: seq<Response>) {
    |sent| == |got| && forall i | 0 <= i < |got| :: SameMeaning(sent[i], got[i])
  }

  lemma OneMorePrint(rs: seq<Response>, orders: seq<seq<string>>)
    requires Printable(rs, orders) && rs != []
    ensures var n := |rs| - 1;
            && Printable(rs[..n], orders[..n])
            && var (p, got) := ReceiveAll(FRESH, Prints(rs[..n], orders[..n]));
               var (p', done) := Receive(p, Commit(rs[n], orders[n]));
               ReceiveAll(FRESH, Prints(rs, orders)) == (p', got + AsSeq(done))
  {
    hide Sound, Commit, Receive, Enumerates;
    var n := |rs| - 1;
    assert Printable(rs[..n], orders[..n]);
    var fs := Prints(rs, orders);
    assert fs[..n] == Prints(rs[..n], orders[..n]);
  }

  lemma UncountedSnoc(rs: seq<Response>)
    requires rs != []
    ensures var n := |rs| - 1;
            Uncounted(rs) == if Uncounted(rs[..n]) == n && CONTENT_LENGTH !in rs[n].headers then n + 1
                             else Uncounted(rs[..n])
  {
  }

  lemma OneMoreMeaning(rs: seq<Response>, got: seq<Response>, r: Response)
    requires rs != [] && SameMeanings(rs[..|rs| - 1], got) && SameMeaning(rs[|rs| - 1], r)
    ensures SameMeanings(rs, got + [r])
  {
    hide SameMeaning;
  }

  lemma FreshIsNotSwallowing()
    ensures !Swallows(FRESH)
  {
  }

  /** What a client reads of a list of responses on one connection: exactly those before the first
      that has a Content-Length, each with its meaning.  That one and all behind it are lost, without
      an exception; the parser is ready for more if and only if there is none. */
  lemma {:induction false} ClientReads(rs: seq<Response>, orders: seq<seq<string>>)
    requires Printable(rs, orders)
    ensures var (p, got) := ReceiveAll(FRESH, Prints(rs, orders));
            && SameMeanings(rs[..Uncounted(rs)], got)
            && (p == FRESH <==> Uncounted(rs) == |rs|) && (p != FRESH ==> Swallows(p))
  {
    FreshIsNotSwallowing();
    hide Sound, Commit, Receive, Swallows, SameMeanings, SameMeaning, Uncounted, ReceiveAll, Enumerates;
    if rs == [] {
      NothingRead();
      assert rs[..Uncounted(rs)] == [];
    } else {
      var n := |rs| - 1;
      var init, os := rs[..n], orders[..n];
      OneMorePrint(rs, orders);
      ClientReads(init, os);
      UncountedSnoc(rs);
      var (p, got) := ReceiveAll(FRESH, Prints(init, os));
      NoneAdded(got);
      if Uncounted(init) < n {
        SwallowsOn(p, Commit(rs[n], orders[n]));
        assert rs[..Uncounted(init)] == init[..Uncounted(init)];
      } else if CONTENT_LENGTH in rs[n].headers {
        CountedPrint(rs[n], orders[n]);
        assert init[..n] == init;
      } else {
        UncountedPrint(rs[n], orders[n]);
        assert init[..n] == init && rs[..|rs|] == rs;
        OneMoreMeaning(rs, got, Receive(FRESH, Commit(rs[n], orders[n])).1.value);
      }
    }
  }

  lemma NothingRead()
    ensures ReceiveAll(FRESH, []) == (FRESH, []) && SameMeanings([], [])
  {
  }

  /** What a bridge hands on can be printed, and has a Content-Length exactly if its sender counted
      the body. */
  lemma SentIsPrintable(s: Sent, order: seq<string>)
    requires SentOk(s) && Enumerates(order, HeaderFold(s.message))
    ensures Sound(Meaning(s)) && Meaning(s).Complete() && Enumerates(order, Meaning(s).headers)
    ensures CONTENT_LENGTH in Meaning(s).headers <==> s.message.body.Sized?
  {
    hide Feed, Sound, HeadOk, Enumerates, QuietCuts, Stoi, ChunksOk, Fold;
    CutIndependence(s.message, s.fragments);
    FeedIsSound(s.fragments);
  }

  lemma MeaningsArePrintable(ss: seq<Sent>, orders: seq<seq<string>>)
    requires |ss| == |orders| && forall s | s in ss :: SentOk(s)
    requires forall i | 0 <= i < |ss| :: SentOk(ss[i]) && Enumerates(orders[i], HeaderFold(ss[i].message))
    ensures Printable(Meanings(ss), orders)
    ensures forall i | 0 <= i < |ss| :: CONTENT_LENGTH in Meanings(ss)[i].headers <==> ss[i].message.body.Sized?
  {
    hide Sound, Enumerates, SentOk, Meaning, Meanings, HeaderFold;
    forall i | 0 <= i < |ss|
      ensures var r := Meanings(ss)[i];
              && Sound(r) && r.Complete() && Enumerates(orders[i], r.headers)
              && (CONTENT_LENGTH in r.headers <==> ss[i].message.body.Sized?)
    {
      MeaningsAt(ss, i);
      SentIsPrintable(ss[i], orders[i]);
    }
  }
}
