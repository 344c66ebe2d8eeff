/** The dispatcher loop of `main` in main.go. The frontier `items` is a FIFO list seeded
    with the domain root. Each iteration pops the head into `next`. When `next` is empty
    the dispatcher can only wait for a batch. Otherwise it races sending `next` to a
    worker against receiving a batch. The channels are not modelled: each iteration is
    driven by the event that won, `Sent` or `Received(batch)`. */
module Dispatcher {
  import opened GoStrings
  import opened Seqs
  import Scrape
  import opened Wrappers

  /** The outcome of one iteration's wait. */
  datatype Event = Sent | Received(batch: seq<string>)

  /** The frontier the loop starts from: the domain root with the secure scheme. */
  function Seed(parent: string): string {
    "https://" + parent
  }

  /** The frontier with its head popped; empty stays empty. */
  function Tail(items: seq<string>): seq<string> {
    if items == [] then [] else items[1..]
  }

  /** The head that one iteration pops, as a sequence of zero or one URL. */
  function Head(items: seq<string>): seq<string> {
    if items == [] then [] else [items[0]]
  }

  /** The hrefs one event delivers. */
  function Delivered(ev: Event): seq<string> {
    if ev.Received? then ev.batch else []
  }

  /** The offering regime: the popped `next` is a non-empty string, so it can be sent.
      Otherwise (empty frontier, or an empty string at its head) the loop starves. */
  predicate Offering(items: seq<string>) {
    items != [] && items[0] != ""
  }

  /** The frontier after one iteration. Whatever the regime, the head is popped first;
      a received batch is appended behind what is left, so the popped head is not put
      back. `Sent` can only win in the offering regime. */
  function Next(items: seq<string>, ev: Event): seq<string>
    requires ev.Sent? ==> Offering(items)
  {
    match ev
    case Sent => items[1..]
    case Received(batch) => Tail(items) + batch
  }

  /** The events can occur in this order: `Sent` only ever wins when something is offered. */
  predicate Feasible(items: seq<string>, evs: seq<Event>)
    decreases |evs|
  {
    evs == [] || ((evs[0].Sent? ==> Offering(items)) && Feasible(Next(items, evs[0]), evs[1..]))
  }

  /** All the hrefs the events deliver, in arrival order. */
  function Batches(evs: seq<Event>): seq<string> {
    if evs == [] then []
    else Delivered(evs[0]) + Batches(evs[1..])
  }

  /** The frontier after all the events. */
  function Frontier(items: seq<string>, evs: seq<Event>): seq<string>
    requires Feasible(items, evs)
    decreases |evs|
  {
    if evs == [] then items else Frontier(Next(items, evs[0]), evs[1..])
  }

  /** The heads popped off the frontier, in order, whether they were sent or not. */
  function Popped(items: seq<string>, evs: seq<Event>): seq<string>
    requires Feasible(items, evs)
    decreases |evs|
  {
    if evs == [] then []
    else Head(items) + Popped(Next(items, evs[0]), evs[1..])
  }

  /** The URLs handed to workers, in order. */
  function Dispatched(items: seq<string>, evs: seq<Event>): seq<string>
    requires Feasible(items, evs)
    decreases |evs|
  {
    if evs == [] then []
    else (if evs[0].Sent? then [items[0]] else []) + Dispatched(Next(items, evs[0]), evs[1..])
  }

  /** Every `Received` event finds the frontier empty, so no popped head is lost. */
  predicate ReceivesOnlyWhenEmpty(items: seq<string>, evs: seq<Event>)
    requires Feasible(items, evs)
    decreases |evs|
  {
    evs == [] || ((evs[0].Received? ==> items == []) && ReceivesOnlyWhenEmpty(Next(items, evs[0]), evs[1..]))
  }

  /** Proof hint for `FifoOrder`: one iteration moves the head out of the frontier and the
      delivered hrefs into it. */
  lemma StepMoves(items: seq<string>, ev: Event)
    requires ev.Sent? ==> Offering(items)
    ensures items + Delivered(ev) == Head(items) + Next(items, ev)
  {
    if items != [] {
      assert items == [items[0]] + items[1..];
    }
  }

  /** Putting the same front on both sides of an equation of concatenations keeps it. */
  lemma PrependBoth(h: seq<string>, a: seq<string>, b: seq<string>, c: seq<string>, d: seq<string>)
    requires a + b == c + d
    ensures (h + a) + b == (h + c) + d
  {
    assert (h + a) + b == h + (a + b);
    assert (h + c) + d == h + (c + d);
  }

  /** FIFO: the frontier is a queue. What went in (the initial frontier, then every batch
      in arrival order) is exactly what was popped followed by what is still pending. */
  lemma {:induction false} FifoOrder(items: seq<string>, evs: seq<Event>)
    requires Feasible(items, evs)
    ensures items + Batches(evs) == Popped(items, evs) + Frontier(items, evs)
    decreases |evs|
  {
    if evs != [] {
      var ev, rest := evs[0], evs[1..];
      var next := Next(items, ev);
      assert items + Batches(evs) == (Head(items) + next) + Batches(rest) by {
        StepMoves(items, ev);
        assert Batches(evs) == Delivered(ev) + Batches(rest);
        assert items + (Delivered(ev) + Batches(rest)) == (items + Delivered(ev)) + Batches(rest);
      }
      assert Popped(items, evs) + Frontier(items, evs) == (Head(items) + Popped(next, rest)) + Frontier(next, rest);
      assert (Head(items) + next) + Batches(rest) == (Head(items) + Popped(next, rest)) + Frontier(next, rest) by {
        FifoOrder(next, rest);
        PrependBoth(Head(items), next, Batches(rest), Popped(next, rest), Frontier(next, rest));
      }
    }
  }

  /** The dispatched URLs are popped heads, in the order they were popped. */
  lemma {:induction false} DispatchedInOrder(items: seq<string>, evs: seq<Event>)
    requires Feasible(items, evs)
    ensures Subseq(Dispatched(items, evs), Popped(items, evs))
    ensures |Dispatched(items, evs)| <= |Popped(items, evs)|
    ensures forall i :: 0 <= i < |Dispatched(items, evs)| ==> Dispatched(items, evs)[i] != ""
    decreases |evs|
  {
    if evs != [] {
      var next := Next(items, evs[0]);
      DispatchedInOrder(next, evs[1..]);
      var d, p := Dispatched(items, evs), Popped(items, evs);
      if evs[0].Sent? {
        assert d == [items[0]] + Dispatched(next, evs[1..]);
        assert p == [items[0]] + Popped(next, evs[1..]);
        assert d[1..] == Dispatched(next, evs[1..]) && p[1..] == Popped(next, evs[1..]);
      } else if items != [] {
        assert p == [items[0]] + Popped(next, evs[1..]);
        assert p[1..] == Popped(next, evs[1..]);
        assert d == Dispatched(next, evs[1..]);
        assert Subseq(d, p[1..]);
      } else {
        assert d == Dispatched(next, evs[1..]) && p == Popped(next, evs[1..]);
      }
    }
  }

  /** Nothing is lost exactly when no batch arrives while the frontier is non-empty:
      a batch received in the offering regime drops the head that was popped for it. */
  lemma {:induction false} LosslessIff(items: seq<string>, evs: seq<Event>)
    requires Feasible(items, evs)
    ensures Dispatched(items, evs) == Popped(items, evs) <==> ReceivesOnlyWhenEmpty(items, evs)
    decreases |evs|
  {
    if evs != [] {
      var next := Next(items, evs[0]);
      LosslessIff(next, evs[1..]);
      DispatchedInOrder(next, evs[1..]);
      var d, p := Dispatched(items, evs), Popped(items, evs);
      var d', p' := Dispatched(next, evs[1..]), Popped(next, evs[1..]);
      if evs[0].Sent? {
        assert d == [items[0]] + d' && p == [items[0]] + p';
        assert d == p <==> d' == p' by {
          if d == p { assert d[1..] == d' && p[1..] == p'; }
        }
      } else if items != [] {
        assert d == d' && p == [items[0]] + p';
        assert |d| < |p|;
      } else {
        assert d == d' && p == p';
      }
    }
  }

  /** A frontier holding no empty string. */
  predicate NoEmpty(items: seq<string>) {
    forall i :: 0 <= i < |items| ==> items[i] != ""
  }

  /** When every batch holds only in-scope hrefs, as `ProcessHref` reports, the frontier
      never holds an empty string, so the loop starves exactly when the frontier is empty. */
  lemma {:induction false} StarvesOnlyWhenEmpty(parent: string, items: seq<string>, evs: seq<Event>)
    requires Feasible(items, evs)
    requires NoEmpty(items)
    requires forall i :: 0 <= i < |Batches(evs)| ==> Scrape.InScope(parent, Batches(evs)[i])
    ensures NoEmpty(Frontier(items, evs))
    ensures Offering(Frontier(items, evs)) <==> Frontier(items, evs) != []
    decreases |evs|
  {
    if evs != [] {
      var next := Next(items, evs[0]);
      var batch := if evs[0].Received? then evs[0].batch else [];
      assert Batches(evs) == batch + Batches(evs[1..]);
      assert forall i :: 0 <= i < |batch| ==> Batches(evs)[i] == batch[i];
      assert forall i :: 0 <= i < |Batches(evs[1..])| ==> Batches(evs)[|batch| + i] == Batches(evs[1..])[i];
      assert NoEmpty(next);
      StarvesOnlyWhenEmpty(parent, next, evs[1..]);
    }
  }

  /** Proof hint for `Run`: the definitions of the run's results, unfolded once. */
  lemma RunStep(items: seq<string>, evs: seq<Event>)
    requires Feasible(items, evs) && evs != []
    ensures evs[0].Sent? ==> Offering(items)
    ensures Feasible(Next(items, evs[0]), evs[1..])
    ensures Dispatched(items, evs) == (if evs[0].Sent? then [items[0]] else []) + Dispatched(Next(items, evs[0]), evs[1..])
    ensures Frontier(items, evs) == Frontier(Next(items, evs[0]), evs[1..])
  {
  }

  /** The seed passes the admission tests of every page, and nothing records it as
      visited, so a page that links back to the domain root has it admitted again. */
  lemma SeedIsAdmissible(parent: string)
    requires '?' !in parent
    ensures Scrape.Candidate(parent, Some(Seed(parent))) == Some(Seed(parent))
  {
    var seed := Seed(parent);
    assert '?' !in seed by {
      assert forall i :: 0 <= i < |seed| ==> seed[i] == if i < 8 then "https://"[i] else parent[i - 8];
    }
    BeforeQueryNoQuery(seed);
    ContainsEmbedded("https://", parent, "");
    assert "https://" + parent + "" == seed;
    assert seed[..4] == "http";
  }

  /** A batch that wins the race against an offered head drops that head: unless some
      later batch brings the same URL back, it is never handed to a worker. */
  lemma {:induction false} HeadDroppedByBatch(head: string, rest: seq<string>, batch: seq<string>, evs: seq<Event>)
    requires Feasible([head] + rest, [Received(batch)] + evs)
    requires head !in rest + batch + Batches(evs)
    ensures head !in Dispatched([head] + rest, [Received(batch)] + evs)
  {
    var items, all := [head] + rest, [Received(batch)] + evs;
    assert all[0] == Received(batch) && all[1..] == evs;
    var next := Next(items, Received(batch));
    assert items[1..] == rest;
    assert next == rest + batch;
    FifoOrder(next, evs);
    DispatchedInOrder(next, evs);
    if head in Dispatched(next, evs) {
      SubseqMembers(Dispatched(next, evs), Popped(next, evs), head);
      assert false;
    }
  }

  /** The dispatcher loop of `main` run for as many iterations as there are events.
      `sent` lists the URLs handed to workers, `items` is the frontier afterwards. */
  method Run(parent: string, evs: seq<Event>) returns (sent: seq<string>, items: seq<string>)
    requires Feasible([Seed(parent)], evs)
    ensures sent == Dispatched([Seed(parent)], evs)
    ensures items == Frontier([Seed(parent)], evs)
    ensures [Seed(parent)] + Batches(evs) == Popped([Seed(parent)], evs) + items
    ensures Subseq(sent, Popped([Seed(parent)], evs))
  {
    sent := [];
    items := [Seed(parent)];
    var i := 0;
    while i < |evs|
      invariant 0 <= i <= |evs|
      invariant Feasible(items, evs[i..])
      invariant sent + Dispatched(items, evs[i..]) == Dispatched([Seed(parent)], evs)
      invariant Frontier(items, evs[i..]) == Frontier([Seed(parent)], evs)
    {
      assert evs[i..][1..] == evs[i + 1..] && evs[i..][0] == evs[i];
      RunStep(items, evs[i..]);
      ghost var before := items;
      ghost var sentBefore := sent;
      var next: string;
      if |items| > 0 {
        next := items[0];
        items := items[1..];
      } else {
        next := "";
        items := [];
      }
      if |next| == 0 {
        // starving: only a batch can arrive
        match evs[i]
        case Received(batch) =>
          items := items + batch;
        case Sent =>
          assert false;
      } else {
        match evs[i]
        case Received(batch) =>
          items := items + batch;
        case Sent =>
          sent := sent + [next];
      }
      assert items == Next(before, evs[i]);
      assert Frontier(items, evs[i + 1..]) == Frontier(before, evs[i..]) by {
        assert evs[i..][0] == evs[i];
      }
      assert sent + Dispatched(items, evs[i + 1..]) == Dispatched([Seed(parent)], evs) by {
        var out := if evs[i].Sent? then [before[0]] else [];
        assert sent == sentBefore + out;
        AppendAssoc(sentBefore, out, Dispatched(items, evs[i + 1..]));
      }
      i := i + 1;
    }
    assert evs[|evs|..] == [];
    FifoOrder([Seed(parent)], evs);
    DispatchedInOrder([Seed(parent)], evs);
  }
}
