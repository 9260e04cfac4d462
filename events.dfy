/**
 * The listener machinery of one node, on values: which registered delegates an event runs,
 * in which order and until when; marking delegates unbound; and pruning unbound delegates
 * and empty buckets from the table.
 */
module Events {
  import opened Options
  import opened DataModel

  /**
   * Whether a delegate is run for an event of this type arriving from `prev` (None on the
   * node the event was broadcast on, else the class of the node it bubbled from). A delegate
   * without a field always runs; a field-bound one runs on its own node only for its field's
   * change event, and on an ancestor only when its field holds nodes of the class it came from.
   */
  predicate Eligible(w: Wrapper, eventType: string, prev: Option<ClassId>)
  {
    match w.field
    case None => true
    case Some(f) =>
      if prev.None? then eventType == f.changeEvent
      else DataClass(f.shape) == prev
  }

  /** Marks every delegate of the listed listeners unbound, keeping positions. */
  function MarkUnbound(ws: seq<Wrapper>, ids: set<ListenerId>): seq<Wrapper>
  {
    seq(|ws|, i requires 0 <= i < |ws| => if ws[i].listener in ids then ws[i].(bound := false) else ws[i])
  }

  function UnbindAll(d: Delegates, ids: set<ListenerId>): Delegates
  {
    map k | k in d :: MarkUnbound(d[k], ids)
  }

  /** A listener may only raise the stop flags of the event it receives. */
  function React(ev: Event, r: Reaction): Event
  {
    ev.(stop := ev.stop || r.stop, stopImmediate := ev.stopImmediate || r.stopImmediate)
  }

  /** The event after the listeners ran, the node's delegates after their unbinds, and who ran. */
  datatype RunResult = RunResult(ev: Event, delegates: Delegates, ran: seq<ListenerId>)

  /**
   * The loop over the snapshot copy of the bucket: each eligible delegate is executed if its
   * copy is bound; after an eligible one, a raised stopImmediate ends the loop.
   */
  function Run(ws: seq<Wrapper>, ev: Event, prev: Option<ClassId>, d: Delegates,
               react: ListenerId -> Reaction): RunResult
    decreases |ws|
  {
    if ws == [] then RunResult(ev, d, [])
    else
      var w := ws[0];
      if !Eligible(w, ev.eventType, prev) then Run(ws[1..], ev, prev, d, react)
      else if !w.bound then
        if ev.stopImmediate then RunResult(ev, d, []) else Run(ws[1..], ev, prev, d, react)
      else
        var ev1 := React(ev, react(w.listener));
        var d1 := UnbindAll(d, react(w.listener).unbind);
        if ev1.stopImmediate then RunResult(ev1, d1, [w.listener])
        else
          var rest := Run(ws[1..], ev1, prev, d1, react);
          RunResult(rest.ev, rest.delegates, [w.listener] + rest.ran)
  }

  /** The listener loop of BroadcastInternal over the snapshot `Copy`, with its break. */
  method RunListeners(snapshot: seq<Wrapper>, ev: Event, prev: Option<ClassId>, d: Delegates,
                      react: ListenerId -> Reaction) returns (r: RunResult)
    ensures r == Run(snapshot, ev, prev, d, react)
  {
    var e := ev;
    var table := d;
    var ran: seq<ListenerId> := [];
    var i := 0;
    while i < |snapshot|
      invariant 0 <= i <= |snapshot|
      invariant var rest := Run(snapshot[i..], e, prev, table, react);
                Run(snapshot, ev, prev, d, react) == RunResult(rest.ev, rest.delegates, ran + rest.ran)
    {
      var w := snapshot[i];
      assert snapshot[i..][0] == w && snapshot[i..][1..] == snapshot[i + 1..];
      if Eligible(w, e.eventType, prev) {
        if w.bound {
          var reaction := react(w.listener);
          e := React(e, reaction);
          table := UnbindAll(table, reaction.unbind);
          ran := ran + [w.listener];
        }
        if e.stopImmediate {
          return RunResult(e, table, ran);
        }
      }
      i := i + 1;
    }
    return RunResult(e, table, ran);
  }

  /** The listeners the snapshot would run if none stopped it: eligible, bound, in registration order. */
  function Runnable(ws: seq<Wrapper>, eventType: string, prev: Option<ClassId>): seq<ListenerId>
    decreases |ws|
  {
    if ws == [] then []
    else (if Eligible(ws[0], eventType, prev) && ws[0].bound then [ws[0].listener] else [])
         + Runnable(ws[1..], eventType, prev)
  }

  /** Whether some listener of the list raises stopImmediate, respectively stop. */
  predicate SomeStopsImmediately(ran: seq<ListenerId>, react: ListenerId -> Reaction)
  {
    exists k :: 0 <= k < |ran| && react(ran[k]).stopImmediate
  }

  predicate SomeStops(ran: seq<ListenerId>, react: ListenerId -> Reaction)
  {
    exists k :: 0 <= k < |ran| && react(ran[k]).stop
  }

  /** All listeners the run's listeners unbind. */
  function Unbinds(ran: seq<ListenerId>, react: ListenerId -> Reaction): set<ListenerId>
  {
    if ran == [] then {} else react(ran[0]).unbind + Unbinds(ran[1..], react)
  }

  lemma MarkUnboundTwice(ws: seq<Wrapper>, a: set<ListenerId>, b: set<ListenerId>)
    ensures MarkUnbound(MarkUnbound(ws, a), b) == MarkUnbound(ws, a + b)
  {
  }

  lemma UnbindAllTwice(d: Delegates, a: set<ListenerId>, b: set<ListenerId>)
    ensures UnbindAll(UnbindAll(d, a), b) == UnbindAll(d, a + b)
  {
    forall k | k in d ensures UnbindAll(UnbindAll(d, a), b)[k] == UnbindAll(d, a + b)[k] {
      MarkUnboundTwice(d[k], a, b);
    }
  }

  lemma UnbindAllNone(d: Delegates)
    ensures UnbindAll(d, {}) == d
  {
    forall k | k in d ensures UnbindAll(d, {})[k] == d[k] {
      assert MarkUnbound(d[k], {}) == d[k];
    }
  }

  /**
   * `ran` is a prefix of the runnable listeners `all`, up to and including the first whose
   * reaction raises stopImmediate, and no further.
   */
  predicate StopsAtFirstImmediate(ran: seq<ListenerId>, all: seq<ListenerId>, react: ListenerId -> Reaction)
  {
    && ran <= all
    && (forall k :: 0 <= k < |ran| - 1 ==> !react(ran[k]).stopImmediate)
    && (|ran| < |all| ==> ran != [] && react(ran[|ran| - 1]).stopImmediate)
  }

  /**
   * The run executes the runnable listeners in registration order up to and including the
   * first whose reaction raises stopImmediate, and no further.
   */
  lemma {:induction false} RunOrder(ws: seq<Wrapper>, ev: Event, prev: Option<ClassId>, d: Delegates,
                                    react: ListenerId -> Reaction)
    requires !ev.stopImmediate
    ensures StopsAtFirstImmediate(Run(ws, ev, prev, d, react).ran, Runnable(ws, ev.eventType, prev), react)
    decreases |ws|, 1
  {
    if ws != [] {
      if !Eligible(ws[0], ev.eventType, prev) || !ws[0].bound {
        RunSkip(ws, ev, prev, d, react);
        RunOrder(ws[1..], ev, prev, d, react);
      } else {
        RunOrderHead(ws, ev, prev, d, react);
      }
    }
  }

  lemma {:induction false} RunOrderHead(ws: seq<Wrapper>, ev: Event, prev: Option<ClassId>, d: Delegates,
                                        react: ListenerId -> Reaction)
    requires ws != [] && !ev.stopImmediate && Eligible(ws[0], ev.eventType, prev) && ws[0].bound
    ensures StopsAtFirstImmediate(Run(ws, ev, prev, d, react).ran, Runnable(ws, ev.eventType, prev), react)
    decreases |ws|, 0
  {
    var l := ws[0].listener;
    var ev1 := React(ev, react(l));
    var d1 := UnbindAll(d, react(l).unbind);
    RunHead(ws, ev, prev, d, react);
    if !ev1.stopImmediate {
      RunOrder(ws[1..], ev1, prev, d1, react);
      OrderCons(l, Run(ws[1..], ev1, prev, d1, react).ran, Runnable(ws[1..], ev.eventType, prev), react);
    }
  }

  /** One more listener in front of a run that stops at its first stopImmediate, when it does not stop. */
  lemma OrderCons(l: ListenerId, rest: seq<ListenerId>, all: seq<ListenerId>, react: ListenerId -> Reaction)
    requires !react(l).stopImmediate && StopsAtFirstImmediate(rest, all, react)
    ensures StopsAtFirstImmediate([l] + rest, [l] + all, react)
  {
    var ran := [l] + rest;
    forall k | 0 <= k < |ran| - 1 ensures !react(ran[k]).stopImmediate {
      if k > 0 {
        assert ran[k] == rest[k - 1];
      }
    }
  }

  /** A delegate that is not run does not change who runs. */
  lemma RunSkip(ws: seq<Wrapper>, ev: Event, prev: Option<ClassId>, d: Delegates, react: ListenerId -> Reaction)
    requires ws != [] && !ev.stopImmediate && (!Eligible(ws[0], ev.eventType, prev) || !ws[0].bound)
    ensures Run(ws, ev, prev, d, react).ran == Run(ws[1..], ev, prev, d, react).ran
    ensures Runnable(ws, ev.eventType, prev) == Runnable(ws[1..], ev.eventType, prev)
  {
  }

  /** A run delegate comes first, and ends the run when it raises stopImmediate. */
  lemma RunHead(ws: seq<Wrapper>, ev: Event, prev: Option<ClassId>, d: Delegates, react: ListenerId -> Reaction)
    requires ws != [] && !ev.stopImmediate && Eligible(ws[0], ev.eventType, prev) && ws[0].bound
    ensures var ev1 := React(ev, react(ws[0].listener));
            var d1 := UnbindAll(d, react(ws[0].listener).unbind);
            Run(ws, ev, prev, d, react).ran
              == if ev1.stopImmediate then [ws[0].listener] else [ws[0].listener] + Run(ws[1..], ev1, prev, d1, react).ran
    ensures Runnable(ws, ev.eventType, prev) == [ws[0].listener] + Runnable(ws[1..], ev.eventType, prev)
  {
  }

  /**
   * The event keeps its type, target and bubbling, and ends up with exactly the stop flags it
   * came with or that an executed listener raised.
   */
  lemma {:induction false} RunFlags(ws: seq<Wrapper>, ev: Event, prev: Option<ClassId>, d: Delegates,
                                    react: ListenerId -> Reaction)
    requires !ev.stopImmediate
    ensures var r := Run(ws, ev, prev, d, react);
            && (r.ev.stopImmediate <==> SomeStopsImmediately(r.ran, react))
            && (r.ev.stop <==> ev.stop || SomeStops(r.ran, react))
            && r.ev.eventType == ev.eventType && r.ev.target == ev.target && r.ev.bubbles == ev.bubbles
    decreases |ws|
  {
    if ws != [] {
      var w := ws[0];
      if !Eligible(w, ev.eventType, prev) || !w.bound {
        RunFlags(ws[1..], ev, prev, d, react);
      } else {
        var ev1 := React(ev, react(w.listener));
        var d1 := UnbindAll(d, react(w.listener).unbind);
        var ran := Run(ws, ev, prev, d, react).ran;
        if ev1.stopImmediate {
          assert ran == [w.listener] == [w.listener] + [];
          FlagsCons(w.listener, [], react);
        } else {
          RunFlags(ws[1..], ev1, prev, d1, react);
          var rest := Run(ws[1..], ev1, prev, d1, react).ran;
          assert ran == [w.listener] + rest;
          FlagsCons(w.listener, rest, react);
        }
      }
    }
  }

  lemma FlagsCons(l: ListenerId, rest: seq<ListenerId>, react: ListenerId -> Reaction)
    ensures SomeStopsImmediately([l] + rest, react) <==> react(l).stopImmediate || SomeStopsImmediately(rest, react)
    ensures SomeStops([l] + rest, react) <==> react(l).stop || SomeStops(rest, react)
  {
    var ran := [l] + rest;
    assert ran[0] == l;
    assert forall k :: 0 <= k < |rest| ==> ran[k + 1] == rest[k];
    assert forall k :: 0 < k < |ran| ==> ran[k] == rest[k - 1];
  }

  /** The node's table ends up with exactly the unbinds of the executed listeners applied. */
  lemma {:induction false} RunTable(ws: seq<Wrapper>, ev: Event, prev: Option<ClassId>, d: Delegates,
                                    react: ListenerId -> Reaction)
    ensures var r := Run(ws, ev, prev, d, react);
            r.delegates == UnbindAll(d, Unbinds(r.ran, react))
    decreases |ws|
  {
    if ws == [] {
      UnbindAllNone(d);
    } else {
      var w := ws[0];
      if !Eligible(w, ev.eventType, prev) || !w.bound {
        RunTable(ws[1..], ev, prev, d, react);
        UnbindAllNone(d);
      } else {
        var ev1 := React(ev, react(w.listener));
        var d1 := UnbindAll(d, react(w.listener).unbind);
        var ran := Run(ws, ev, prev, d, react).ran;
        if ev1.stopImmediate {
          assert ran == [w.listener];
          assert Unbinds(ran, react) == react(w.listener).unbind;
        } else {
          RunTable(ws[1..], ev1, prev, d1, react);
          var rest := Run(ws[1..], ev1, prev, d1, react).ran;
          assert ran == [w.listener] + rest;
          assert ran[1..] == rest;
          UnbindAllTwice(d, react(w.listener).unbind, Unbinds(rest, react));
        }
      }
    }
  }

  /** The bound delegates of a bucket, in their order. */
  function BoundOnly(ws: seq<Wrapper>): (r: seq<Wrapper>)
    ensures forall w :: w in r <==> w in ws && w.bound
    ensures |r| <= |ws|
    decreases |ws|
  {
    if ws == [] then []
    else
      var last := ws[|ws| - 1];
      var r := BoundOnly(ws[..|ws| - 1]) + (if last.bound then [last] else []);
      assert forall w :: w in ws <==> w in ws[..|ws| - 1] || w == last by {
        assert ws == ws[..|ws| - 1] + [last];
      }
      r
  }

  /** Keeping the bound delegates commutes with joining buckets: their order is kept. */
  lemma {:induction false} BoundOnlyAppend(a: seq<Wrapper>, b: seq<Wrapper>)
    ensures BoundOnly(a + b) == BoundOnly(a) + BoundOnly(b)
    decreases |b|
  {
    if b == [] {
      assert a + b == a;
    } else {
      var b' := b[..|b| - 1];
      var last := b[|b| - 1];
      var tail := if last.bound then [last] else [];
      BoundOnlyAppend(a, b');
      assert (a + b)[..|a + b| - 1] == a + b';
      assert (a + b)[|a + b| - 1] == last;
      assert BoundOnly(a + b) == BoundOnly(a + b') + tail;
      assert BoundOnly(b) == BoundOnly(b') + tail;
    }
  }

  /** UpdateDelegates' sweep: unbound delegates removed, then empty buckets removed. */
  function Pruned(d: Delegates): Delegates
  {
    map k | k in d && BoundOnly(d[k]) != [] :: BoundOnly(d[k])
  }

  /** After a sweep, every delegate left is bound, no bucket is empty, and every bound delegate is kept. */
  lemma PrunedFacts(d: Delegates)
    ensures forall k :: k in Pruned(d) ==> Pruned(d)[k] != [] && forall w :: w in Pruned(d)[k] ==> w.bound
    ensures forall k, w :: k in d && w in d[k] && w.bound ==> k in Pruned(d) && w in Pruned(d)[k]
    ensures forall k :: k in Pruned(d) ==> k in d && forall w :: w in Pruned(d)[k] ==> w in d[k]
  {
  }

  /** The inner loop of UpdateDelegates: removes the current delegate when unbound. */
  method SweepBucket(ws: seq<Wrapper>) returns (kept: seq<Wrapper>)
    ensures kept == BoundOnly(ws)
  {
    kept := [];
    var i := 0;
    while i < |ws|
      invariant 0 <= i <= |ws|
      invariant kept == BoundOnly(ws[..i])
    {
      assert ws[..i + 1][..i] == ws[..i];
      if ws[i].bound {
        kept := kept + [ws[i]];
      }
      i := i + 1;
    }
    assert ws[..i] == ws;
  }

  /** The table part-way through the sweep: buckets in `todo` untouched, the others swept. */
  function PartlySwept(d: Delegates, todo: set<string>): Delegates
  {
    map k | k in d && (k in todo || BoundOnly(d[k]) != []) :: if k in todo then d[k] else BoundOnly(d[k])
  }

  lemma SweepStep(d: Delegates, todo: set<string>, k: string)
    requires k in todo && k in d
    ensures BoundOnly(d[k]) == [] ==> PartlySwept(d, todo - {k}) == PartlySwept(d, todo) - {k}
    ensures BoundOnly(d[k]) != [] ==> PartlySwept(d, todo - {k}) == PartlySwept(d, todo)[k := BoundOnly(d[k])]
  {
    var lhs := PartlySwept(d, todo - {k});
    var before := PartlySwept(d, todo);
    var rhs := if BoundOnly(d[k]) == [] then before - {k} else before[k := BoundOnly(d[k])];
    assert lhs.Keys == rhs.Keys;
    forall j | j in lhs ensures lhs[j] == rhs[j] {
    }
  }

  /** The outer loop of UpdateDelegates: sweeps each bucket and removes it when left empty. */
  method SweepDelegates(d: Delegates) returns (r: Delegates)
    ensures r == Pruned(d)
  {
    r := d;
    var todo := d.Keys;
    assert r == PartlySwept(d, todo);
    while todo != {}
      invariant todo <= d.Keys
      invariant r == PartlySwept(d, todo)
      decreases todo
    {
      var k :| k in todo;
      var kept := SweepBucket(r[k]);
      SweepStep(d, todo, k);
      if kept == [] {
        r := r - {k};
      } else {
        r := r[k := kept];
      }
      todo := todo - {k};
    }
    assert PartlySwept(d, {}) == Pruned(d);
  }

  /** FindOrAdd(Type).Add(Wrapper): the delegate goes last in its type's bucket. */
  function AddDelegate(d: Delegates, eventType: string, w: Wrapper): Delegates
  {
    d[eventType := (if eventType in d then d[eventType] else []) + [w]]
  }

  /** Binding appends to the bucket, creating it if needed, and leaves every other bucket alone. */
  lemma AddDelegateFacts(d: Delegates, eventType: string, w: Wrapper)
    ensures var r := AddDelegate(d, eventType, w);
            && eventType in r && |r[eventType]| > 0 && r[eventType][|r[eventType]| - 1] == w
            && r[eventType][..|r[eventType]| - 1] == (if eventType in d then d[eventType] else [])
            && forall k :: k != eventType ==> (k in r <==> k in d) && (k in r ==> r[k] == d[k])
  {
    var r := AddDelegate(d, eventType, w);
    var prior := if eventType in d then d[eventType] else [];
    assert r[eventType][..|r[eventType]| - 1] == prior;
  }

  /** After a bind and a sweep, the new delegate comes after every bound delegate registered before it. */
  lemma BindGoesLast(d: Delegates, eventType: string, w: Wrapper)
    requires w.bound
    ensures var prior := if eventType in d then d[eventType] else [];
            var r := Pruned(AddDelegate(d, eventType, w));
            eventType in r && r[eventType] == BoundOnly(prior) + [w]
  {
    var prior := if eventType in d then d[eventType] else [];
    var bucket := prior + [w];
    assert bucket[..|bucket| - 1] == prior;
  }

  /** The listeners a bucket would run are those of its front part, then those of its back part. */
  lemma {:induction false} RunnableAppend(a: seq<Wrapper>, b: seq<Wrapper>, eventType: string, prev: Option<ClassId>)
    ensures Runnable(a + b, eventType, prev) == Runnable(a, eventType, prev) + Runnable(b, eventType, prev)
    decreases |a|
  {
    if a == [] {
      assert a + b == b;
    } else {
      RunnableAppend(a[1..], b, eventType, prev);
      var h := if Eligible(a[0], eventType, prev) && a[0].bound then [a[0].listener] else [];
      assert (a + b)[0] == a[0] && (a + b)[1..] == a[1..] + b;
      assert Runnable(a + b, eventType, prev) == h + Runnable(a[1..] + b, eventType, prev);
      assert Runnable(a, eventType, prev) == h + Runnable(a[1..], eventType, prev);
    }
  }

  /** The delegates of a bucket UnbindInternal marks unbound: the same listener bound for the same field. */
  function MarkMatching(ws: seq<Wrapper>, listener: ListenerId, field: Option<FieldDesc>): seq<Wrapper>
  {
    seq(|ws|, i requires 0 <= i < |ws| =>
      if ws[i].listener == listener && ws[i].field == field then ws[i].(bound := false) else ws[i])
  }

  /** The loop of UnbindInternal over the bucket, unbinding matching delegates in place. */
  method UnbindMatching(ws: seq<Wrapper>, listener: ListenerId, field: Option<FieldDesc>) returns (r: seq<Wrapper>)
    ensures r == MarkMatching(ws, listener, field)
    ensures |r| == |ws|
    ensures forall i :: 0 <= i < |r| ==> r[i].listener == ws[i].listener && r[i].field == ws[i].field
    ensures forall i :: 0 <= i < |r| ==>
              r[i].bound == (ws[i].bound && !(ws[i].listener == listener && ws[i].field == field))
  {
    r := ws;
    var i := 0;
    while i < |r|
      invariant 0 <= i <= |r| && |r| == |ws|
      invariant forall j :: 0 <= j < i ==> r[j] == MarkMatching(ws, listener, field)[j]
      invariant forall j :: i <= j < |r| ==> r[j] == ws[j]
    {
      if r[i].listener == listener && r[i].field == field {
        r := r[i := r[i].(bound := false)];
      }
      i := i + 1;
    }
  }
}
