/** Before a helper is installed a configuration handles its own messages at once, each inside the
    call that sent it. This module gives that mode its meaning and shows that it reaches the same
    configuration, callbacks included, as posting the messages and draining the queue.
 */
module SubscriberSync {
  import opened SubscriberModel
  import opened SubscriberRuns

  /** Handling a message and, nested inside, every message that sends. */
  function SyncHandle(s: Sub, m: Msg): Sub
    decreases Weight(m), 0
  {
    HandlePostsLess(s, m);
    var out := Handle(s, m);
    if out.posts == [] then out.sub else SyncHandle(out.sub, out.posts[0])
  }

  function SyncAll(s: Sub, ms: seq<Msg>): Sub
    decreases |ms|
  {
    if ms == [] then s else SyncAll(SyncHandle(s, ms[0]), ms[1..])
  }

  lemma SyncAllNone(s: Sub)
    ensures SyncAll(s, []) == s
  {
    hide SyncHandle;
  }

  lemma SyncAllOne(s: Sub, m: Msg)
    ensures SyncAll(s, [m]) == SyncHandle(s, m)
  {
    hide SyncHandle;
    assert [m][1..] == [];
  }

  lemma SyncAllTwo(s: Sub, a: Msg, b: Msg)
    ensures SyncAll(s, [a, b]) == SyncHandle(SyncHandle(s, a), b)
  {
    hide SyncHandle;
    assert [a, b][1..] == [b];
    SyncAllOne(SyncHandle(s, a), b);
  }

  /** Handling at once what a message posts completes the handling of that message. */
  lemma SyncHandleUnfold(s: Sub, m: Msg)
    ensures SyncAll(Handle(s, m).sub, Handle(s, m).posts) == SyncHandle(s, m)
  {
    hide Handle;
    HandlePostsLess(s, m);
    var out := Handle(s, m);
    if out.posts != [] {
      assert out.posts == [out.posts[0]];
      SyncAllOne(out.sub, out.posts[0]);
    }
  }

  lemma LeafPostsNothing(s: Sub, m: Msg)
    requires Weight(m) == 1
    ensures Handle(s, m).posts == []
  {
  }

  /** Only the last message of a list posts anything when handled. */
  predicate LeavesFirst(ms: seq<Msg>) {
    forall i :: 0 <= i < |ms| - 1 ==> Weight(ms[i]) == 1
  }

  lemma CallPostsLeavesFirst(s: Sub, call: Call)
    ensures LeavesFirst(Apply(s, call).posts)
  {
  }

  lemma {:induction false} DeliverFirst(l: Local, n: nat)
    requires n > 0
    ensures Run(l, Deliveries(n)) == Run(Step(l, Deliver), Deliveries(n - 1))
  {
    hide Step;
    assert Deliveries(n) == [Deliver] + Deliveries(n - 1);
    RunAppend(l, [Deliver], Deliveries(n - 1));
    RunAppend1(l, [], Deliver);
    assert [] + [Deliver] == [Deliver];
  }

  lemma {:induction false} IdleDeliveries(l: Local, n: nat)
    requires l.pending == []
    ensures Run(l, Deliveries(n)) == l
  {
    hide Step;
    if n > 0 {
      DeliverFirst(l, n);
      DeliverIdle(l);
      IdleDeliveries(l, n - 1);
    }
  }

  lemma {:induction false} DrainIsSync(l: Local, n: nat)
    requires LeavesFirst(l.pending) && n >= TotalWeight(l.pending)
    ensures Run(l, Deliveries(n)).sub == SyncAll(l.sub, l.pending)
    decreases TotalWeight(l.pending)
  {
    hide Handle, Run;
    if l.pending == [] {
      IdleDeliveries(l, n);
    } else {
      var m := l.pending[0];
      DeliverFirst(l, n);
      DeliverDecreases(l);
      HandlePostsLess(l.sub, m);
      if |l.pending| > 1 {
        LeafPostsNothing(l.sub, m);
      }
      DrainIsSync(Step(l, Deliver), n - 1);
      var posts := Handle(l.sub, m).posts;
      if |l.pending| > 1 {
        assert Step(l, Deliver).pending == l.pending[1..];
      } else {
        assert Step(l, Deliver).pending == posts && l.pending[1..] == [];
        assert posts != [] ==> posts[1..] == [];
      }
    }
  }

  /** Starting with nothing queued, a call followed by draining the queue does exactly what the same
      call does when every message is handled at once. */
  lemma SyncMatchesDraining(s: Sub, call: Call, n: nat)
    requires n >= TotalWeight(Apply(s, call).posts)
    ensures Run(Step(Local(s, [], [], []), Do(call)), Deliveries(n)).sub
            == SyncAll(Apply(s, call).sub, Apply(s, call).posts)
  {
    hide Apply, Run, SyncAll;
    CallPostsLeavesFirst(s, call);
    var l := Step(Local(s, [], [], []), Do(call));
    assert l.pending == Apply(s, call).posts;
    DrainIsSync(l, n);
  }
}
