/** What every run of one subscriber configuration keeps: any interleaving of calls, ISIM events and
    deliveries of the oldest pending message.
 */
module SubscriberRuns {
  import opened SubscriberModel
  import opened SubscriberSteps

  /** A configuration with its own messages: those waiting, those handled and all ever posted. */
  datatype Local = Local(sub: Sub, pending: seq<Msg>, handled: seq<Msg>, posted: seq<Msg>)

  datatype Event = Do(call: Call) | Deliver

  function Step(l: Local, e: Event): Local {
    match e
    case Do(call) =>
      var out := Apply(l.sub, call);
      Local(out.sub, l.pending + out.posts, l.handled, l.posted + out.posts)
    case Deliver =>
      if l.pending == [] then l
      else
        var out := Handle(l.sub, l.pending[0]);
        Local(out.sub, l.pending[1..] + out.posts, l.handled + [l.pending[0]], l.posted + out.posts)
  }

  function Run(l: Local, es: seq<Event>): Local {
    if es == [] then l else Step(Run(l, es[..|es| - 1]), es[|es| - 1])
  }

  function Start(carrier: Carrier, stored: Identity, isimAvailable: bool): Local {
    Local(Started(carrier, stored, isimAvailable), [], [], [])
  }

  lemma {:induction false} RunAppend(l: Local, xs: seq<Event>, ys: seq<Event>)
    ensures Run(l, xs + ys) == Run(Run(l, xs), ys)
  {
    if ys == [] {
      assert xs + ys == xs;
    } else {
      assert (xs + ys)[..|xs + ys| - 1] == xs + ys[..|ys| - 1];
      RunAppend(l, xs, ys[..|ys| - 1]);
    }
  }

  lemma {:induction false} RunAppend1(l: Local, es: seq<Event>, e: Event)
    ensures Run(l, es + [e]) == Step(Run(l, es), e)
  {
    assert (es + [e])[..|es|] == es;
  }

  // ---- state, records and messages -----------------------------------------------------------

  /** Holds between any two steps: the service is allowed, STATE_INIT is never visible, there is at
      most one record, the ISIM is only heard or read through an installed handle, and the messages
      posted are exactly those handled followed by those waiting. */
  predicate Sound(l: Local) {
    && SoundSub(l.sub)
    && (ReadsHandle(l.pending) ==> l.sub.isimHandle)
    && l.posted == l.handled + l.pending
  }

  lemma {:induction false} ReadsHandleAppend(xs: seq<Msg>, ys: seq<Msg>)
    ensures ReadsHandle(xs + ys) <==> ReadsHandle(xs) || ReadsHandle(ys)
  {
    if xs == [] {
      assert xs + ys == ys;
    } else {
      assert (xs + ys)[1..] == xs[1..] + ys;
      ReadsHandleAppend(xs[1..], ys);
    }
  }

  lemma StepSound(l: Local, e: Event)
    requires Sound(l)
    ensures Sound(Step(l, e))
  {
    hide Apply, Handle, SoundSub;
    match e
    case Do(call) =>
      CallSound(l.sub, call);
      CallKeepsHandle(l.sub, call);
      if call.IsimStateChanged? {
        IsimPostsWithHandle(l.sub, call);
      } else {
        OthersReadNoHandle(l.sub, call);
      }
      ReadsHandleAppend(l.pending, Apply(l.sub, call).posts);
    case Deliver =>
      if l.pending != [] {
        HandleSound(l.sub, l.pending[0]);
        HandleKeepsHandle(l.sub, l.pending[0]);
        ReadsHandleAppend(l.pending[1..], Handle(l.sub, l.pending[0]).posts);
        assert l.pending == [l.pending[0]] + l.pending[1..];
      }
  }

  lemma {:induction false} RunSound(l: Local, es: seq<Event>)
    requires Sound(l)
    ensures Sound(Run(l, es))
  {
    hide Step, Sound;
    if es != [] {
      RunSound(l, es[..|es| - 1]);
      StepSound(Run(l, es[..|es| - 1]), es[|es| - 1]);
    }
  }

  lemma StartSound(carrier: Carrier, stored: Identity, isimAvailable: bool)
    ensures Sound(Start(carrier, stored, isimAvailable))
    ensures |Start(carrier, stored, isimAvailable).sub.records| == 1
  {
  }

  /** The steps that put a subscriber record in place. */
  predicate Refills(l: Local, e: Event) {
    match e
    case Deliver =>
      l.pending != [] &&
      (match l.pending[0]
       case UpdateAllConfigs => true
       case UpdateIsimRecords => l.sub.IsIsimSupported()
       case RefreshIsimRecords => l.sub.IsIsimSupported() && l.sub.isimHandle && l.sub.isimState == Loaded
       case _ => false)
    case Do(UpdateSubscriberInfo(_, _)) => true
    case Do(Refresh) => true
    case Do(IsimStateChanged(isim, _)) =>
      isim == Loaded && l.sub.isimHandle && l.sub.IsIsimSupported() && l.sub.state != Provisioned
    case _ => false
  }

  /** Switching ISIM support on is the only thing that removes the record. */
  predicate Clears(l: Local, e: Event) {
    e == Do(EnableIsim) && !l.sub.IsIsimSupported()
  }

  lemma CallRecords(l: Local, call: Call)
    requires Sound(l)
    ensures |Apply(l.sub, call).sub.records|
            == if Refills(l, Do(call)) then 1 else if Clears(l, Do(call)) then 0 else |l.sub.records|
  {
    hide Provision;
  }

  lemma DeliverRecords(l: Local)
    requires Sound(l) && l.pending != []
    ensures |Handle(l.sub, l.pending[0]).sub.records| == if Refills(l, Deliver) then 1 else |l.sub.records|
  {
    hide Provision;
  }

  lemma StepRecords(l: Local, e: Event)
    requires Sound(l)
    ensures |Step(l, e).sub.records|
            == if Refills(l, e) then 1 else if Clears(l, e) then 0 else |l.sub.records|
  {
    match e
    case Do(call) => CallRecords(l, call);
    case Deliver =>
      if l.pending != [] {
        DeliverRecords(l);
      }
  }

  lemma ClearsDoesNotRefill(l: Local, e: Event)
    ensures Clears(l, e) ==> !Refills(l, e)
  {
  }

  /** Step `k` of the run cleared the record and no later step put one back. */
  predicate ClearedAt(l: Local, es: seq<Event>, k: nat) {
    && k < |es|
    && Clears(Run(l, es[..k]), es[k])
    && forall j :: k < j < |es| ==> !Refills(Run(l, es[..j]), es[j])
  }

  lemma {:induction false} ClearedPrefix(l: Local, es: seq<Event>, k: nat)
    requires es != [] && k < |es| - 1
    ensures ClearedAt(l, es, k)
            <==> ClearedAt(l, es[..|es| - 1], k) && !Refills(Run(l, es[..|es| - 1]), es[|es| - 1])
  {
    hide Run, Refills, Clears;
    var n := |es| - 1;
    var front := es[..n];
    assert forall j :: 0 <= j < n ==> front[..j] == es[..j] && front[j] == es[j];
  }

  /** The record is missing exactly when ISIM support was switched on by EnableIsim and nothing has
      been read or supplied since. */
  lemma {:induction false} RecordMissingIff(l: Local, es: seq<Event>)
    requires Sound(l) && |l.sub.records| == 1
    ensures Run(l, es).sub.records == [] <==> exists k: nat :: ClearedAt(l, es, k)
  {
    hide Step, Sound, Refills, Clears;
    if es != [] {
      var n := |es| - 1;
      var before := Run(l, es[..n]);
      RecordMissingIff(l, es[..n]);
      RunSound(l, es[..n]);
      StepRecords(before, es[n]);
      forall k: nat | k < n
        ensures ClearedAt(l, es, k) <==> ClearedAt(l, es[..n], k) && !Refills(before, es[n])
      {
        ClearedPrefix(l, es, k);
      }
      if Clears(before, es[n]) {
        ClearsDoesNotRefill(before, es[n]);
        assert ClearedAt(l, es, n);
      } else if before.sub.records == [] && !Refills(before, es[n]) {
        var k: nat :| ClearedAt(l, es[..n], k);
        assert ClearedAt(l, es, k);
      }
    }
  }

  // ---- draining ------------------------------------------------------------------------------

  function TotalWeight(ms: seq<Msg>): nat {
    if ms == [] then 0 else Weight(ms[0]) + TotalWeight(ms[1..])
  }

  lemma {:induction false} TotalWeightAppend(xs: seq<Msg>, ys: seq<Msg>)
    ensures TotalWeight(xs + ys) == TotalWeight(xs) + TotalWeight(ys)
  {
    if xs == [] {
      assert xs + ys == ys;
    } else {
      assert (xs + ys)[1..] == xs[1..] + ys;
      TotalWeightAppend(xs[1..], ys);
    }
  }

  lemma DeliverDecreases(l: Local)
    requires l.pending != []
    ensures TotalWeight(Step(l, Deliver).pending) < TotalWeight(l.pending)
  {
    hide Handle;
    var out := Handle(l.sub, l.pending[0]);
    HandlePostsLess(l.sub, l.pending[0]);
    TotalWeightAppend(l.pending[1..], out.posts);
    if out.posts != [] {
      assert out.posts[1..] == [];
    }
  }

  lemma DeliverIdle(l: Local)
    requires l.pending == []
    ensures Step(l, Deliver) == l
  {
  }

  function Deliveries(n: nat): seq<Event> {
    seq(n, i => Deliver)
  }

  /** Without new calls or ISIM events, as many deliveries as the pending messages weigh empty the
      queue, whatever is read on the way. */
  lemma {:induction false} DrainTerminates(l: Local, n: nat)
    ensures TotalWeight(Run(l, Deliveries(n)).pending) <=
            if n <= TotalWeight(l.pending) then TotalWeight(l.pending) - n else 0
    ensures n >= TotalWeight(l.pending) ==> Run(l, Deliveries(n)).pending == []
  {
    hide Step;
    if n > 0 {
      DrainTerminates(l, n - 1);
      assert Deliveries(n)[..n - 1] == Deliveries(n - 1);
      var before := Run(l, Deliveries(n - 1));
      if before.pending != [] {
        DeliverDecreases(before);
      } else {
        DeliverIdle(before);
      }
    }
    var last := Run(l, Deliveries(n)).pending;
    assert last != [] ==> TotalWeight(last) > 0;
  }

  lemma DeliverKeepsIsim(l: Local)
    ensures Step(l, Deliver).sub.isimState == l.sub.isimState
    ensures Step(l, Deliver).sub.isimIdentity == l.sub.isimIdentity
  {
    hide Provision;
  }

  lemma {:induction false} DeliveriesKeepIsim(l: Local, n: nat)
    ensures Run(l, Deliveries(n)).sub.isimState == l.sub.isimState
    ensures Run(l, Deliveries(n)).sub.isimIdentity == l.sub.isimIdentity
  {
    hide Step;
    if n > 0 {
      assert Deliveries(n)[..n - 1] == Deliveries(n - 1);
      DeliveriesKeepIsim(l, n - 1);
      DeliverKeepsIsim(Run(l, Deliveries(n - 1)));
    }
  }
}
