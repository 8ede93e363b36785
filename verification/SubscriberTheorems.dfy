/** The main results about one subscriber configuration, over every run from its start. */
module SubscriberTheorems {
  import opened SubscriberModel
  import opened SubscriberSteps
  import opened SubscriberRuns

  // ---- no lost refresh -----------------------------------------------------------------------

  ghost predicate Safe(l: Local) {
    RefreshSafe(l.sub, RefreshPending(l.pending))
  }

  /** In this run no attribute update switches ISIM support on. */
  predicate AttributesNeverSwitchOn(l: Local, es: seq<Event>) {
    forall k :: 0 <= k < |es| && es[k].Do? ==> NotSwitchedOnByAttribute(Run(l, es[..k]).sub, es[k].call)
  }

  lemma {:induction false} RefreshPendingAppend(xs: seq<Msg>, ys: seq<Msg>)
    ensures RefreshPending(xs + ys) <==> RefreshPending(xs) || RefreshPending(ys)
  {
    if xs == [] {
      assert xs + ys == ys;
    } else {
      assert (xs + ys)[1..] == xs[1..] + ys;
      RefreshPendingAppend(xs[1..], ys);
    }
  }

  lemma StepSafe(l: Local, e: Event)
    requires Sound(l) && Safe(l) && (e.Do? ==> NotSwitchedOnByAttribute(l.sub, e.call))
    ensures Safe(Step(l, e))
  {
    hide Apply, Handle, RefreshSafe, SoundSub;
    match e
    case Do(call) =>
      CallRefreshSafe(l.sub, call, RefreshPending(l.pending));
      RefreshPendingAppend(l.pending, Apply(l.sub, call).posts);
    case Deliver =>
      if l.pending != [] {
        HandleRefreshSafe(l.sub, l.pending[0], RefreshPending(l.pending[1..]));
        RefreshPendingAppend(l.pending[1..], Handle(l.sub, l.pending[0]).posts);
      }
  }

  lemma {:induction false} RunSafe(l: Local, es: seq<Event>)
    requires Sound(l) && Safe(l) && AttributesNeverSwitchOn(l, es)
    ensures Safe(Run(l, es))
  {
    hide Step, Sound, Safe, NotSwitchedOnByAttribute;
    if es != [] {
      var front := es[..|es| - 1];
      assert forall k :: 0 <= k < |front| ==> front[..k] == es[..k] && front[k] == es[k];
      RunSafe(l, front);
      RunSound(l, front);
      StepSafe(Run(l, front), es[|es| - 1]);
    }
  }

  lemma StartSafe(carrier: Carrier, stored: Identity, isimAvailable: bool)
    ensures Safe(Start(carrier, stored, isimAvailable))
  {
  }

  lemma {:induction false} DrainedSafe(l: Local, n: nat)
    requires Sound(l) && Safe(l) && n >= TotalWeight(l.pending)
    ensures Run(l, Deliveries(n)).pending == [] && Safe(Run(l, Deliveries(n)))
    ensures Run(l, Deliveries(n)).sub.isimState == l.sub.isimState
  {
    hide Step, Sound, Safe;
    DrainTerminates(l, n);
    DeliveriesKeepIsim(l, n);
    RunSafe(l, Deliveries(n));
  }

  /** No lost refresh. With ISIM supported and last reported loaded, either a refresh is still queued
      or the state is PROVISIONED and the record current; and delivering what is queued ends
      PROVISIONED with the identities the ISIM has now, unless a caller supplied newer ones. */
  lemma NoLostRefresh(carrier: Carrier, stored: Identity, isimAvailable: bool, es: seq<Event>, n: nat)
    requires AttributesNeverSwitchOn(Start(carrier, stored, isimAvailable), es)
    ensures var l := Run(Start(carrier, stored, isimAvailable), es);
            && (l.sub.IsIsimSupported() && l.sub.isimState == Loaded && !RefreshPending(l.pending)
                ==> l.sub.state == Provisioned && UpToDate(l.sub))
            && (n >= TotalWeight(l.pending) ==>
                  var d := Run(l, Deliveries(n));
                  && d.pending == []
                  && (d.sub.IsIsimSupported() && l.sub.isimState == Loaded ==>
                        d.sub.state == Provisioned && UpToDate(d.sub)))
  {
    hide Step, Sound, UpToDate, Start;
    var l0 := Start(carrier, stored, isimAvailable);
    var l := Run(l0, es);
    StartSound(carrier, stored, isimAvailable);
    StartSafe(carrier, stored, isimAvailable);
    RunSafe(l0, es);
    RunSound(l0, es);
    if n >= TotalWeight(l.pending) {
      DrainedSafe(l, n);
    }
  }

  /** Without any attribute update a configuration that does not use the ISIM is provisioned. */
  predicate IdleWithoutIsim(s: Sub) {
    !s.IsIsimSupported() ==> s.state == Provisioned
  }

  predicate UpdatesAttributes(call: Call) {
    call.RereadAttributes? || call.SetIsimAttribute? || call.SetUsimAttribute?
  }

  lemma IsimKeepsIdle(s: Sub, call: Call)
    requires SoundSub(s) && IdleWithoutIsim(s) && call.IsimStateChanged?
    ensures IdleWithoutIsim(Apply(s, call).sub)
  {
    hide Provision;
  }

  lemma OtherKeepsIdle(s: Sub, call: Call)
    requires SoundSub(s) && IdleWithoutIsim(s) && !UpdatesAttributes(call) && !call.IsimStateChanged?
    ensures IdleWithoutIsim(Apply(s, call).sub)
  {
    hide Provision;
  }

  lemma HandleKeepsIdle(s: Sub, m: Msg)
    requires SoundSub(s) && IdleWithoutIsim(s)
    ensures IdleWithoutIsim(Handle(s, m).sub)
  {
    hide Provision;
  }

  lemma {:induction false} RunKeepsIdle(l: Local, es: seq<Event>)
    requires Sound(l) && IdleWithoutIsim(l.sub)
    requires forall k :: 0 <= k < |es| && es[k].Do? ==> !UpdatesAttributes(es[k].call)
    ensures IdleWithoutIsim(Run(l, es).sub)
  {
    hide Apply, Handle, SoundSub, IdleWithoutIsim, UpdatesAttributes;
    if es != [] {
      var e := es[|es| - 1];
      RunKeepsIdle(l, es[..|es| - 1]);
      RunSound(l, es[..|es| - 1]);
      var before := Run(l, es[..|es| - 1]);
      if e.Do? {
        if e.call.IsimStateChanged? {
          IsimKeepsIdle(before.sub, e.call);
        } else {
          OtherKeepsIdle(before.sub, e.call);
        }
      } else if before.pending != [] {
        HandleKeepsIdle(before.sub, before.pending[0]);
      }
    }
  }

  lemma NoUpdateNoSwitch(l: Local, es: seq<Event>)
    requires forall k :: 0 <= k < |es| && es[k].Do? ==> !UpdatesAttributes(es[k].call)
    ensures AttributesNeverSwitchOn(l, es)
  {
    hide Run;
  }

  /** In runs without attribute updates, draining the queue with the ISIM loaded always ends in
      PROVISIONED, whether or not ISIM support survives. */
  lemma DrainingEndsProvisioned(carrier: Carrier, stored: Identity, isimAvailable: bool, es: seq<Event>, n: nat)
    requires forall k :: 0 <= k < |es| && es[k].Do? ==> !UpdatesAttributes(es[k].call)
    ensures var l := Run(Start(carrier, stored, isimAvailable), es);
            l.sub.isimState == Loaded && n >= TotalWeight(l.pending)
            ==> Run(l, Deliveries(n)).sub.state == Provisioned
  {
    hide Step, Sound, UpToDate, Run;
    var l0 := Start(carrier, stored, isimAvailable);
    var l := Run(l0, es);
    StartSound(carrier, stored, isimAvailable);
    RunSound(l0, es);
    RunKeepsIdle(l0, es);
    RunKeepsIdle(l, Deliveries(n));
    NoUpdateNoSwitch(l0, es);
    NoLostRefresh(carrier, stored, isimAvailable, es, n);
  }

  lemma RunFive(l: Local, a: Event, b: Event, c: Event, d: Event, e: Event)
    ensures Run(l, [a, b, c, d, e]) == Step(Step(Step(Step(Step(l, a), b), c), d), e)
  {
    hide Step;
    RunAppend1(l, [], a);
    RunAppend1(l, [a], b);
    RunAppend1(l, [a, b], c);
    RunAppend1(l, [a, b, c], d);
    RunAppend1(l, [a, b, c, d], e);
    assert [] + [a] == [a] && [a] + [b] == [a, b] && [a, b] + [c] == [a, b, c];
    assert [a, b, c] + [d] == [a, b, c, d] && [a, b, c, d] + [e] == [a, b, c, d, e];
  }

  /** The restriction is needed: attribute updates alone can switch support off and on again, and a
      refresh that ended in between is lost for good. */
  lemma AttributeUpdateLosesRefresh(stored: Identity, id: Identity)
    ensures var es := [Do(IsimStateChanged(IsimRefreshing, id)), Do(SetIsimAttribute(false)), Deliver,
                       Do(IsimStateChanged(Loaded, id)), Do(SetIsimAttribute(true))];
            var l := Run(Start(Carrier(true, false, 1, ""), stored, true), es);
            l.sub.IsIsimSupported() && l.sub.isimState == Loaded && l.pending == [] && l.sub.state != Provisioned
  {
    hide Provision;
    var e1 := Do(IsimStateChanged(IsimRefreshing, id));
    var e2 := Do(SetIsimAttribute(false));
    var e4 := Do(IsimStateChanged(Loaded, id));
    var e5 := Do(SetIsimAttribute(true));
    var l0 := Start(Carrier(true, false, 1, ""), stored, true);
    RunFive(l0, e1, e2, Deliver, e4, e5);
  }

  // ---- exactly when a refresh is lost ----------------------------------------------------------

  /** The step that loses a refresh: an attribute update switches ISIM support on while the ISIM is
      loaded, nothing is queued that would read it, and the state or the record is behind. */
  ghost predicate LosesRefresh(l: Local, e: Event) {
    && e.Do? && !NotSwitchedOnByAttribute(l.sub, e.call)
    && l.sub.isimState == Loaded && !RefreshPending(l.pending)
    && !(l.sub.state == Provisioned && UpToDate(l.sub))
  }

  lemma SwitchedOnByAttribute(s: Sub, call: Call)
    requires !NotSwitchedOnByAttribute(s, call)
    ensures Apply(s, call).posts == [] && Apply(s, call).sub.IsIsimSupported()
    ensures Apply(s, call).sub == s.(attrs := Apply(s, call).sub.attrs)
  {
  }

  lemma StepLosesIff(l: Local, e: Event)
    requires Sound(l) && Safe(l)
    ensures Safe(Step(l, e)) <==> !LosesRefresh(l, e)
  {
    hide Apply, Handle, SoundSub, NotSwitchedOnByAttribute;
    if e.Do? && !NotSwitchedOnByAttribute(l.sub, e.call) {
      SwitchedOnByAttribute(l.sub, e.call);
      assert l.pending + [] == l.pending;
    } else {
      StepSafe(l, e);
    }
  }

  lemma RunPrefix(l: Local, es: seq<Event>, k: nat)
    requires k < |es|
    ensures Run(l, es[..k + 1]) == Step(Run(l, es[..k]), es[k])
  {
    hide Step;
    assert es[..k + 1][..k] == es[..k];
  }

  lemma {:induction false} SafeUpTo(l: Local, es: seq<Event>, k: nat)
    requires Sound(l) && Safe(l) && k <= |es|
    requires forall i :: 0 <= i < |es| ==> !LosesRefresh(Run(l, es[..i]), es[i])
    ensures Safe(Run(l, es[..k]))
  {
    hide Step, Sound, Safe, LosesRefresh;
    if k > 0 {
      SafeUpTo(l, es, k - 1);
      RunSound(l, es[..k - 1]);
      RunPrefix(l, es, k - 1);
      StepLosesIff(Run(l, es[..k - 1]), es[k - 1]);
    }
  }

  /** A run never loses a refresh exactly if none of its steps is such an attribute update. */
  lemma RefreshNeverLostIff(l: Local, es: seq<Event>)
    requires Sound(l) && Safe(l)
    ensures (forall k :: 0 <= k <= |es| ==> Safe(Run(l, es[..k]))) <==>
            (forall k :: 0 <= k < |es| ==> !LosesRefresh(Run(l, es[..k]), es[k]))
  {
    hide Step, Sound, Safe, LosesRefresh, Run;
    if forall k :: 0 <= k < |es| ==> !LosesRefresh(Run(l, es[..k]), es[k]) {
      forall k | 0 <= k <= |es| ensures Safe(Run(l, es[..k])) {
        SafeUpTo(l, es, k);
      }
    }
    if forall k :: 0 <= k <= |es| ==> Safe(Run(l, es[..k])) {
      forall k | 0 <= k < |es| ensures !LosesRefresh(Run(l, es[..k]), es[k]) {
        RunSound(l, es[..k]);
        RunPrefix(l, es, k);
        assert Safe(Run(l, es[..k])) && Safe(Run(l, es[..k + 1]));
        StepLosesIff(Run(l, es[..k]), es[k]);
      }
    }
  }

  // ---- no dangling start ---------------------------------------------------------------------

  predicate Closing(l: Local) {
    Settled(l.sub, MarkOfAll(l.pending))
  }

  /** In this run ISIM support is only switched on by calls that queue a refresh. */
  predicate SwitchesQueueRefresh(l: Local, es: seq<Event>) {
    forall k :: 0 <= k < |es| && es[k].Do? ==> SwitchedOnWithRefresh(Run(l, es[..k]).sub, es[k].call)
  }

  lemma {:induction false} MarkOfAppend(xs: seq<Msg>, ys: seq<Msg>)
    ensures MarkOfAll(xs + ys) == Then(MarkOfAll(xs), MarkOfAll(ys))
  {
    if xs == [] {
      assert xs + ys == ys;
    } else {
      assert (xs + ys)[1..] == xs[1..] + ys;
      MarkOfAppend(xs[1..], ys);
    }
  }

  lemma StepClosing(l: Local, e: Event)
    requires Sound(l) && Closing(l) && (e.Do? ==> SwitchedOnWithRefresh(l.sub, e.call))
    ensures Closing(Step(l, e))
  {
    hide Apply, Handle, Settled, SoundSub, MarkOf;
    match e
    case Do(call) =>
      CallSettled(l.sub, call, MarkOfAll(l.pending));
      MarkOfAppend(l.pending, Apply(l.sub, call).posts);
    case Deliver =>
      if l.pending != [] {
        HandleSettled(l.sub, l.pending[0], MarkOfAll(l.pending[1..]));
        MarkOfAppend(l.pending[1..], Handle(l.sub, l.pending[0]).posts);
      }
  }

  lemma {:induction false} RunClosing(l: Local, es: seq<Event>)
    requires Sound(l) && Closing(l) && SwitchesQueueRefresh(l, es)
    ensures Closing(Run(l, es))
  {
    hide Step, Sound, Closing, SwitchedOnWithRefresh;
    if es != [] {
      var front := es[..|es| - 1];
      assert forall k :: 0 <= k < |front| ==> front[..k] == es[..k] && front[k] == es[k];
      RunClosing(l, front);
      RunSound(l, front);
      StepClosing(Run(l, front), es[|es| - 1]);
    }
  }

  /** No dangling start. Once the queue is drained with ISIM supported and loaded, the last thing the
      ISIM listeners were told is a completion: never a start, never an error. */
  lemma NoDanglingStart(carrier: Carrier, stored: Identity, isimAvailable: bool, es: seq<Event>)
    requires SwitchesQueueRefresh(Start(carrier, stored, isimAvailable), es)
    ensures var l := Run(Start(carrier, stored, isimAvailable), es);
            l.pending == [] && l.sub.IsIsimSupported() && l.sub.isimState == Loaded
            ==> LastNotice(l.sub.notices) == Closed
  {
    hide Run, LastNotice;
    var l0 := Start(carrier, stored, isimAvailable);
    StartSound(carrier, stored, isimAvailable);
    assert Closing(l0) by { hide Sound; }
    RunClosing(l0, es);
  }

  lemma StartIsim(carrier: Carrier, stored: Identity)
    requires carrier.isim
    ensures var l := Start(carrier, stored, true);
            && l.sub.isimHandle && l.sub.attrs.isim && l.sub.state == Provisioning && l.pending == []
  {
  }

  lemma TellManualTwice(l: Local)
    requires l.pending == [InitCompleted(ManualChannel), RefreshStartedNCompleted(ManualChannel)]
    ensures var d := Step(Step(l, Deliver), Deliver);
            && d.pending == [] && LastNotice(d.sub.notices) == LastNotice(l.sub.notices)
            && d.sub.attrs == l.sub.attrs && d.sub.isimState == l.sub.isimState
  {
    hide LastNotice;
    var s := l.sub;
    var t := Tell(s, ManualChannel, InitDone);
    TellMark(s, ManualChannel, InitDone);
    TellMark(t, ManualChannel, RefreshBegun);
    TellMark(Tell(t, ManualChannel, RefreshBegun), ManualChannel, RefreshDone);
  }

  /** The restriction is needed: a manual update can take support away while a start is queued and
      give it back without queueing a refresh. */
  lemma ManualUpdateLeavesStartOpen(stored: Identity, id: Identity)
    ensures var es := [Do(IsimStateChanged(IsimRefreshing, id)), Do(UpdateSubscriberInfo(id, false)), Deliver,
                       Do(IsimStateChanged(Loaded, id)), Do(UpdateSubscriberInfo(id, true)), Deliver, Deliver];
            var l := Run(Start(Carrier(true, false, 1, ""), stored, true), es);
            l.pending == [] && l.sub.IsIsimSupported() && l.sub.isimState == Loaded
            && LastNotice(l.sub.notices) == Open
  {
    hide Provision, LastNotice;
    var e1 := Do(IsimStateChanged(IsimRefreshing, id));
    var e2 := Do(UpdateSubscriberInfo(id, false));
    var e4 := Do(IsimStateChanged(Loaded, id));
    var e5 := Do(UpdateSubscriberInfo(id, true));
    var l0 := Start(Carrier(true, false, 1, ""), stored, true);
    StartIsim(Carrier(true, false, 1, ""), stored);
    var l2 := Step(Step(l0, e1), e2);
    assert l2.pending == [RefreshStarted(IsimChannel), InitCompleted(ManualChannel)];
    assert l2.sub.isimHandle && !l2.sub.attrs.isim && l2.sub.state == Provisioned;
    var l5 := Step(Step(Step(l2, Deliver), e4), e5);
    TellMark(l2.sub, IsimChannel, RefreshBegun);
    assert l5.pending == [InitCompleted(ManualChannel), RefreshStartedNCompleted(ManualChannel)];
    assert LastNotice(l5.sub.notices) == Open;
    TellManualTwice(l5);
    RunFive(l0, e1, e2, Deliver, e4, e5);
    var five := [e1, e2, Deliver, e4, e5];
    RunAppend1(l0, five, Deliver);
    RunAppend1(l0, five + [Deliver], Deliver);
    assert five + [Deliver] + [Deliver] == [e1, e2, Deliver, e4, e5, Deliver, Deliver];
  }

  // ---- exactly when a start is left open -------------------------------------------------------

  /** The step that leaves a start open: support is switched on without queueing a refresh while the
      ISIM is loaded and the last word on its channel, said or queued, is no completion. */
  predicate LeavesStartOpen(l: Local, e: Event) {
    && e.Do? && !SwitchedOnWithRefresh(l.sub, e.call)
    && l.sub.isimState == Loaded
    && Then(LastNotice(l.sub.notices), MarkOfAll(l.pending)) != Closed
  }

  lemma SwitchedOnSilently(s: Sub, call: Call)
    requires !SwitchedOnWithRefresh(s, call)
    ensures var out := Apply(s, call);
            && out.sub.IsIsimSupported() && out.sub.isimState == s.isimState && out.sub.notices == s.notices
            && MarkOfAll(out.posts) == Silent
  {
    hide Provision;
  }

  lemma StepOpensIff(l: Local, e: Event)
    requires Sound(l) && Closing(l)
    ensures Closing(Step(l, e)) <==> !LeavesStartOpen(l, e)
  {
    hide Apply, Handle, SoundSub, SwitchedOnWithRefresh, LastNotice, MarkOfAll;
    if e.Do? && !SwitchedOnWithRefresh(l.sub, e.call) {
      SwitchedOnSilently(l.sub, e.call);
      MarkOfAppend(l.pending, Apply(l.sub, e.call).posts);
    } else {
      StepClosing(l, e);
    }
  }

  lemma {:induction false} ClosingUpTo(l: Local, es: seq<Event>, k: nat)
    requires Sound(l) && Closing(l) && k <= |es|
    requires forall i :: 0 <= i < |es| ==> !LeavesStartOpen(Run(l, es[..i]), es[i])
    ensures Closing(Run(l, es[..k]))
  {
    hide Step, Sound, Closing, LeavesStartOpen;
    if k > 0 {
      ClosingUpTo(l, es, k - 1);
      RunSound(l, es[..k - 1]);
      RunPrefix(l, es, k - 1);
      StepOpensIff(Run(l, es[..k - 1]), es[k - 1]);
    }
  }

  /** A run always closes what it starts exactly if none of its steps is such a switch. */
  lemma StartNeverLeftOpenIff(l: Local, es: seq<Event>)
    requires Sound(l) && Closing(l)
    ensures (forall k :: 0 <= k <= |es| ==> Closing(Run(l, es[..k]))) <==>
            (forall k :: 0 <= k < |es| ==> !LeavesStartOpen(Run(l, es[..k]), es[k]))
  {
    hide Step, Sound, Closing, LeavesStartOpen, Run;
    if forall k :: 0 <= k < |es| ==> !LeavesStartOpen(Run(l, es[..k]), es[k]) {
      forall k | 0 <= k <= |es| ensures Closing(Run(l, es[..k])) {
        ClosingUpTo(l, es, k);
      }
    }
    if forall k :: 0 <= k <= |es| ==> Closing(Run(l, es[..k])) {
      forall k | 0 <= k < |es| ensures !LeavesStartOpen(Run(l, es[..k]), es[k]) {
        RunSound(l, es[..k]);
        RunPrefix(l, es, k);
        assert Closing(Run(l, es[..k])) && Closing(Run(l, es[..k + 1]));
        StepOpensIff(Run(l, es[..k]), es[k]);
      }
    }
  }

  // ---- initialisation credit -----------------------------------------------------------------

  function EarnedBy(es: seq<Event>): nat {
    if es == [] then 0
    else EarnedBy(es[..|es| - 1]) + if es[|es| - 1].Do? then Earned(es[|es| - 1].call) else 0
  }

  lemma {:induction false} InitCompletionsAppend(xs: seq<Msg>, ys: seq<Msg>)
    ensures InitCompletions(xs + ys) == InitCompletions(xs) + InitCompletions(ys)
  {
    if xs == [] {
      assert xs + ys == ys;
    } else {
      assert (xs + ys)[1..] == xs[1..] + ys;
      InitCompletionsAppend(xs[1..], ys);
    }
  }

  lemma StepCredit(l: Local, e: Event)
    requires Sound(l)
    ensures InitCompletions(Step(l, e).posted) + Credit(Step(l, e).sub)
            <= InitCompletions(l.posted) + Credit(l.sub) + if e.Do? then Earned(e.call) else 0
  {
    hide Apply, Handle, Credit, SoundSub, Earned;
    match e
    case Do(call) =>
      CallSpendsCredit(l.sub, call);
      InitCompletionsAppend(l.posted, Apply(l.sub, call).posts);
    case Deliver =>
      if l.pending != [] {
        HandleSpendsCredit(l.sub, l.pending[0]);
        InitCompletionsAppend(l.posted, Handle(l.sub, l.pending[0]).posts);
      }
  }

  lemma {:induction false} RunCredit(l: Local, es: seq<Event>)
    requires Sound(l)
    ensures InitCompletions(Run(l, es).posted) + Credit(Run(l, es).sub)
            <= InitCompletions(l.posted) + Credit(l.sub) + EarnedBy(es)
  {
    hide Step, Sound, Credit, Earned, InitCompletions;
    if es != [] {
      RunCredit(l, es[..|es| - 1]);
      RunSound(l, es[..|es| - 1]);
      StepCredit(Run(l, es[..|es| - 1]), es[|es| - 1]);
    }
  }

  /** Initialisation credit. However calls, ISIM events and deliveries interleave, INIT_COMPLETED is
      posted on the ISIM channel at most once for Init, once per Refresh and once per ISIM IDLE. */
  lemma InitialisationCredit(carrier: Carrier, stored: Identity, isimAvailable: bool, es: seq<Event>)
    ensures InitCompletions(Run(Start(carrier, stored, isimAvailable), es).posted) <= 1 + EarnedBy(es)
  {
    hide Run;
    StartSound(carrier, stored, isimAvailable);
    RunCredit(Start(carrier, stored, isimAvailable), es);
  }
}
