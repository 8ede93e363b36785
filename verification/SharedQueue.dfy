/** The results of SubscriberTheorems carried over to many configurations sharing one queue. */
module SharedQueue {
  import opened SubscriberModel
  import opened SubscriberSteps
  import opened SubscriberIdentity
  import SubscriberRuns
  import SubscriberTheorems
  import SubscriberAccount
  import opened MessageQueue

  /** In every run of the whole system each live configuration keeps the initialisation credit. */
  lemma CreditInSharedQueue(es: seq<Event>, c: Config)
    requires c in Run(es).registered
    ensures InitCompletions(MsgsOf(Run(es).posted, c)) <= 1 + SubscriberTheorems.EarnedBy(Seen(es, c))
  {
    hide Run, Step, SubscriberRuns.Run, SubscriberRuns.Start;
    ConfigurationsAreIsolated(es, c);
    var o := Origin(es, c).value;
    SubscriberTheorems.InitialisationCredit(o.carrier, o.stored, o.isimAvailable, Seen(es, c));
  }

  // ---- draining the shared queue -----------------------------------------------------------------

  function Drain(n: nat): seq<Event> {
    seq(n, i => Dispatch)
  }

  lemma DrainSnoc(es: seq<Event>, n: nat)
    requires n > 0
    ensures (es + Drain(n))[..|es + Drain(n)| - 1] == es + Drain(n - 1)
    ensures (es + Drain(n))[|es + Drain(n)| - 1] == Dispatch
  {
  }

  lemma {:induction false} RunDrained(es: seq<Event>, n: nat)
    ensures Run(es + Drain(n)) == Dispatches(Run(es), n)
    ensures Run(es + Drain(n)).registered == Run(es).registered
  {
    hide Step, SubscriberRuns.Run;
    if n == 0 {
      assert es + Drain(0) == es;
    } else {
      RunDrained(es, n - 1);
      DrainSnoc(es, n);
      MessagesConserved(es + Drain(n - 1));
      var w := Run(es + Drain(n - 1));
      if w.queue != [] {
        DispatchFate(w);
      } else {
        DispatchIdle(w);
      }
    }
  }

  /** While the queue drains a configuration sees deliveries only. */
  lemma {:induction false} SeenDrained(es: seq<Event>, c: Config, n: nat) returns (m: nat)
    requires c in Run(es).registered
    ensures Seen(es + Drain(n), c) == Seen(es, c) + SubscriberRuns.Deliveries(m)
    ensures Origin(es, c).Some? ==> Origin(es + Drain(n), c) == Origin(es, c)
  {
    hide Run, Step, SubscriberRuns.Run;
    if n == 0 {
      m := 0;
      assert es + Drain(0) == es;
      assert Seen(es, c) + SubscriberRuns.Deliveries(0) == Seen(es, c);
    } else {
      m := SeenDrained(es, c, n - 1);
      DrainSnoc(es, n);
      RunDrained(es, n - 1);
      SeenStep(es + Drain(n), c);
      if Seen(es + Drain(n), c) != Seen(es + Drain(n - 1), c) {
        assert SubscriberRuns.Deliveries(m + 1) == SubscriberRuns.Deliveries(m) + [SubscriberRuns.Deliver];
        m := m + 1;
      }
    }
  }

  lemma DeliveriesSwitchNothing(l: SubscriberRuns.Local, xs: seq<SubscriberRuns.Event>, m: nat)
    requires SubscriberTheorems.AttributesNeverSwitchOn(l, xs)
    ensures SubscriberTheorems.AttributesNeverSwitchOn(l, xs + SubscriberRuns.Deliveries(m))
  {
    hide SubscriberRuns.Run, NotSwitchedOnByAttribute;
    var all := xs + SubscriberRuns.Deliveries(m);
    assert forall k :: 0 <= k < |xs| ==> all[k] == xs[k] && all[..k] == xs[..k];
    assert forall k :: |xs| <= k < |all| ==> all[k] == SubscriberRuns.Deliver;
  }

  lemma RefreshQueuedInSharedQueue(es: seq<Event>, c: Config)
    requires c in Run(es).registered && c in Run(es).subs && Origin(es, c).Some? && Origin(es, c).value.Create?
    requires SubscriberTheorems.AttributesNeverSwitchOn(Seed(Origin(es, c).value), Seen(es, c))
    ensures var s := Run(es).subs[c];
            s.IsIsimSupported() && s.isimState == Loaded && !RefreshPending(MsgsOf(Run(es).queue, c))
            ==> s.state == Provisioned && UpToDate(s)
  {
    hide Run, Step, SubscriberRuns.Run, SubscriberRuns.Start, UpToDate;
    ConfigurationsAreIsolated(es, c);
    var o := Origin(es, c).value;
    SubscriberTheorems.NoLostRefresh(o.carrier, o.stored, o.isimAvailable, Seen(es, c), 0);
  }

  lemma DrainedProvisioned(es: seq<Event>, c: Config, n: nat)
    requires c in Run(es).registered && c in Run(es).subs && Origin(es, c).Some? && Origin(es, c).value.Create?
    requires SubscriberTheorems.AttributesNeverSwitchOn(Seed(Origin(es, c).value), Seen(es, c))
    requires n >= TotalWeight(Run(es).queue)
    ensures var w := Dispatches(Run(es), n);
            && w.queue == [] && c in w.registered && c in w.subs
            && (w.subs[c].IsIsimSupported() && Run(es).subs[c].isimState == Loaded ==>
                  w.subs[c].state == Provisioned && UpToDate(w.subs[c]))
  {
    hide Run, Step, Dispatches, SubscriberRuns.Run, SubscriberRuns.Start, UpToDate;
    hide SubscriberTheorems.AttributesNeverSwitchOn;
    var later := es + Drain(n);
    var l := Seed(Origin(es, c).value);
    RunDrained(es, n);
    DispatchingEmptiesQueue(Run(es), n);
    var m := SeenDrained(es, c, n);
    ConfigurationsAreIsolated(es, c);
    ConfigurationsAreIsolated(later, c);
    SubscriberRuns.RunAppend(l, Seen(es, c), SubscriberRuns.Deliveries(m));
    SubscriberRuns.DeliveriesKeepIsim(SubscriberRuns.Run(l, Seen(es, c)), m);
    DeliveriesSwitchNothing(l, Seen(es, c), m);
    RefreshQueuedInSharedQueue(later, c);
  }

  /** With its ISIM supported and loaded, a live configuration that is not provisioned and current has
      a refresh waiting in the shared queue; and dispatching the queue until it is empty leaves the
      configuration provisioned and current, whatever the others have queued. */
  lemma NoLostRefreshInSharedQueue(es: seq<Event>, c: Config, n: nat)
    requires c in Run(es).registered && c in Run(es).subs && Origin(es, c).Some? && Origin(es, c).value.Create?
    requires SubscriberTheorems.AttributesNeverSwitchOn(Seed(Origin(es, c).value), Seen(es, c))
    ensures var s := Run(es).subs[c];
            s.IsIsimSupported() && s.isimState == Loaded && !RefreshPending(MsgsOf(Run(es).queue, c))
            ==> s.state == Provisioned && UpToDate(s)
    ensures n >= TotalWeight(Run(es).queue) ==>
              var w := Dispatches(Run(es), n);
              && w.queue == [] && c in w.registered && c in w.subs
              && (w.subs[c].IsIsimSupported() && Run(es).subs[c].isimState == Loaded ==>
                    w.subs[c].state == Provisioned && UpToDate(w.subs[c]))
  {
    hide Run, Step, Dispatches, SubscriberTheorems.AttributesNeverSwitchOn;
    RefreshQueuedInSharedQueue(es, c);
    if n >= TotalWeight(Run(es).queue) {
      DrainedProvisioned(es, c, n);
    }
  }

  /** Once no message of a live configuration is left, its ISIM listeners were last told a completion. */
  lemma NoDanglingStartInSharedQueue(es: seq<Event>, c: Config)
    requires c in Run(es).registered && c in Run(es).subs && Origin(es, c).Some? && Origin(es, c).value.Create?
    requires SubscriberTheorems.SwitchesQueueRefresh(Seed(Origin(es, c).value), Seen(es, c))
    ensures var s := Run(es).subs[c];
            s.IsIsimSupported() && s.isimState == Loaded && MsgsOf(Run(es).queue, c) == []
            ==> LastNotice(s.notices) == Closed
  {
    hide Run, Step, SubscriberRuns.Run, SubscriberRuns.Start, LastNotice;
    ConfigurationsAreIsolated(es, c);
    var o := Origin(es, c).value;
    SubscriberTheorems.NoDanglingStart(o.carrier, o.stored, o.isimAvailable, Seen(es, c));
  }

  /** In every run of the whole system a live configuration has told its listeners INIT_COMPLETED exactly once for each
      step of its own that ends an initialisation, apart from the messages it still has in the shared queue. */
  lemma InitialisationIsReportedInSharedQueue(es: seq<Event>, c: Config, channel: Channel)
    requires c in Run(es).registered && c in Run(es).subs && Origin(es, c).Some? && Origin(es, c).value.Create?
    ensures
      SubscriberAccount.Told(Run(es).subs[c].notices, channel, InitDone)
      + multiset(MsgsOf(Run(es).queue, c))[InitCompleted(channel)] ==
      SubscriberAccount.TimesCaused(Seed(Origin(es, c).value), Seen(es, c), InitCompleted(channel))
  {
    hide Run, Step, SubscriberRuns.Run, SubscriberRuns.Start, SubscriberAccount.Told, SubscriberAccount.TimesCaused;
    ConfigurationsAreIsolated(es, c);
    var o := Origin(es, c).value;
    SubscriberAccount.InitialisationIsReported(o.carrier, o.stored, o.isimAvailable, Seen(es, c), channel);
  }

  /** And its record holds the identity supplied to it last. */
  lemma RecordInSharedQueue(es: seq<Event>, c: Config)
    requires c in Run(es).registered && c in Run(es).subs && Origin(es, c).Some? && Origin(es, c).value.Create?
    ensures
      var s := Run(es).subs[c];
      var last := SubscriberAccount.LastSupply(Seed(Origin(es, c).value), Seen(es, c));
      && (last == Nowhere ==> forall r :: r in s.records ==> IsBlank(r.core))
      && (last != Nowhere ==> |s.records| == 1 && Holds(s.records[0].core, last.id))
  {
    hide Run, Step, SubscriberRuns.Run, SubscriberRuns.Start, SubscriberAccount.LastSupply, Holds;
    ConfigurationsAreIsolated(es, c);
    var o := Origin(es, c).value;
    SubscriberAccount.RecordHoldsLastSupply(o.carrier, o.stored, o.isimAvailable, Seen(es, c));
  }
}
