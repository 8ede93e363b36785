/** The exact account of a run: which steps post which message, what the listeners hear, which state is
    entered and whose identity the record holds. Each table here is read off the events and the situation
    before them, message by message and state by state, not handler by handler.
 */
module SubscriberAccount {
  import opened AStrings
  import opened SubscriberModel
  import opened SubscriberIdentity
  import opened SubscriberSteps
  import opened SubscriberRuns

  // ---- what happens in a step ------------------------------------------------------------------

  /** The ISIM reports a state and is heard: its listener is installed and it is supported. */
  predicate Hears(l: Local, e: Event, isim: IsimState) {
    && e.Do? && e.call.IsimStateChanged? && e.call.isim == isim
    && l.sub.isimHandle && l.sub.attrs.isim
  }

  predicate Handles(l: Local, e: Event, m: Msg) {
    e.Deliver? && l.pending != [] && l.pending[0] == m
  }

  /** Attributes and identities are read from the start again. */
  predicate RereadsAll(l: Local, e: Event) {
    e == Do(Refresh) || Handles(l, e, UpdateAllConfigs)
  }

  /** EnableIsim, where ISIM support was off. */
  predicate SwitchesOn(l: Local, e: Event) {
    e == Do(EnableIsim) && !l.sub.attrs.isim
  }

  /** The records of the ISIM are read: when it reports LOADED and the state is not PROVISIONED, or for a
      queued message if the ISIM is supported, for the refresh only if it is loaded. */
  predicate ReadsIsim(l: Local, e: Event) {
    || (Hears(l, e, Loaded) && l.sub.state != Provisioned)
    || (Handles(l, e, UpdateIsimRecords) && l.sub.attrs.isim)
    || (Handles(l, e, RefreshIsimRecords) && l.sub.attrs.isim && l.sub.isimHandle && l.sub.isimState == Loaded)
  }

  /** A reading that ends an initialisation: in PROVISIONING, or when INACTIVE ends. */
  predicate Initialises(l: Local, e: Event) {
    ReadsIsim(l, e) && (l.sub.state == Provisioning || (l.sub.state == Inactive && e.Do?))
  }

  predicate WasProvisioned(l: Local) {
    l.sub.state == Provisioned || l.sub.state == Refreshing
  }

  // ---- every message has its causes ------------------------------------------------------------

  /** The step posts the message. */
  predicate Causes(l: Local, e: Event, m: Msg) {
    match m
    case InitCompleted(IsimChannel) => Initialises(l, e)
    case RefreshCompleted(IsimChannel) => ReadsIsim(l, e) && !Initialises(l, e)
    case RefreshStarted(IsimChannel) =>
      || Hears(l, e, IsimRefreshing)
      || (l.sub.state == Provisioned && (Hears(l, e, Loaded) || SwitchesOn(l, e)))
    case UpdateIsimRecords => l.sub.state == Provisioned && Hears(l, e, Loaded)
    case RefreshIsimRecords => SwitchesOn(l, e) || (RereadsAll(l, e) && l.sub.carrier.isim)
    case InitCompleted(ManualChannel) =>
      || (e == Do(Refresh) && !l.sub.carrier.isim)
      || (e.Do? && e.call.UpdateSubscriberInfo? && !WasProvisioned(l))
    case RefreshCompleted(ManualChannel) => Handles(l, e, UpdateAllConfigs) && !l.sub.carrier.isim
    case RefreshStartedNCompleted(ManualChannel) => e.Do? && e.call.UpdateSubscriberInfo? && WasProvisioned(l)
    case NotifyError(None, NoIsimApplication) => Hears(l, e, NotPresent)
    case NotifyError(Some(x), NoIsimApplication) =>
      && e.Do? && e.call.SetListener? && e.call.listener == x && e.call.onIsim
      && l.sub.attrs.isim && l.sub.isimHandle && l.sub.isimState == NotPresent
    case UpdateAllConfigs => e == Do(RequestUpdateAll)
    case _ => false
  }

  function Posts(l: Local, e: Event): seq<Msg> {
    match e
    case Do(call) => Apply(l.sub, call).posts
    case Deliver => if l.pending == [] then [] else Handle(l.sub, l.pending[0]).posts
  }

  lemma PostedGrows(l: Local, e: Event)
    ensures Step(l, e).posted == l.posted + Posts(l, e)
  {
    hide Apply, Handle;
  }

  /** The message is there, counted by position; no step posts more than two messages. */
  function Copies(ms: seq<Msg>, m: Msg): nat {
    (if |ms| >= 1 && ms[0] == m then 1 else 0) + (if |ms| >= 2 && ms[1] == m then 1 else 0)
  }

  lemma CopiesCount(ms: seq<Msg>, m: Msg)
    requires |ms| <= 2
    ensures multiset(ms)[m] == Copies(ms, m)
  {
    if |ms| == 2 {
      assert ms == [ms[0]] + [ms[1]];
    } else if |ms| == 1 {
      assert ms == [ms[0]];
    }
  }

  lemma IsimPosts(l: Local, call: Call, m: Msg)
    requires SoundSub(l.sub) && call.IsimStateChanged?
    ensures |Posts(l, Do(call))| <= 2
    ensures Copies(Posts(l, Do(call)), m) == if Causes(l, Do(call), m) then 1 else 0
  {
    hide Provision;
  }

  lemma ProvisionPosts(l: Local, call: Call, m: Msg)
    requires SoundSub(l.sub) && Provisions(call)
    ensures |Posts(l, Do(call))| <= 2
    ensures Copies(Posts(l, Do(call)), m) == if Causes(l, Do(call), m) then 1 else 0
  {
    hide Provision;
  }

  lemma OtherPosts(l: Local, call: Call, m: Msg)
    requires SoundSub(l.sub) && !call.IsimStateChanged? && !Provisions(call)
    ensures |Posts(l, Do(call))| <= 2
    ensures Copies(Posts(l, Do(call)), m) == if Causes(l, Do(call), m) then 1 else 0
  {
    hide Provision;
  }

  lemma RereadPosts(l: Local, m: Msg)
    requires SoundSub(l.sub) && l.pending != [] && l.pending[0] == UpdateAllConfigs
    ensures |Posts(l, Deliver)| <= 2
    ensures Copies(Posts(l, Deliver), m) == if Causes(l, Deliver, m) then 1 else 0
  {
    hide Provision, Fill, CreateSubscriberInfo;
  }

  lemma HandlePosts(l: Local, m: Msg)
    requires SoundSub(l.sub)
    ensures |Posts(l, Deliver)| <= 2
    ensures Copies(Posts(l, Deliver), m) == if Causes(l, Deliver, m) then 1 else 0
  {
    hide Provision, Fill, CreateSubscriberInfo, UpdateAll;
    if l.pending != [] && l.pending[0] == UpdateAllConfigs {
      RereadPosts(l, m);
    }
  }

  /** A step posts a message once if it causes it, and not at all otherwise. */
  lemma StepPosts(l: Local, e: Event, m: Msg)
    requires Sound(l)
    ensures multiset(Step(l, e).posted)[m] == multiset(l.posted)[m] + if Causes(l, e, m) then 1 else 0
  {
    hide SoundSub, Causes, Posts, Step, Copies;
    PostedGrows(l, e);
    if e.Deliver? {
      HandlePosts(l, m);
    } else if e.call.IsimStateChanged? {
      IsimPosts(l, e.call, m);
    } else if Provisions(e.call) {
      ProvisionPosts(l, e.call, m);
    } else {
      OtherPosts(l, e.call, m);
    }
    CopiesCount(Posts(l, e), m);
  }

  /** The number of steps of a run that cause the message. */
  function TimesCaused(l: Local, es: seq<Event>, m: Msg): nat {
    if es == [] then 0
    else
      var init := es[..|es| - 1];
      TimesCaused(l, init, m) + if Causes(Run(l, init), es[|es| - 1], m) then 1 else 0
  }

  /** The exact account. In every run, each message is posted exactly once for each step that causes it. */
  lemma {:induction false} PostsAreCaused(l: Local, es: seq<Event>, m: Msg)
    requires Sound(l)
    ensures multiset(Run(l, es).posted)[m] == multiset(l.posted)[m] + TimesCaused(l, es, m)
  {
    hide Step, Sound, Causes;
    if es != [] {
      PostsAreCaused(l, es[..|es| - 1], m);
      RunSound(l, es[..|es| - 1]);
      StepPosts(Run(l, es[..|es| - 1]), es[|es| - 1], m);
    }
  }

  // ---- what the listeners hear -----------------------------------------------------------------

  /** What handling a message tells whom: the listeners of its channel, or for an error possibly one of those
      of the ISIM channel. */
  function Said(s: Sub, m: Msg): seq<Notice> {
    match m
    case InitCompleted(c) => [Notice(c, InitDone, ListenersOf(s, c))]
    case RefreshCompleted(c) => [Notice(c, RefreshDone, ListenersOf(s, c))]
    case RefreshStarted(c) => [Notice(c, RefreshBegun, ListenersOf(s, c))]
    case RefreshStartedNCompleted(c) =>
      [Notice(c, RefreshBegun, ListenersOf(s, c)), Notice(c, RefreshDone, ListenersOf(s, c))]
    case NotifyError(None, error) => [Notice(IsimChannel, Failed(error), ListenersOf(s, IsimChannel))]
    case NotifyError(Some(x), error) =>
      [Notice(IsimChannel, Failed(error), if x in ListenersOf(s, IsimChannel) then [x] else [])]
    case UpdateAllConfigs => [Notice(ManualChannel, RefreshBegun, ListenersOf(s, ManualChannel))]
    case _ => []
  }

  /** What a run says, message after message. */
  function AllSaid(l: Local, es: seq<Event>): seq<Notice> {
    if es == [] then []
    else
      var before := Run(l, es[..|es| - 1]);
      AllSaid(l, es[..|es| - 1])
      + if es[|es| - 1].Deliver? && before.pending != [] then Said(before.sub, before.pending[0]) else []
  }

  lemma CallSaysNothing(s: Sub, call: Call)
    ensures Apply(s, call).sub.notices == s.notices
  {
    hide Provision;
  }

  lemma HandleSays(s: Sub, m: Msg)
    ensures Handle(s, m).sub.notices == s.notices + Said(s, m)
  {
    hide Provision;
  }

  lemma StepSays(l: Local, e: Event)
    ensures Step(l, e).sub.notices ==
            l.sub.notices + if e.Deliver? && l.pending != [] then Said(l.sub, l.pending[0]) else []
  {
    hide Apply, Handle, Said;
    match e
    case Do(call) => CallSaysNothing(l.sub, call);
    case Deliver =>
      if l.pending != [] {
        HandleSays(l.sub, l.pending[0]);
      }
  }

  /** Callbacks are made by handling messages only, in that order and to the listeners there are then. */
  lemma {:induction false} NoticesFollowMessages(l: Local, es: seq<Event>)
    ensures Run(l, es).sub.notices == l.sub.notices + AllSaid(l, es)
  {
    hide Step, Said;
    if es == [] {
      assert l.sub.notices + [] == l.sub.notices;
    } else {
      NoticesFollowMessages(l, es[..|es| - 1]);
      StepSays(Run(l, es[..|es| - 1]), es[|es| - 1]);
    }
  }

  /** How often a channel was told something. */
  function Told(ns: seq<Notice>, channel: Channel, kind: NoticeKind): nat {
    if ns == [] then 0
    else Told(ns[..|ns| - 1], channel, kind)
         + if ns[|ns| - 1].channel == channel && ns[|ns| - 1].kind == kind then 1 else 0
  }

  lemma {:induction false} ToldAppend(xs: seq<Notice>, ys: seq<Notice>, channel: Channel, kind: NoticeKind)
    ensures Told(xs + ys, channel, kind) == Told(xs, channel, kind) + Told(ys, channel, kind)
  {
    if ys == [] {
      assert xs + ys == xs;
    } else {
      assert (xs + ys)[..|xs + ys| - 1] == xs + ys[..|ys| - 1];
      ToldAppend(xs, ys[..|ys| - 1], channel, kind);
    }
  }

  lemma ToldShort(ns: seq<Notice>, channel: Channel, kind: NoticeKind)
    requires |ns| <= 2
    ensures Told(ns, channel, kind) ==
            (if |ns| >= 1 && ns[0].channel == channel && ns[0].kind == kind then 1 else 0)
            + if |ns| >= 2 && ns[1].channel == channel && ns[1].kind == kind then 1 else 0
  {
    if ns != [] {
      assert ns[..1][..0] == [] && Told([], channel, kind) == 0;
      assert |ns| == 1 ==> ns[..0] == [] && ns[..1] == ns;
    }
  }

  lemma SaidInit(s: Sub, m: Msg, channel: Channel)
    ensures Told(Said(s, m), channel, InitDone) == if m == InitCompleted(channel) then 1 else 0
  {
    hide ListenersOf, Told;
    ToldShort(Said(s, m), channel, InitDone);
  }

  lemma StepTellsInit(l: Local, e: Event, channel: Channel)
    ensures
      var d := Step(l, e);
      Told(d.sub.notices, channel, InitDone) + multiset(l.handled)[InitCompleted(channel)] ==
      Told(l.sub.notices, channel, InitDone) + multiset(d.handled)[InitCompleted(channel)]
  {
    hide Apply, Handle, Said;
    StepSays(l, e);
    if e.Deliver? && l.pending != [] {
      ToldAppend(l.sub.notices, Said(l.sub, l.pending[0]), channel, InitDone);
      SaidInit(l.sub, l.pending[0], channel);
    } else {
      ToldAppend(l.sub.notices, [], channel, InitDone);
    }
  }

  lemma {:induction false} RunTellsInit(l: Local, es: seq<Event>, channel: Channel)
    ensures
      var d := Run(l, es);
      Told(d.sub.notices, channel, InitDone) + multiset(l.handled)[InitCompleted(channel)] ==
      Told(l.sub.notices, channel, InitDone) + multiset(d.handled)[InitCompleted(channel)]
  {
    hide Step;
    if es != [] {
      RunTellsInit(l, es[..|es| - 1], channel);
      StepTellsInit(Run(l, es[..|es| - 1]), es[|es| - 1], channel);
    }
  }

  /** Every initialisation is reported. In every run from the start the listeners of the ISIM channel have been
      told INIT_COMPLETED exactly once for each step that ends an initialisation, apart from the messages that
      still wait; and those of the manual channel likewise. */
  lemma InitialisationIsReported(carrier: Carrier, stored: Identity, isimAvailable: bool, es: seq<Event>,
                                 channel: Channel)
    ensures
      var l0 := Start(carrier, stored, isimAvailable);
      var l := Run(l0, es);
      Told(l.sub.notices, channel, InitDone) + multiset(l.pending)[InitCompleted(channel)] ==
      TimesCaused(l0, es, InitCompleted(channel))
  {
    hide Run, TimesCaused;
    var l0 := Start(carrier, stored, isimAvailable);
    StartSound(carrier, stored, isimAvailable);
    RunSound(l0, es);
    RunTellsInit(l0, es, channel);
    PostsAreCaused(l0, es, InitCompleted(channel));
  }

  // ---- which state is entered ------------------------------------------------------------------

  /** The step enters the state, perhaps again. */
  predicate Enters(l: Local, e: Event, state: State) {
    match state
    case Init => false
    case Inactive => Hears(l, e, IsimIdle)
    case Provisioning => e == Do(Refresh) && l.sub.carrier.isim
    case Provisioned =>
      || ReadsIsim(l, e) || Hears(l, e, NotPresent) || (e.Do? && e.call.UpdateSubscriberInfo?)
      || (RereadsAll(l, e) && !l.sub.carrier.isim)
    case Refreshing =>
      || (l.sub.state == Provisioned && (Hears(l, e, Loaded) || SwitchesOn(l, e)))
      || (l.sub.state != Provisioning && Hears(l, e, IsimRefreshing))
      || (Handles(l, e, UpdateAllConfigs) && l.sub.carrier.isim)
  }

  predicate EntersNone(l: Local, e: Event) {
    && !Enters(l, e, Inactive) && !Enters(l, e, Provisioning)
    && !Enters(l, e, Provisioned) && !Enters(l, e, Refreshing)
  }

  lemma CallEnters(l: Local, call: Call)
    requires SoundSub(l.sub)
    ensures var e, after := Do(call), Apply(l.sub, call).sub;
            (if EntersNone(l, e) then after.state == l.sub.state else Enters(l, e, after.state))
            && forall state :: Enters(l, e, state) ==> state == after.state
  {
    hide Provision;
  }

  lemma HandleEntersReread(l: Local)
    requires SoundSub(l.sub) && l.pending != [] && l.pending[0] == UpdateAllConfigs
    ensures var after := Handle(l.sub, l.pending[0]).sub;
            (if EntersNone(l, Deliver) then after.state == l.sub.state else Enters(l, Deliver, after.state))
            && forall state :: Enters(l, Deliver, state) ==> state == after.state
  {
    hide Provision, Fill, CreateSubscriberInfo;
  }

  lemma HandleEnters(l: Local)
    requires SoundSub(l.sub) && l.pending != []
    ensures var after := Handle(l.sub, l.pending[0]).sub;
            (if EntersNone(l, Deliver) then after.state == l.sub.state else Enters(l, Deliver, after.state))
            && forall state :: Enters(l, Deliver, state) ==> state == after.state
  {
    hide Provision, Fill, CreateSubscriberInfo, UpdateAll;
    if l.pending[0] == UpdateAllConfigs {
      HandleEntersReread(l);
    }
  }

  lemma StepEnters(l: Local, e: Event)
    requires Sound(l)
    ensures forall state :: Enters(l, e, state) ==> Step(l, e).sub.state == state
    ensures EntersNone(l, e) ==> Step(l, e).sub.state == l.sub.state
  {
    hide Apply, Handle, SoundSub;
    match e
    case Do(call) => CallEnters(l, call);
    case Deliver =>
      if l.pending != [] {
        HandleEnters(l);
      }
  }

  /** Step `k` entered the state and no later step entered any. */
  predicate EnteredLast(l: Local, es: seq<Event>, k: nat, state: State) {
    && k < |es| && Enters(Run(l, es[..k]), es[k], state)
    && forall j :: k < j < |es| ==> EntersNone(Run(l, es[..j]), es[j])
  }

  predicate NeverEntered(l: Local, es: seq<Event>) {
    forall j :: 0 <= j < |es| ==> EntersNone(Run(l, es[..j]), es[j])
  }

  lemma EnteredStep(l: Local, es: seq<Event>, state: State)
    requires es != []
    ensures var n := |es| - 1;
            && (NeverEntered(l, es) <==> NeverEntered(l, es[..n]) && EntersNone(Run(l, es[..n]), es[n]))
            && ((exists k: nat :: EnteredLast(l, es, k, state)) <==>
                  || Enters(Run(l, es[..n]), es[n], state)
                  || ((exists k: nat :: EnteredLast(l, es[..n], k, state)) && EntersNone(Run(l, es[..n]), es[n])))
  {
    hide Run, Enters, EntersNone;
    var n := |es| - 1;
    var front := es[..n];
    assert forall j :: 0 <= j < n ==> front[..j] == es[..j] && front[j] == es[j];
    if Enters(Run(l, es[..n]), es[n], state) {
      assert EnteredLast(l, es, n, state);
    }
    forall k: nat | k < n
      ensures EnteredLast(l, es, k, state) <==>
              EnteredLast(l, front, k, state) && EntersNone(Run(l, es[..n]), es[n])
    {
    }
  }

  lemma NothingEntered(l: Local, state: State)
    ensures NeverEntered(l, []) && forall k: nat :: !EnteredLast(l, [], k, state)
  {
  }

  /** The state is the one entered last, or the first one if none was entered. */
  lemma {:induction false} StateIsEnteredLast(l: Local, es: seq<Event>, state: State)
    requires Sound(l)
    ensures Run(l, es).sub.state == state <==>
            (exists k: nat :: EnteredLast(l, es, k, state)) || (NeverEntered(l, es) && l.sub.state == state)
  {
    hide Step, Sound, Enters, EnteredLast, NeverEntered;
    if es == [] {
      NothingEntered(l, state);
    } else {
      var n := |es| - 1;
      var before := Run(l, es[..n]);
      StateIsEnteredLast(l, es[..n], state);
      RunSound(l, es[..n]);
      StepEnters(before, es[n]);
      EnteredStep(l, es, state);
    }
  }

  // ---- whose identity the record holds ---------------------------------------------------------

  /** The identity that a reading finds: the one just reported, or the one the ISIM has. */
  function IdentityRead(l: Local, e: Event): Identity {
    if e.Do? && e.call.IsimStateChanged? then e.call.identity else l.sub.isimIdentity
  }

  /** Where the identity comes from that a step puts into the record, if it puts one there. */
  function SuppliedBy(l: Local, e: Event, before: Source): Source {
    if e.Do? && e.call.UpdateSubscriberInfo? then FromCaller(e.call.given)
    else if RereadsAll(l, e) then if l.sub.carrier.isim then Nowhere else FromStore(l.sub.stored)
    else if ReadsIsim(l, e) then FromIsim(IdentityRead(l, e))
    else if SwitchesOn(l, e) then Nowhere
    else before
  }

  /** The identity supplied last. */
  function LastSupply(l: Local, es: seq<Event>): Source {
    if es == [] then l.sub.source
    else
      var init := es[..|es| - 1];
      SuppliedBy(Run(l, init), es[|es| - 1], LastSupply(l, init))
  }

  /** The record holds what its source supplied, and is blank without one. */
  ghost predicate RecordTrue(s: Sub) {
    match s.source
    case Nowhere => forall r :: r in s.records ==> IsBlank(r.core)
    case _ => |s.records| == 1 && Holds(s.records[0].core, s.source.id)
  }

  lemma CallSuppliesProvision(l: Local, call: Call)
    requires SoundSub(l.sub) && RecordTrue(l.sub) && Provisions(call)
    ensures var after := Apply(l.sub, call).sub;
            RecordTrue(after) && after.source == SuppliedBy(l, Do(call), l.sub.source)
  {
    hide Provision, Holds;
    if call.UpdateSubscriberInfo? {
      ProvisionHolds(call.given);
    }
    ProvisionHolds(l.sub.stored);
  }

  lemma CallSuppliesIsim(l: Local, call: Call)
    requires SoundSub(l.sub) && RecordTrue(l.sub) && call.IsimStateChanged?
    ensures var after := Apply(l.sub, call).sub;
            RecordTrue(after) && after.source == SuppliedBy(l, Do(call), l.sub.source)
  {
    hide Provision, Holds;
    ProvisionHolds(call.identity);
  }

  lemma CallSuppliesOther(l: Local, call: Call)
    requires SoundSub(l.sub) && RecordTrue(l.sub) && !Provisions(call) && !call.IsimStateChanged?
    ensures var after := Apply(l.sub, call).sub;
            RecordTrue(after) && after.source == SuppliedBy(l, Do(call), l.sub.source)
  {
    hide Provision, Holds;
  }

  lemma CallSupplies(l: Local, call: Call)
    requires SoundSub(l.sub) && RecordTrue(l.sub)
    ensures var after := Apply(l.sub, call).sub;
            RecordTrue(after) && after.source == SuppliedBy(l, Do(call), l.sub.source)
  {
    hide Apply, SoundSub, RecordTrue;
    if Provisions(call) {
      CallSuppliesProvision(l, call);
    } else if call.IsimStateChanged? {
      CallSuppliesIsim(l, call);
    } else {
      CallSuppliesOther(l, call);
    }
  }

  lemma RereadSupplies(l: Local)
    requires SoundSub(l.sub) && RecordTrue(l.sub) && l.pending != [] && l.pending[0] == UpdateAllConfigs
    ensures var after := Handle(l.sub, l.pending[0]).sub;
            RecordTrue(after) && after.source == SuppliedBy(l, Deliver, l.sub.source)
  {
    hide Provision, Holds;
    ProvisionHolds(l.sub.stored);
  }

  lemma ReadSupplies(l: Local)
    requires SoundSub(l.sub) && RecordTrue(l.sub) && l.pending != [] && l.pending[0] != UpdateAllConfigs
    ensures var after := Handle(l.sub, l.pending[0]).sub;
            RecordTrue(after) && after.source == SuppliedBy(l, Deliver, l.sub.source)
  {
    hide Provision, Holds, UpdateAll;
    ProvisionHolds(l.sub.isimIdentity);
  }

  lemma StepSupplies(l: Local, e: Event)
    requires Sound(l) && RecordTrue(l.sub)
    ensures RecordTrue(Step(l, e).sub) && Step(l, e).sub.source == SuppliedBy(l, e, l.sub.source)
  {
    hide Apply, Handle, SoundSub, RecordTrue;
    match e
    case Do(call) => CallSupplies(l, call);
    case Deliver =>
      if l.pending != [] && l.pending[0] == UpdateAllConfigs {
        RereadSupplies(l);
      } else if l.pending != [] {
        ReadSupplies(l);
      }
  }

  lemma {:induction false} RunSupplies(l: Local, es: seq<Event>)
    requires Sound(l) && RecordTrue(l.sub)
    ensures RecordTrue(Run(l, es).sub) && Run(l, es).sub.source == LastSupply(l, es)
  {
    hide Step, Sound, RecordTrue, SuppliedBy;
    if es != [] {
      RunSupplies(l, es[..|es| - 1]);
      RunSound(l, es[..|es| - 1]);
      StepSupplies(Run(l, es[..|es| - 1]), es[|es| - 1]);
    }
  }

  lemma StartTrue(carrier: Carrier, stored: Identity, isimAvailable: bool)
    ensures var s := Start(carrier, stored, isimAvailable).sub;
            RecordTrue(s) && s.source == if carrier.isim then Nowhere else FromStore(stored)
  {
    hide Provision, Holds;
    ProvisionHolds(stored);
  }

  /** The identity given by the last manual update. */
  function LastGiven(es: seq<Event>): Option<Identity> {
    if es == [] then None
    else
      var e := es[|es| - 1];
      if e.Do? && e.call.UpdateSubscriberInfo? then Some(e.call.given) else LastGiven(es[..|es| - 1])
  }

  lemma {:induction false} SupplyIsGiven(l: Local, es: seq<Event>)
    requires !l.sub.source.FromCaller?
    ensures LastSupply(l, es).FromCaller? ==> LastGiven(es) == Some(LastSupply(l, es).id)
  {
    hide Run, RereadsAll, ReadsIsim, SwitchesOn;
    if es != [] {
      SupplyIsGiven(l, es[..|es| - 1]);
    }
  }

  /** Whose identity the record holds. In every run from the start it is the one supplied last: by a manual
      update as it was given, by the ISIM as it was when it was read, by the store as it was when everything was
      read; all its fields follow from that identity. Where nothing was supplied since support was switched on
      or everything was read again, a record is blank. */
  lemma RecordHoldsLastSupply(carrier: Carrier, stored: Identity, isimAvailable: bool, es: seq<Event>)
    ensures
      var l0 := Start(carrier, stored, isimAvailable);
      var s, last := Run(l0, es).sub, LastSupply(l0, es);
      && (last == Nowhere ==> forall r :: r in s.records ==> IsBlank(r.core))
      && (last != Nowhere ==> |s.records| == 1 && Holds(s.records[0].core, last.id))
      && (last.FromCaller? ==> LastGiven(es) == Some(last.id))
      && s.source == last
  {
    hide Run, LastSupply, Holds;
    var l0 := Start(carrier, stored, isimAvailable);
    StartSound(carrier, stored, isimAvailable);
    StartTrue(carrier, stored, isimAvailable);
    RunSupplies(l0, es);
    SupplyIsGiven(l0, es);
  }

  // ---- initialisation, by the states before and after ----------------------------------------------

  /** While a configuration is being provisioned nothing was supplied to it. */
  predicate NothingWhileProvisioning(s: Sub) {
    s.state == Provisioning ==> s.source == Nowhere
  }

  lemma CallNothing(s: Sub, call: Call)
    requires SoundSub(s) && NothingWhileProvisioning(s)
    ensures NothingWhileProvisioning(Apply(s, call).sub)
  {
    hide Provision;
  }

  lemma HandleNothing(s: Sub, m: Msg)
    requires SoundSub(s) && NothingWhileProvisioning(s)
    ensures NothingWhileProvisioning(Handle(s, m).sub)
  {
    hide Provision;
  }

  lemma {:induction false} RunNothing(l: Local, es: seq<Event>)
    requires Sound(l) && NothingWhileProvisioning(l.sub)
    ensures NothingWhileProvisioning(Run(l, es).sub)
  {
    hide Apply, Handle, SoundSub, NothingWhileProvisioning;
    if es != [] {
      var before, e := Run(l, es[..|es| - 1]), es[|es| - 1];
      RunNothing(l, es[..|es| - 1]);
      RunSound(l, es[..|es| - 1]);
      if e.Do? {
        CallNothing(before.sub, e.call);
      } else if before.pending != [] {
        HandleNothing(before.sub, before.pending[0]);
      }
    }
  }

  /** The step provisions from the ISIM: PROVISIONING, or INACTIVE on hearing LOADED, becomes PROVISIONED with the
      identity of the ISIM in the record. */
  predicate BecomesProvisioned(l: Local, e: Event) {
    && (l.sub.state == Provisioning || (l.sub.state == Inactive && Hears(l, e, Loaded)))
    && Step(l, e).sub.state == Provisioned && Step(l, e).sub.source.FromIsim?
  }

  lemma ReadingProvisions(l: Local, e: Event)
    ensures ReadsIsim(l, e) ==> Enters(l, e, Provisioned)
  {
  }

  lemma InitialisesIff(l: Local, e: Event)
    requires Sound(l) && NothingWhileProvisioning(l.sub) && RecordTrue(l.sub)
    ensures Initialises(l, e) <==> BecomesProvisioned(l, e)
  {
    hide Step, SoundSub, RecordTrue, Enters;
    StepEnters(l, e);
    StepSupplies(l, e);
    ReadingProvisions(l, e);
  }

  /** The number of steps of a run that provision a configuration from the ISIM for the first time. */
  function TimesProvisioned(l: Local, es: seq<Event>): nat {
    if es == [] then 0
    else
      TimesProvisioned(l, es[..|es| - 1])
      + if BecomesProvisioned(Run(l, es[..|es| - 1]), es[|es| - 1]) then 1 else 0
  }

  lemma {:induction false} ProvisionedIsCaused(l: Local, es: seq<Event>)
    requires Sound(l) && NothingWhileProvisioning(l.sub) && RecordTrue(l.sub)
    ensures TimesProvisioned(l, es) == TimesCaused(l, es, InitCompleted(IsimChannel))
  {
    hide Step, Sound, NothingWhileProvisioning, RecordTrue, BecomesProvisioned, Initialises;
    if es != [] {
      ProvisionedIsCaused(l, es[..|es| - 1]);
      RunSound(l, es[..|es| - 1]);
      RunNothing(l, es[..|es| - 1]);
      RunSupplies(l, es[..|es| - 1]);
      InitialisesIff(Run(l, es[..|es| - 1]), es[|es| - 1]);
    }
  }

  /** The initialisation account: INIT_COMPLETED is posted on the ISIM channel exactly as often as a step takes
      the configuration from PROVISIONING, or from INACTIVE on LOADED, to PROVISIONED with the ISIM's identity. */
  lemma InitialisationAccount(carrier: Carrier, stored: Identity, isimAvailable: bool, es: seq<Event>)
    ensures var l0 := Start(carrier, stored, isimAvailable);
            multiset(Run(l0, es).posted)[InitCompleted(IsimChannel)] == TimesProvisioned(l0, es)
  {
    hide Run, TimesProvisioned, TimesCaused, Holds;
    var l0 := Start(carrier, stored, isimAvailable);
    StartSound(carrier, stored, isimAvailable);
    StartTrue(carrier, stored, isimAvailable);
    ProvisionedIsCaused(l0, es);
    PostsAreCaused(l0, es, InitCompleted(IsimChannel));
  }

  // ---- the other fields -----------------------------------------------------------------------

  /** What a step makes of an attribute that the carrier configuration sets: `given` is what the call itself
      says, if it says anything. */
  function Attribute(l: Local, e: Event, given: Option<bool>, carrier: bool, before: bool): bool {
    if given.Some? then given.value
    else if RereadsAll(l, e) || e == Do(RereadAttributes) then carrier
    else before
  }

  function IsimGiven(e: Event): Option<bool> {
    match e
    case Do(EnableIsim) => Some(true)
    case Do(UpdateSubscriberInfo(_, isimEnabled)) => Some(isimEnabled)
    case Do(SetIsimAttribute(enabled)) => Some(enabled)
    case _ => None
  }

  function UsimGiven(e: Event): Option<bool> {
    match e
    case Do(EnableIsim) => Some(false)
    case Do(UpdateSubscriberInfo(_, isimEnabled)) => Some(!isimEnabled)
    case Do(SetUsimAttribute(enabled)) => Some(enabled)
    case _ => None
  }

  /** The index in the record, after a step that leaves a record. */
  function IndexAfter(l: Local, e: Event): int
    requires l.sub.records != [] || ReadsIsim(l, e) || RereadsAll(l, e) || (e.Do? && e.call.UpdateSubscriberInfo?)
  {
    if e.Do? && e.call.UpdateSubscriberInfo? then 0
    else if RereadsAll(l, e) then if l.sub.carrier.isim then l.sub.carrier.isimIndex else 0
    else if ReadsIsim(l, e) then l.sub.carrier.isimIndex
    else if e.Do? && e.call.CarrierConfigChanged? then if l.sub.attrs.isim then e.call.carrier.isimIndex else 0
    else l.sub.records[0].refIndex
  }

  predicate PhoneContextCurrent(s: Sub) {
    s.records != [] ==> s.records[0].phoneContext == s.carrier.phoneContext
  }

  /** What a step makes of the attributes. */
  predicate AttributesFollow(l: Local, e: Event, after: Sub) {
    && after.attrs.isim == Attribute(l, e, IsimGiven(e), l.sub.carrier.isim, l.sub.attrs.isim)
    && after.attrs.usim == Attribute(l, e, UsimGiven(e), l.sub.carrier.usim, l.sub.attrs.usim)
  }

  /** What a step makes of the rest of the record. */
  predicate RecordFollows(l: Local, e: Event, after: Sub) {
    && PhoneContextCurrent(after)
    && (after.records != [] ==>
          && (l.sub.records != [] || ReadsIsim(l, e) || RereadsAll(l, e) || (e.Do? && e.call.UpdateSubscriberInfo?))
          && after.records[0].refIndex == IndexAfter(l, e))
  }

  /** What a step makes of what is known of the carrier, the store and the ISIM. */
  predicate SightFollows(l: Local, e: Event, after: Sub) {
    && (after.isimHandle <==>
          || l.sub.isimHandle
          || (Handles(l, e, RefreshIsimRecords) && l.sub.attrs.isim && l.sub.isimAvailable))
    && after.isimAvailable == l.sub.isimAvailable
    && after.carrier == (if e.Do? && e.call.CarrierConfigChanged? then e.call.carrier else l.sub.carrier)
    && after.stored == (if e.Do? && e.call.StoredIdentityChanged? then e.call.stored else l.sub.stored)
    && (if e.Do? && e.call.IsimStateChanged? && l.sub.isimHandle
        then after.isimState == e.call.isim && after.isimIdentity == e.call.identity
        else after.isimState == l.sub.isimState && after.isimIdentity == l.sub.isimIdentity)
  }

  predicate FieldsFollow(l: Local, e: Event, after: Sub) {
    AttributesFollow(l, e, after) && RecordFollows(l, e, after) && SightFollows(l, e, after)
  }

  lemma CallAttributes(l: Local, call: Call)
    requires SoundSub(l.sub)
    ensures AttributesFollow(l, Do(call), Apply(l.sub, call).sub)
  {
    hide Provision, Fill, CreateSubscriberInfo;
  }

  lemma CallRecordProvision(l: Local, call: Call)
    requires SoundSub(l.sub) && PhoneContextCurrent(l.sub) && Provisions(call)
    ensures RecordFollows(l, Do(call), Apply(l.sub, call).sub)
  {
    hide Provision;
  }

  lemma CallRecordIsim(l: Local, call: Call)
    requires SoundSub(l.sub) && PhoneContextCurrent(l.sub) && call.IsimStateChanged?
    ensures RecordFollows(l, Do(call), Apply(l.sub, call).sub)
  {
    hide Provision;
  }

  lemma CallRecordOther(l: Local, call: Call)
    requires SoundSub(l.sub) && PhoneContextCurrent(l.sub) && !Provisions(call) && !call.IsimStateChanged?
    ensures RecordFollows(l, Do(call), Apply(l.sub, call).sub)
  {
    hide Provision;
  }

  lemma CallRecord(l: Local, call: Call)
    requires SoundSub(l.sub) && PhoneContextCurrent(l.sub)
    ensures RecordFollows(l, Do(call), Apply(l.sub, call).sub)
  {
    hide Apply, SoundSub, RecordFollows, PhoneContextCurrent;
    if Provisions(call) {
      CallRecordProvision(l, call);
    } else if call.IsimStateChanged? {
      CallRecordIsim(l, call);
    } else {
      CallRecordOther(l, call);
    }
  }

  lemma CallSight(l: Local, call: Call)
    requires SoundSub(l.sub)
    ensures SightFollows(l, Do(call), Apply(l.sub, call).sub)
  {
    hide Provision, Fill, CreateSubscriberInfo;
  }

  lemma HandleAttributesReread(l: Local)
    requires SoundSub(l.sub) && l.pending != [] && l.pending[0] == UpdateAllConfigs
    ensures AttributesFollow(l, Deliver, Handle(l.sub, l.pending[0]).sub)
  {
    hide Provision, Fill, CreateSubscriberInfo;
  }

  lemma HandleAttributes(l: Local)
    requires SoundSub(l.sub) && l.pending != []
    ensures AttributesFollow(l, Deliver, Handle(l.sub, l.pending[0]).sub)
  {
    hide Provision, Fill, CreateSubscriberInfo, UpdateAll;
    if l.pending[0] == UpdateAllConfigs {
      HandleAttributesReread(l);
    }
  }

  lemma HandleRecordReread(l: Local)
    requires SoundSub(l.sub) && PhoneContextCurrent(l.sub) && l.pending != [] && l.pending[0] == UpdateAllConfigs
    ensures RecordFollows(l, Deliver, Handle(l.sub, l.pending[0]).sub)
  {
    hide Provision;
  }

  lemma HandleRecord(l: Local)
    requires SoundSub(l.sub) && PhoneContextCurrent(l.sub) && l.pending != []
    ensures RecordFollows(l, Deliver, Handle(l.sub, l.pending[0]).sub)
  {
    hide Provision, UpdateAll;
    if l.pending[0] == UpdateAllConfigs {
      HandleRecordReread(l);
    }
  }

  lemma HandleSightReread(l: Local)
    requires SoundSub(l.sub) && l.pending != [] && l.pending[0] == UpdateAllConfigs
    ensures SightFollows(l, Deliver, Handle(l.sub, l.pending[0]).sub)
  {
    hide Provision, Fill, CreateSubscriberInfo;
  }

  lemma HandleSight(l: Local)
    requires SoundSub(l.sub) && l.pending != []
    ensures SightFollows(l, Deliver, Handle(l.sub, l.pending[0]).sub)
  {
    hide Provision, Fill, CreateSubscriberInfo, UpdateAll;
    if l.pending[0] == UpdateAllConfigs {
      HandleSightReread(l);
    }
  }

  lemma IdleFields(l: Local)
    requires PhoneContextCurrent(l.sub) && l.pending == []
    ensures FieldsFollow(l, Deliver, l.sub)
  {
  }

  lemma StepFields(l: Local, e: Event)
    requires Sound(l) && PhoneContextCurrent(l.sub)
    ensures FieldsFollow(l, e, Step(l, e).sub)
  {
    hide Apply, Handle, SoundSub, AttributesFollow, RecordFollows, SightFollows;
    if e.Do? {
      CallAttributes(l, e.call);
      CallRecord(l, e.call);
      CallSight(l, e.call);
    } else if l.pending != [] {
      HandleAttributes(l);
      HandleRecord(l);
      HandleSight(l);
    } else {
      IdleFields(l);
    }
  }

  lemma FollowsContext(l: Local, e: Event, after: Sub)
    requires FieldsFollow(l, e, after)
    ensures PhoneContextCurrent(after)
  {
  }

  lemma {:induction false} RunContext(l: Local, es: seq<Event>)
    requires Sound(l) && PhoneContextCurrent(l.sub)
    ensures PhoneContextCurrent(Run(l, es).sub)
  {
    hide Step, Sound, FieldsFollow, PhoneContextCurrent;
    if es != [] {
      var before := Run(l, es[..|es| - 1]);
      RunContext(l, es[..|es| - 1]);
      RunSound(l, es[..|es| - 1]);
      StepFields(before, es[|es| - 1]);
      FollowsContext(before, es[|es| - 1], Run(l, es).sub);
    }
  }

  lemma StartPhoneContext(carrier: Carrier, stored: Identity, isimAvailable: bool)
    ensures PhoneContextCurrent(Start(carrier, stored, isimAvailable).sub)
  {
    hide Provision;
  }

  /** In every run from the start each step changes the attributes, the record's index and phone context, and
      what is known of the carrier, the store and the ISIM as the events say. */
  lemma FieldsFollowEvents(carrier: Carrier, stored: Identity, isimAvailable: bool, es: seq<Event>, e: Event)
    ensures
      var l := Run(Start(carrier, stored, isimAvailable), es);
      FieldsFollow(l, e, Step(l, e).sub)
  {
    hide Run, Step, FieldsFollow, Sound, PhoneContextCurrent;
    var l0 := Start(carrier, stored, isimAvailable);
    StartSound(carrier, stored, isimAvailable);
    StartPhoneContext(carrier, stored, isimAvailable);
    RunSound(l0, es);
    RunContext(l0, es);
    StepFields(Run(l0, es), e);
  }

  // ---- who listens -------------------------------------------------------------------------------

  predicate Adds(e: Event, channel: Channel, x: Listener) {
    && e.Do? && e.call.SetListener? && e.call.listener == x
    && if channel == IsimChannel then e.call.onIsim else e.call.onManual
  }

  /** The listener was added to the channel, and not removed since. */
  predicate Listens(es: seq<Event>, channel: Channel, x: Listener) {
    exists i :: 0 <= i < |es| && Adds(es[i], channel, x)
                && forall j :: i < j < |es| ==> es[j] != Do(Call.RemoveListener(x))
  }

  predicate NoneTwice(s: Sub, channel: Channel) {
    forall i, j :: 0 <= i < j < |ListenersOf(s, channel)| ==> ListenersOf(s, channel)[i] != ListenersOf(s, channel)[j]
  }

  /** Those who stay keep their order when a listener leaves. */
  lemma {:induction false} WithoutConcat(xs: seq<Listener>, ys: seq<Listener>, x: Listener)
    ensures Without(xs + ys, x) == Without(xs, x) + Without(ys, x)
  {
    if xs == [] {
      assert xs + ys == ys && Without(xs, x) == [];
    } else {
      var head := if xs[0] == x then [] else [xs[0]];
      var all := xs + ys;
      assert all[0] == xs[0] && all[1..] == xs[1..] + ys;
      WithoutConcat(xs[1..], ys, x);
      assert Without(all, x) == head + Without(xs[1..] + ys, x) && Without(xs, x) == head + Without(xs[1..], x);
    }
  }

  lemma {:induction false} WithoutAbsent(xs: seq<Listener>, x: Listener)
    requires x !in xs
    ensures Without(xs, x) == xs
  {
    if xs != [] {
      WithoutAbsent(xs[1..], x);
      assert xs == [xs[0]] + xs[1..];
    }
  }

  lemma {:induction false} WithoutDistinct(ls: seq<Listener>, x: Listener)
    requires forall i, j :: 0 <= i < j < |ls| ==> ls[i] != ls[j]
    ensures forall i, j :: 0 <= i < j < |Without(ls, x)| ==> Without(ls, x)[i] != Without(ls, x)[j]
  {
    if ls != [] {
      WithoutDistinct(ls[1..], x);
      assert ls[0] !in Without(ls[1..], x);
    }
  }

  /** The listeners of a channel after an event, from those before. */
  ghost predicate ListenersFollow(s: Sub, e: Event, channel: Channel, after: Sub) {
    forall x :: x in ListenersOf(after, channel) <==>
      if Adds(e, channel, x) then true
      else if e == Do(Call.RemoveListener(x)) then false
      else x in ListenersOf(s, channel)
  }

  lemma AddedAt(s: Sub, at: Channel, x: Listener, channel: Channel)
    ensures ListenersOf(AddListener(s, at, x), channel) ==
            ListenersOf(s, channel) + if at == channel && x !in ListenersOf(s, channel) then [x] else []
  {
  }

  lemma SetFollows(s: Sub, call: Call, channel: Channel)
    requires NoneTwice(s, channel) && call.SetListener?
    ensures var after := Apply(s, call).sub;
            NoneTwice(after, channel) && ListenersFollow(s, Do(call), channel, after)
  {
    hide ListenersOf, AddListener;
    var t := if call.onIsim then AddListener(s, IsimChannel, call.listener) else s;
    AddedAt(s, IsimChannel, call.listener, channel);
    AddedAt(t, ManualChannel, call.listener, channel);
    var x, before := call.listener, ListenersOf(s, channel);
    assert ListenersOf(Apply(s, call).sub, channel) ==
           if Adds(Do(call), channel, x) && x !in before then before + [x] else before;
  }

  lemma RemoveFollows(s: Sub, call: Call, channel: Channel)
    requires NoneTwice(s, channel) && call.RemoveListener?
    ensures var after := Apply(s, call).sub;
            NoneTwice(after, channel) && ListenersFollow(s, Do(call), channel, after)
  {
    hide Without;
    WithoutDistinct(ListenersOf(s, channel), call.listener);
  }

  lemma ProvisionKeeps(s: Sub, call: Call)
    requires Provisions(call) || call.IsimStateChanged?
    ensures Apply(s, call).sub.listeners == s.listeners
  {
    hide Provision, Fill, CreateSubscriberInfo;
  }

  lemma OtherCallKeeps(s: Sub, call: Call)
    requires !call.SetListener? && !call.RemoveListener?
    ensures Apply(s, call).sub.listeners == s.listeners
  {
    hide OnIsimState, OnEnableIsim, OnUpdateSubscriberInfo, UpdateAll;
    if Provisions(call) || call.IsimStateChanged? {
      ProvisionKeeps(s, call);
    }
  }

  lemma HandleListeners(s: Sub, m: Msg)
    ensures Handle(s, m).sub.listeners == s.listeners
  {
    hide Provision;
  }

  lemma ListensStep(es: seq<Event>, channel: Channel, x: Listener)
    requires es != []
    ensures Listens(es, channel, x) <==>
            var e := es[|es| - 1];
            if Adds(e, channel, x) then true
            else if e == Do(Call.RemoveListener(x)) then false
            else Listens(es[..|es| - 1], channel, x)
  {
    hide Adds;
    var init, e := es[..|es| - 1], es[|es| - 1];
    assert forall j :: 0 <= j < |init| ==> init[j] == es[j];
    if Adds(e, channel, x) {
      assert Adds(es[|es| - 1], channel, x);
    } else if Listens(init, channel, x) && e != Do(Call.RemoveListener(x)) {
      var i :| 0 <= i < |init| && Adds(init[i], channel, x)
               && forall j :: i < j < |init| ==> init[j] != Do(Call.RemoveListener(x));
      assert Adds(es[i], channel, x);
    }
  }

  lemma SameListeners(s: Sub, e: Event, channel: Channel, after: Sub)
    requires s.listeners == after.listeners && NoneTwice(s, channel)
    requires e.Deliver? || (!e.call.SetListener? && !e.call.RemoveListener?)
    ensures NoneTwice(after, channel) && ListenersFollow(s, e, channel, after)
  {
    assert ListenersOf(after, channel) == ListenersOf(s, channel);
  }

  lemma StepListeners(l: Local, e: Event, channel: Channel)
    requires NoneTwice(l.sub, channel)
    ensures NoneTwice(Step(l, e).sub, channel) && ListenersFollow(l.sub, e, channel, Step(l, e).sub)
  {
    hide Apply, Handle, NoneTwice, ListenersFollow;
    if e.Do? && e.call.SetListener? {
      SetFollows(l.sub, e.call, channel);
    } else if e.Do? && e.call.RemoveListener? {
      RemoveFollows(l.sub, e.call, channel);
    } else {
      if e.Do? {
        OtherCallKeeps(l.sub, e.call);
      } else if l.pending != [] {
        HandleListeners(l.sub, l.pending[0]);
      }
      SameListeners(l.sub, e, channel, Step(l, e).sub);
    }
  }

  lemma StartListeners(carrier: Carrier, stored: Identity, isimAvailable: bool)
    ensures Start(carrier, stored, isimAvailable).sub.listeners == map[]
  {
    hide Provision;
  }

  lemma NobodyYet(s: Sub, channel: Channel)
    requires s.listeners == map[]
    ensures NoneTwice(s, channel) && forall x :: x !in ListenersOf(s, channel) && !Listens([], channel, x)
  {
  }

  /** After every run from the start a channel has exactly the listeners added to it and not removed since, none
      twice. */
  lemma {:induction false} ListenersAreThoseAdded(carrier: Carrier, stored: Identity, isimAvailable: bool,
                                                  es: seq<Event>, channel: Channel)
    ensures
      var s := Run(Start(carrier, stored, isimAvailable), es).sub;
      NoneTwice(s, channel) && forall x :: x in ListenersOf(s, channel) <==> Listens(es, channel, x)
  {
    hide Step, NoneTwice, Adds, Listens;
    var l0 := Start(carrier, stored, isimAvailable);
    if es == [] {
      StartListeners(carrier, stored, isimAvailable);
      NobodyYet(l0.sub, channel);
    } else {
      var before, e := Run(l0, es[..|es| - 1]), es[|es| - 1];
      ListenersAreThoseAdded(carrier, stored, isimAvailable, es[..|es| - 1], channel);
      StepListeners(before, e, channel);
      forall x
        ensures x in ListenersOf(Run(l0, es).sub, channel) <==> Listens(es, channel, x)
      {
        ListensStep(es, channel, x);
      }
    }
  }
}
