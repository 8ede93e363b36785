/** What a single call or a single handled message keeps, for one configuration. The messages still
    waiting enter these lemmas only through what matters about them: a flag or a mark.
 */
module SubscriberSteps {
  import opened AStrings
  import opened SubscriberModel
  import opened SubscriberIdentity

  /** The calls that change state or records, apart from ISIM state changes. */
  predicate Provisions(call: Call) {
    call.EnableIsim? || call.UpdateSubscriberInfo? || call.Refresh?
  }

  // ---- the service stays allowed, INIT stays hidden, one record at most -----------------------

  predicate SoundSub(s: Sub) {
    && s.attrs.ims
    && s.state != Init
    && |s.records| <= 1
    && (s.isimState != IsimIdle ==> s.isimHandle)
  }

  lemma IsimSound(s: Sub, call: Call)
    requires SoundSub(s) && call.IsimStateChanged?
    ensures SoundSub(Apply(s, call).sub)
  {
  }

  lemma ProvisionSound(s: Sub, call: Call)
    requires SoundSub(s) && Provisions(call)
    ensures SoundSub(Apply(s, call).sub)
  {
  }

  lemma OtherSound(s: Sub, call: Call)
    requires SoundSub(s) && !call.IsimStateChanged? && !Provisions(call)
    ensures SoundSub(Apply(s, call).sub)
  {
  }

  lemma CallSound(s: Sub, call: Call)
    requires SoundSub(s)
    ensures SoundSub(Apply(s, call).sub)
  {
    hide Apply;
    if call.IsimStateChanged? {
      IsimSound(s, call);
    } else if Provisions(call) {
      ProvisionSound(s, call);
    } else {
      OtherSound(s, call);
    }
  }

  lemma HandleSound(s: Sub, m: Msg)
    requires SoundSub(s)
    ensures SoundSub(Handle(s, m).sub)
  {
  }

  // ---- the ISIM handle is in place whenever the ISIM is read ---------------------------------

  /** Some waiting message reads the ISIM without looking whether its handle is there. */
  predicate ReadsHandle(ms: seq<Msg>) {
    ms != [] && (ms[0] == UpdateIsimRecords || ReadsHandle(ms[1..]))
  }

  lemma CallKeepsHandle(s: Sub, call: Call)
    ensures s.isimHandle ==> Apply(s, call).sub.isimHandle
  {
    hide Provision;
  }

  lemma IsimPostsWithHandle(s: Sub, call: Call)
    requires call.IsimStateChanged?
    ensures ReadsHandle(Apply(s, call).posts) ==> s.isimHandle
  {
    hide Provision;
  }

  lemma OthersReadNoHandle(s: Sub, call: Call)
    requires !call.IsimStateChanged?
    ensures !ReadsHandle(Apply(s, call).posts)
  {
    hide Provision;
  }

  lemma HandleKeepsHandle(s: Sub, m: Msg)
    ensures s.isimHandle ==> Handle(s, m).sub.isimHandle
    ensures !ReadsHandle(Handle(s, m).posts)
  {
  }

  // ---- no lost refresh -----------------------------------------------------------------------

  /** A message whose handling reads the ISIM records, or posts one that does. */
  predicate IsRefresh(m: Msg) {
    m == UpdateIsimRecords || m == RefreshIsimRecords || m == UpdateAllConfigs
  }

  predicate RefreshPending(ms: seq<Msg>) {
    ms != [] && (IsRefresh(ms[0]) || RefreshPending(ms[1..]))
  }

  /** The record holds the identity the ISIM has now, or the one a caller supplied since. */
  ghost predicate UpToDate(s: Sub) {
    && |s.records| == 1
    && (s.source.FromCaller? || s.source == FromIsim(s.isimIdentity))
    && Holds(s.records[0].core, s.source.id)
  }

  /** With ISIM supported and loaded, a refresh is still queued or all is provisioned. */
  ghost predicate RefreshSafe(s: Sub, pending: bool) {
    s.IsIsimSupported() && s.isimState == Loaded && !pending ==> s.state == Provisioned && UpToDate(s)
  }

  /** No attribute update switches ISIM support on. */
  predicate NotSwitchedOnByAttribute(s: Sub, call: Call) {
    && (call == SetIsimAttribute(true) ==> s.IsIsimSupported())
    && (call == RereadAttributes && s.carrier.isim ==> s.IsIsimSupported())
  }

  lemma IsimRefreshSafe(s: Sub, call: Call, pending: bool)
    requires SoundSub(s) && RefreshSafe(s, pending) && call.IsimStateChanged?
    ensures RefreshSafe(Apply(s, call).sub, pending || RefreshPending(Apply(s, call).posts))
  {
    hide Provision, Holds;
    ProvisionHolds(call.identity);
  }

  lemma ProvisionRefreshSafe(s: Sub, call: Call, pending: bool)
    requires SoundSub(s) && RefreshSafe(s, pending) && Provisions(call)
    ensures RefreshSafe(Apply(s, call).sub, pending || RefreshPending(Apply(s, call).posts))
  {
    hide Provision, Holds;
    if call.UpdateSubscriberInfo? {
      ProvisionHolds(call.given);
    }
  }

  lemma OtherRefreshSafe(s: Sub, call: Call, pending: bool)
    requires SoundSub(s) && RefreshSafe(s, pending) && NotSwitchedOnByAttribute(s, call)
    requires !call.IsimStateChanged? && !Provisions(call)
    ensures RefreshSafe(Apply(s, call).sub, pending || RefreshPending(Apply(s, call).posts))
  {
    hide Provision, Holds;
  }

  lemma CallRefreshSafe(s: Sub, call: Call, pending: bool)
    requires SoundSub(s) && RefreshSafe(s, pending) && NotSwitchedOnByAttribute(s, call)
    ensures RefreshSafe(Apply(s, call).sub, pending || RefreshPending(Apply(s, call).posts))
  {
    hide Apply, RefreshSafe, RefreshPending;
    if call.IsimStateChanged? {
      IsimRefreshSafe(s, call, pending);
    } else if Provisions(call) {
      ProvisionRefreshSafe(s, call, pending);
    } else {
      OtherRefreshSafe(s, call, pending);
    }
  }

  lemma HandleRefreshSafe(s: Sub, m: Msg, rest: bool)
    requires SoundSub(s) && RefreshSafe(s, IsRefresh(m) || rest)
    ensures RefreshSafe(Handle(s, m).sub, rest || RefreshPending(Handle(s, m).posts))
  {
    hide Provision, Holds;
    ProvisionHolds(s.isimIdentity);
  }

  // ---- no dangling start ---------------------------------------------------------------------

  /** What the ISIM channel was told last: nothing, a start or an error, or a completion. */
  datatype Mark = Silent | Open | Closed

  function Then(first: Mark, second: Mark): Mark {
    if second == Silent then first else second
  }

  /** The mark a message will leave: those that read the ISIM records end in a completion. */
  function MarkOf(m: Msg): Mark {
    match m
    case RefreshStarted(IsimChannel) => Open
    case NotifyError(_, _) => Open
    case InitCompleted(IsimChannel) => Closed
    case RefreshCompleted(IsimChannel) => Closed
    case RefreshStartedNCompleted(IsimChannel) => Closed
    case _ => if IsRefresh(m) then Closed else Silent
  }

  function MarkOfAll(ms: seq<Msg>): Mark {
    if ms == [] then Silent else Then(MarkOf(ms[0]), MarkOfAll(ms[1..]))
  }

  function MarkOfNotice(n: Notice): Mark {
    if n.channel == ManualChannel then Silent
    else if n.kind == InitDone || n.kind == RefreshDone then Closed
    else Open
  }

  function LastNotice(ns: seq<Notice>): Mark {
    if ns == [] then Silent else Then(LastNotice(ns[..|ns| - 1]), MarkOfNotice(ns[|ns| - 1]))
  }

  /** With ISIM supported and loaded, the last word on the ISIM channel is or will be a completion. */
  predicate Settled(s: Sub, pending: Mark) {
    s.IsIsimSupported() && s.isimState == Loaded ==> Then(LastNotice(s.notices), pending) == Closed
  }

  /** ISIM support is only switched on by calls that queue a refresh. */
  predicate SwitchedOnWithRefresh(s: Sub, call: Call) {
    && NotSwitchedOnByAttribute(s, call)
    && (call.UpdateSubscriberInfo? && call.isimEnabled ==> s.IsIsimSupported())
  }

  lemma IsimSettled(s: Sub, call: Call, pending: Mark)
    requires SoundSub(s) && Settled(s, pending) && call.IsimStateChanged?
    ensures Settled(Apply(s, call).sub, Then(pending, MarkOfAll(Apply(s, call).posts)))
  {
    hide Provision, LastNotice;
  }

  lemma ProvisionSettled(s: Sub, call: Call, pending: Mark)
    requires SoundSub(s) && Settled(s, pending) && Provisions(call) && SwitchedOnWithRefresh(s, call)
    ensures Settled(Apply(s, call).sub, Then(pending, MarkOfAll(Apply(s, call).posts)))
  {
    hide Provision, LastNotice;
  }

  lemma OtherSettled(s: Sub, call: Call, pending: Mark)
    requires SoundSub(s) && Settled(s, pending) && SwitchedOnWithRefresh(s, call)
    requires !call.IsimStateChanged? && !Provisions(call)
    ensures Settled(Apply(s, call).sub, Then(pending, MarkOfAll(Apply(s, call).posts)))
  {
    hide Provision, LastNotice;
  }

  lemma CallSettled(s: Sub, call: Call, pending: Mark)
    requires SoundSub(s) && Settled(s, pending) && SwitchedOnWithRefresh(s, call)
    ensures Settled(Apply(s, call).sub, Then(pending, MarkOfAll(Apply(s, call).posts)))
  {
    hide Apply, Settled, MarkOfAll;
    if call.IsimStateChanged? {
      IsimSettled(s, call, pending);
    } else if Provisions(call) {
      ProvisionSettled(s, call, pending);
    } else {
      OtherSettled(s, call, pending);
    }
  }

  lemma TellMark(s: Sub, channel: Channel, kind: NoticeKind)
    ensures LastNotice(Tell(s, channel, kind).notices)
            == Then(LastNotice(s.notices), MarkOfNotice(Notice(channel, kind, ListenersOf(s, channel))))
  {
    var ns := Tell(s, channel, kind).notices;
    assert ns[..|ns| - 1] == s.notices;
  }

  lemma TellErrorMark(s: Sub, target: Option<Listener>, error: ErrorCode)
    ensures LastNotice(TellError(s, target, error).notices) == Open
  {
    match target
    case None => TellMark(s, IsimChannel, Failed(error));
    case Some(l) =>
      var to := if l in ListenersOf(s, IsimChannel) then [l] else [];
      assert (s.notices + [Notice(IsimChannel, Failed(error), to)])[..|s.notices|] == s.notices;
  }

  /** `rest` is the mark of the messages behind the one handled. */
  lemma HandleSettled(s: Sub, m: Msg, rest: Mark)
    requires SoundSub(s) && Settled(s, Then(MarkOf(m), rest))
    ensures Settled(Handle(s, m).sub, Then(rest, MarkOfAll(Handle(s, m).posts)))
  {
    hide Provision, LastNotice;
    match m
    case InitCompleted(c) => TellMark(s, c, InitDone);
    case RefreshCompleted(c) => TellMark(s, c, RefreshDone);
    case RefreshStarted(c) => TellMark(s, c, RefreshBegun);
    case RefreshStartedNCompleted(c) =>
      TellMark(s, c, RefreshBegun);
      TellMark(Tell(s, c, RefreshBegun), c, RefreshDone);
    case NotifyError(target, error) => TellErrorMark(s, target, error);
    case _ =>
  }

  // ---- initialisation credit -----------------------------------------------------------------

  function InitCompletions(ms: seq<Msg>): nat {
    if ms == [] then 0
    else (if ms[0] == InitCompleted(IsimChannel) then 1 else 0) + InitCompletions(ms[1..])
  }

  /** PROVISIONING is worth one completion, and only INACTIVE and the two calls below lead into it. */
  function Credit(s: Sub): nat {
    if s.state == Provisioning || s.state == Inactive then 1 else 0
  }

  function Earned(call: Call): nat {
    if call.Refresh? || (call.IsimStateChanged? && call.isim == IsimIdle) then 1 else 0
  }

  lemma ReadingSpendsCredit(s: Sub)
    requires s.attrs.ims && s.IsIsimSupported()
    ensures var out := UpdateIsim(s);
            out.sub.state == Provisioned && InitCompletions(out.posts) == if s.state == Provisioning then 1 else 0
  {
    hide Fill, CreateSubscriberInfo;
  }

  lemma IsimSpendsCredit(s: Sub, call: Call)
    requires SoundSub(s) && call.IsimStateChanged?
    ensures InitCompletions(Apply(s, call).posts) + Credit(Apply(s, call).sub) <= Credit(s) + Earned(call)
  {
    hide UpdateIsim;
    if s.IsIsimSupported() && s.isimHandle {
      var t := s.(isimState := call.isim, isimIdentity := call.identity);
      ReadingSpendsCredit(t);
      ReadingSpendsCredit(t.(state := Provisioning));
    }
  }

  lemma ProvisionSpendsCredit(s: Sub, call: Call)
    requires SoundSub(s) && Provisions(call)
    ensures InitCompletions(Apply(s, call).posts) + Credit(Apply(s, call).sub) <= Credit(s) + Earned(call)
  {
    hide Fill, CreateSubscriberInfo;
  }

  lemma OtherSpendsCredit(s: Sub, call: Call)
    requires SoundSub(s) && !call.IsimStateChanged? && !Provisions(call)
    ensures InitCompletions(Apply(s, call).posts) + Credit(Apply(s, call).sub) <= Credit(s) + Earned(call)
  {
    hide Fill, CreateSubscriberInfo;
  }

  lemma CallSpendsCredit(s: Sub, call: Call)
    requires SoundSub(s)
    ensures InitCompletions(Apply(s, call).posts) + Credit(Apply(s, call).sub) <= Credit(s) + Earned(call)
  {
    hide Apply, InitCompletions, Credit, Earned;
    if call.IsimStateChanged? {
      IsimSpendsCredit(s, call);
    } else if Provisions(call) {
      ProvisionSpendsCredit(s, call);
    } else {
      OtherSpendsCredit(s, call);
    }
  }

  lemma HandleSpendsCredit(s: Sub, m: Msg)
    requires SoundSub(s)
    ensures InitCompletions(Handle(s, m).posts) + Credit(Handle(s, m).sub) <= Credit(s)
  {
    hide Fill, CreateSubscriberInfo;
  }
}
