/** The subscriber provisioning machine as a function of values: what each call, ISIM state change
    and queued message does to one subscriber configuration and which messages it posts. Follows
    SubscriberConfig.cpp; the classes in SubscriberConfig.dfy are proved against this module.
 */
module SubscriberModel {
  import opened AStrings
  import opened Impu

  datatype State = Init | Provisioning | Provisioned | Refreshing | Inactive

  /** The states the ISIM reports. */
  datatype IsimState = IsimIdle | NotPresent | Loaded | IsimRefreshing

  datatype Channel = IsimChannel | ManualChannel

  /** Listeners are compared by identity only. */
  type Listener = nat

  datatype ErrorCode = NoIsimApplication

  datatype Msg =
    | UpdateIsimRecords
    | RefreshIsimRecords
    | InitCompleted(channel: Channel)
    | RefreshCompleted(channel: Channel)
    | RefreshStarted(channel: Channel)
    | RefreshStartedNCompleted(channel: Channel)
    | NotifyError(target: Option<Listener>, error: ErrorCode)
    | UpdateAllConfigs

  datatype NoticeKind = InitDone | RefreshBegun | RefreshDone | Failed(error: ErrorCode)

  /** One round of callbacks: the channel, what was said, and to whom, in order. */
  datatype Notice = Notice(channel: Channel, kind: NoticeKind, recipients: seq<Listener>)

  datatype Attributes = Attributes(ims: bool, isim: bool, usim: bool)

  /** Identities as the ISIM, a manual update or the persistent store supplies them. */
  datatype Identity = Identity(impi: string, impus: seq<string>, domain: string)

  /** The identities of a subscriber record after normalisation. */
  datatype Core = Core(privateId: string, publicIds: seq<string>, sip: string, tel: string, domain: string)

  datatype Record = Record(core: Core, refIndex: int, phoneContext: string)

  /** What this configuration reads from the carrier configuration. */
  datatype Carrier = Carrier(isim: bool, usim: bool, isimIndex: int, phoneContext: string)

  /** Where the identities now in the record came from, and what they were when they came. */
  datatype Source = Nowhere | FromIsim(id: Identity) | FromStore(id: Identity) | FromCaller(id: Identity)

  /** One subscriber configuration, with the part of its environment it can observe: the carrier
      configuration, the persisted identities and the ISIM (present or not, last state notified,
      current records). `notices` is every callback made so far. */
  datatype Sub = Sub(
    attrs: Attributes,
    isimHandle: bool,
    state: State,
    records: seq<Record>,
    source: Source,
    listeners: map<Channel, seq<Listener>>,
    notices: seq<Notice>,
    carrier: Carrier,
    stored: Identity,
    isimAvailable: bool,
    isimState: IsimState,
    isimIdentity: Identity)
  {
    predicate IsServiceAllowed() { attrs.ims }

    predicate IsIsimSupported() { attrs.isim }

    predicate ReadsIsim() { IsServiceAllowed() && IsIsimSupported() }
  }

  /** The effect of a call: the new configuration and the messages sent, in order. */
  datatype Out = Out(sub: Sub, posts: seq<Msg>)

  // ---- subscriber records --------------------------------------------------------------------

  const BLANK := Core("", [], "", "", "")

  function Provision(id: Identity): Core {
    var ids := NormalizeAll(id.impus);
    Core(id.impi, ids, FirstContaining(ids, "sip:"), FirstContaining(ids, "tel:"), HomeDomain(id.domain, ids))
  }

  function RefIndex(s: Sub): int {
    if s.IsIsimSupported() then s.carrier.isimIndex else 0
  }

  function CreateSubscriberInfo(s: Sub): Record {
    Record(BLANK, RefIndex(s), s.carrier.phoneContext)
  }

  function Fill(s: Sub, r: Record, id: Identity): Record {
    r.(core := Provision(id), refIndex := RefIndex(s))
  }

  // ---- reading identities --------------------------------------------------------------------

  function InitIsim(s: Sub): Sub {
    if s.ReadsIsim() && !s.isimHandle then s.(isimHandle := s.isimAvailable) else s
  }

  function UpdateIsim(s: Sub): Out {
    if s.ReadsIsim() then
      var r := Fill(s, if s.records == [] then CreateSubscriberInfo(s) else s.records[0], s.isimIdentity);
      Out(s.(records := if s.records == [] then [r] else s.records[0 := r], state := Provisioned,
               source := FromIsim(s.isimIdentity)),
          [if s.state == Provisioning then InitCompleted(IsimChannel) else RefreshCompleted(IsimChannel)])
    else
      Out(s, [])
  }

  function RefreshIsim(s: Sub): Out {
    if !s.ReadsIsim() then Out(s, [])
    else if !s.isimHandle then Out(InitIsim(s), [])
    else if s.isimState == Loaded then UpdateIsim(s)
    else Out(s, [])
  }

  function ReadAttributes(carrier: Carrier): Attributes {
    Attributes(true, carrier.isim, carrier.usim)
  }

  function ReadFrom(s: Sub): Sub {
    var t := s.(attrs := ReadAttributes(s.carrier));
    var r := CreateSubscriberInfo(t);
    if t.ReadsIsim() then
      t.(records := t.records + [r],
         state := if t.state == Refreshing then Refreshing else Provisioning,
         source := Nowhere)
    else
      t.(records := t.records + [Fill(t, r, t.stored)], state := Provisioned,
         source := FromStore(t.stored))
  }

  function UpdateAll(s: Sub): Out {
    var t := ReadFrom(s.(records := []));
    Out(t,
        if t.IsIsimSupported() then [RefreshIsimRecords]
        else if s.state == Init then [InitCompleted(ManualChannel)]
        else [RefreshCompleted(ManualChannel)])
  }

  // ---- messages ------------------------------------------------------------------------------

  function ListenersOf(s: Sub, channel: Channel): seq<Listener> {
    if channel in s.listeners then s.listeners[channel] else []
  }

  function Tell(s: Sub, channel: Channel, kind: NoticeKind): Sub {
    s.(notices := s.notices + [Notice(channel, kind, ListenersOf(s, channel))])
  }

  function TellError(s: Sub, target: Option<Listener>, error: ErrorCode): Sub {
    match target
    case None => Tell(s, IsimChannel, Failed(error))
    case Some(l) =>
      var to := if l in ListenersOf(s, IsimChannel) then [l] else [];
      s.(notices := s.notices + [Notice(IsimChannel, Failed(error), to)])
  }

  function Handle(s: Sub, m: Msg): Out {
    match m
    case UpdateIsimRecords => UpdateIsim(s)
    case RefreshIsimRecords => RefreshIsim(s)
    case InitCompleted(c) => Out(Tell(s, c, InitDone), [])
    case RefreshCompleted(c) => Out(Tell(s, c, RefreshDone), [])
    case RefreshStarted(c) => Out(Tell(s, c, RefreshBegun), [])
    case RefreshStartedNCompleted(c) => Out(Tell(Tell(s, c, RefreshBegun), c, RefreshDone), [])
    case NotifyError(target, error) => Out(TellError(s, target, error), [])
    case UpdateAllConfigs => UpdateAll(Tell(s.(state := Refreshing), ManualChannel, RefreshBegun))
  }

  // ---- calls and callbacks -------------------------------------------------------------------

  datatype Call =
    | IsimStateChanged(isim: IsimState, identity: Identity)
    | EnableIsim
    | UpdateSubscriberInfo(given: Identity, isimEnabled: bool)
    | Refresh
    | RequestUpdateAll
    | RereadAttributes
    | SetIsimAttribute(enabled: bool)
    | SetUsimAttribute(enabled: bool)
    | SetListener(listener: Listener, onIsim: bool, onManual: bool)
    | RemoveListener(listener: Listener)
    | CarrierConfigChanged(carrier: Carrier)
    | StoredIdentityChanged(stored: Identity)

  function OnIsimState(s: Sub, isim: IsimState): Out {
    if !s.IsIsimSupported() then Out(s, [])
    else
      match isim
      case IsimIdle =>
        Out(if s.state != Init then s.(state := Inactive) else s, [])
      case NotPresent =>
        Out(s.(state := Provisioned), [NotifyError(None, NoIsimApplication)])
      case Loaded =>
        if s.state == Refreshing then UpdateIsim(s)
        else if s.state == Provisioned then
          Out(s.(state := Refreshing), [RefreshStarted(IsimChannel), UpdateIsimRecords])
        else
          UpdateIsim(if s.state == Inactive then s.(state := Provisioning) else s)
      case IsimRefreshing =>
        Out(if s.state == Provisioning then s else s.(state := Refreshing), [RefreshStarted(IsimChannel)])
  }

  function OnEnableIsim(s: Sub): Out {
    var t := s.(attrs := s.attrs.(isim := true, usim := false));
    if s.IsIsimSupported() then Out(t, [])
    else
      var u := t.(records := [], source := Nowhere);
      if u.state == Provisioned then
        Out(u.(state := Refreshing), [RefreshStarted(IsimChannel), RefreshIsimRecords])
      else
        Out(u, [RefreshIsimRecords])
  }

  function OnUpdateSubscriberInfo(s: Sub, given: Identity, isimEnabled: bool): Out {
    var t := s.(attrs := s.attrs.(isim := isimEnabled, usim := !isimEnabled));
    var r := Fill(t, CreateSubscriberInfo(t), given);
    Out(t.(records := [if isimEnabled then r.(refIndex := 0) else r], state := Provisioned,
           source := FromCaller(given)),
        [if s.state == Provisioned || s.state == Refreshing
         then RefreshStartedNCompleted(ManualChannel)
         else InitCompleted(ManualChannel)])
  }

  function AddListener(s: Sub, channel: Channel, l: Listener): Sub {
    s.(listeners := s.listeners[channel :=
         if l in ListenersOf(s, channel) then ListenersOf(s, channel) else ListenersOf(s, channel) + [l]])
  }

  function OnSetListener(s: Sub, l: Listener, onIsim: bool, onManual: bool): Out {
    var t := if onIsim then AddListener(s, IsimChannel, l) else s;
    var u := if onManual then AddListener(t, ManualChannel, l) else t;
    Out(u, if onIsim && u.ReadsIsim() && u.isimHandle && u.isimState == NotPresent
           then [NotifyError(Some(l), NoIsimApplication)] else [])
  }

  function Without(ls: seq<Listener>, l: Listener): (r: seq<Listener>)
    ensures l !in r
    ensures forall x :: x in r <==> x in ls && x != l
  {
    if ls == [] then [] else (if ls[0] == l then [] else [ls[0]]) + Without(ls[1..], l)
  }

  function OnRemoveListener(s: Sub, l: Listener): Sub {
    s.(listeners := map c | c in s.listeners :: Without(s.listeners[c], l))
  }

  function OnCarrierConfigChanged(s: Sub, carrier: Carrier): Sub {
    var t := s.(carrier := carrier);
    if t.records == [] then t
    else t.(records := t.records[0 := t.records[0].(phoneContext := carrier.phoneContext, refIndex := RefIndex(t))])
  }

  /** A call or callback. The ISIM can only be heard once its listener is installed. */
  function Apply(s: Sub, call: Call): Out {
    match call
    case IsimStateChanged(isim, identity) =>
      if s.isimHandle then OnIsimState(s.(isimState := isim, isimIdentity := identity), isim) else Out(s, [])
    case EnableIsim => OnEnableIsim(s)
    case UpdateSubscriberInfo(given, isimEnabled) => OnUpdateSubscriberInfo(s, given, isimEnabled)
    case Refresh => UpdateAll(s.(attrs := Attributes(true, true, false), state := Init))
    case RequestUpdateAll => Out(s, [UpdateAllConfigs])
    case RereadAttributes => Out(s.(attrs := ReadAttributes(s.carrier)), [])
    case SetIsimAttribute(enabled) => Out(s.(attrs := s.attrs.(isim := enabled)), [])
    case SetUsimAttribute(enabled) => Out(s.(attrs := s.attrs.(usim := enabled)), [])
    case SetListener(l, onIsim, onManual) => OnSetListener(s, l, onIsim, onManual)
    case RemoveListener(l) => Out(OnRemoveListener(s, l), [])
    case CarrierConfigChanged(carrier) => Out(OnCarrierConfigChanged(s, carrier), [])
    case StoredIdentityChanged(stored) => Out(s.(stored := stored), [])
  }

  /** A newly constructed configuration. */
  function Constructed(carrier: Carrier, stored: Identity, isimAvailable: bool): Sub {
    Sub(Attributes(true, true, false), false, Init, [], Nowhere, map[], [], carrier, stored,
        isimAvailable, IsimIdle, Identity("", [], ""))
  }

  /** A configuration right after Init and ACMSG_START. */
  function Started(carrier: Carrier, stored: Identity, isimAvailable: bool): Sub {
    InitIsim(ReadFrom(Constructed(carrier, stored, isimAvailable)))
  }

  /** Handling a message posts less than it consumes. */
  function Weight(m: Msg): nat {
    match m
    case UpdateAllConfigs => 3
    case UpdateIsimRecords => 2
    case RefreshIsimRecords => 2
    case _ => 1
  }

  lemma HandlePostsLess(s: Sub, m: Msg)
    ensures |Handle(s, m).posts| <= 1
    ensures forall p :: p in Handle(s, m).posts ==> Weight(p) < Weight(m)
  {
  }
}
