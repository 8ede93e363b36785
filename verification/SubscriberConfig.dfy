/** The subscriber configuration and its message helper as the objects they are: fields updated in
    place, every method proved against SubscriberModel.
 */
module SubscriberConfigs {
  import opened AStrings
  import opened SubscriberModel
  import opened SubscriberSteps
  import opened SubscriberSync

  datatype AsyncAction = AsyncAction(config: SubscriberConfig, msg: Msg)

  /** The messages `ms`, each addressed to `config`. */
  ghost function Addressed(config: SubscriberConfig, ms: seq<Msg>): (r: seq<AsyncAction>)
    ensures |r| == |ms|
  {
    if ms == [] then [] else [AsyncAction(config, ms[0])] + Addressed(config, ms[1..])
  }

  lemma {:induction false} AddressedReads(config: SubscriberConfig, ms: seq<Msg>)
    requires !ReadsHandle(ms)
    ensures forall a :: a in Addressed(config, ms) ==> a.config == config && a.msg != UpdateIsimRecords
  {
    if ms != [] {
      AddressedReads(config, ms[1..]);
    }
  }

  class AsyncConfigHelper {
    var configs: seq<SubscriberConfig>
    var queue: seq<AsyncAction>

    constructor ()
      ensures configs == [] && queue == []
    {
      configs, queue := [], [];
    }

    /** Registered configurations use this helper, and every queued read of the ISIM records finds
        its handle. */
    ghost predicate Valid()
      reads this, configs, set a | a in queue :: a.config
    {
      && (forall c :: c in configs ==> c.helper == this)
      && (forall a :: a in queue && a.msg == UpdateIsimRecords ==> a.config.isimHandle)
    }

    method IsRegisteredConfig(config: SubscriberConfig) returns (found: bool)
      ensures found <==> config in configs
    {
      for i := 0 to |configs|
        invariant config !in configs[..i]
      {
        if configs[i] == config {
          return true;
        }
      }
      return false;
    }

    method Register(config: SubscriberConfig)
      modifies this`configs
      ensures configs == if config in old(configs) then old(configs) else old(configs) + [config]
    {
      var found := IsRegisteredConfig(config);
      if !found {
        configs := configs + [config];
      }
    }

    method SendTo(config: SubscriberConfig, msg: Msg) returns (ok: bool)
      modifies this`queue
      ensures ok <==> config in configs
      ensures queue == old(queue) + if config in configs then [AsyncAction(config, msg)] else []
    {
      ok := IsRegisteredConfig(config);
      if ok {
        queue := queue + [AsyncAction(config, msg)];
      }
    }

    /** Removes the first registration of `config`, if there is one. */
    method Unregister(config: SubscriberConfig)
      modifies this`configs
      ensures config !in old(configs) ==> configs == old(configs)
      ensures config in old(configs) ==>
                exists i :: 0 <= i < |old(configs)| && old(configs)[i] == config && config !in old(configs)[..i]
                            && configs == old(configs)[..i] + old(configs)[i + 1..]
    {
      for i := 0 to |configs|
        invariant config !in configs[..i] && configs == old(configs)
      {
        if configs[i] == config {
          configs := configs[..i] + configs[i + 1..];
          return;
        }
      }
    }

    /** The message loop delivers the oldest action; a configuration no longer registered is not
        touched and the message is dropped. */
    method Dispatch()
      requires Valid()
      modifies this, if queue == [] then {} else {queue[0].config}
      ensures Valid() && configs == old(configs)
      ensures old(queue) == [] ==> queue == []
      ensures old(queue) != [] ==>
                var a := old(queue)[0];
                if a.config in configs then
                  var out := Handle(old(queue[0].config.View()), a.msg);
                  a.config.View() == out.sub && queue == old(queue)[1..] + Addressed(a.config, out.posts)
                else
                  a.config.View() == old(queue[0].config.View()) && queue == old(queue)[1..]
    {
      if queue == [] {
        return;
      }
      var action := queue[0];
      queue := queue[1..];
      OnMessage(action);
    }

    method OnMessage(action: AsyncAction)
      requires Valid() && (action.msg == UpdateIsimRecords ==> action.config.isimHandle)
      modifies this, action.config
      ensures Valid() && configs == old(configs)
      ensures if action.config in configs then
                var out := Handle(old(action.config.View()), action.msg);
                action.config.View() == out.sub && queue == old(queue) + Addressed(action.config, out.posts)
              else
                action.config.View() == old(action.config.View()) && queue == old(queue)
    {
      hide Handle;
      var registered := IsRegisteredConfig(action.config);
      if registered {
        ghost var s := action.config.View();
        action.config.HandleMessage(action.msg);
        HandleKeepsHandle(s, action.msg);
        AddressedReads(action.config, Handle(s, action.msg).posts);
      }
    }
  }

  lemma SyncKeepsHandle(s: Sub, m: Msg)
    ensures s.isimHandle ==> SyncHandle(s, m).isimHandle
    decreases Weight(m)
  {
    hide Handle;
    HandleKeepsHandle(s, m);
    HandlePostsLess(s, m);
    if Handle(s, m).posts != [] {
      SyncKeepsHandle(Handle(s, m).sub, Handle(s, m).posts[0]);
    }
  }

  class SubscriberConfig {
    var helper: AsyncConfigHelper?
    var attrs: Attributes
    var isimHandle: bool
    var state: State
    var records: seq<Record>
    var listeners: map<Channel, seq<Listener>>
    // What the code reads from outside: the carrier configuration, the store and the ISIM.
    var carrier: Carrier
    var stored: Identity
    var isimAvailable: bool
    var isimState: IsimState
    var isimIdentity: Identity
    ghost var source: Source
    ghost var notices: seq<Notice>

    ghost function View(): Sub
      reads this
    {
      Sub(attrs, isimHandle, state, records, source, listeners, notices, carrier, stored,
          isimAvailable, isimState, isimIdentity)
    }

    /** The effect of a call from outside: without a helper the messages sent are handled at once,
        with one they are queued, provided this configuration is registered. */
    twostate predicate Did(out: Out)
      reads this, helper
    {
      && helper == old(helper)
      && (helper == null ==> View() == SyncAll(out.sub, out.posts))
      && (helper != null ==>
            && View() == out.sub
            && helper.configs == old(helper.configs)
            && helper.queue == old(helper.queue) + if this in helper.configs then Addressed(this, out.posts) else [])
    }

    constructor (carrier: Carrier, stored: Identity, isimAvailable: bool)
      ensures helper == null && View() == Constructed(carrier, stored, isimAvailable)
    {
      helper := null;
      attrs := Attributes(true, true, false);
      isimHandle, state, records, listeners := false, Init, [], map[];
      this.carrier, this.stored, this.isimAvailable := carrier, stored, isimAvailable;
      isimState, isimIdentity := IsimIdle, Identity("", [], "");
      source, notices := Nowhere, [];
    }

    /** ACMSG_START. */
    method StartWith(h: AsyncConfigHelper?)
      modifies this, h
      ensures helper == h && View() == SubscriberModel.InitIsim(old(View()))
      ensures h != null ==>
                && h.queue == old(h.queue)
                && h.configs == if this in old(h.configs) then old(h.configs) else old(h.configs) + [this]
    {
      helper := h;
      if helper != null {
        helper.Register(this);
      }
      InitIsim();
    }

    method InitIsim()
      modifies this
      ensures View() == SubscriberModel.InitIsim(old(View())) && helper == old(helper)
    {
      if attrs.ims && attrs.isim {
        if !isimHandle {
          if !isimAvailable {
            return;
          }
          isimHandle := true;
        }
      }
    }

    // ---- records -----------------------------------------------------------------------------

    method CreateSubscriberInfo()
      modifies this`records
      ensures records == old(records) + [SubscriberModel.CreateSubscriberInfo(old(View()))]
    {
      var index := if attrs.isim then carrier.isimIndex else 0;
      records := records + [Record(BLANK, index, carrier.phoneContext)];
    }

    /** UpdatePrivateUserId, UpdatePublicUserIds and UpdateHomeDomainName on record `i`. */
    method FillRecord(i: nat, id: Identity)
      requires i < |records|
      modifies this`records
      ensures records == old(records)[i := Fill(old(View()), old(records)[i], id)]
    {
      var index := if attrs.isim then carrier.isimIndex else 0;
      var ids := Impu.UpdatePublicUserIds(id.impus);
      var sip, tel := Impu.SetPrimaryImpu(ids);
      var domain := Impu.UpdateHomeDomainName(id.domain, ids);
      records := records[i := records[i].(core := Core(id.impi, ids, sip, tel, domain), refIndex := index)];
    }

    method AppendFilled(id: Identity)
      modifies this`records
      ensures records == old(records) + [Fill(old(View()), SubscriberModel.CreateSubscriberInfo(old(View())), id)]
    {
      hide Provision;
      CreateSubscriberInfo();
      FillRecord(|records| - 1, id);
    }

    method ReadFrom()
      modifies this
      ensures View() == SubscriberModel.ReadFrom(old(View())) && helper == old(helper)
    {
      hide Provision, Fill, SubscriberModel.CreateSubscriberInfo;
      attrs := Attributes(true, carrier.isim, carrier.usim);
      ghost var t := View();
      assert t == old(View()).(attrs := ReadAttributes(old(carrier)));
      if attrs.ims && attrs.isim {
        CreateSubscriberInfo();
        source := Nowhere;
        if state != Refreshing {
          state := Provisioning;
        }
        return;
      }
      AppendFilled(stored);
      state, source := Provisioned, FromStore(stored);
    }

    // ---- messages ----------------------------------------------------------------------------

    method SendMessage(m: Msg)
      requires helper == null && m == Msg.UpdateIsimRecords ==> isimHandle
      modifies this, helper
      ensures helper == old(helper)
      ensures helper == null ==> View() == SyncHandle(old(View()), m)
      ensures helper != null ==>
                && View() == old(View())
                && helper.configs == old(helper.configs)
                && helper.queue == old(helper.queue) + if this in helper.configs then [AsyncAction(this, m)] else []
      decreases Weight(m), 3
    {
      hide SyncHandle, SyncAll, Handle;
      if helper != null {
        var _ := helper.SendTo(this, m);
      } else {
        SyncHandleUnfold(View(), m);
        HandleMessage(m);
      }
    }

    method HandleMessage(m: Msg)
      requires m == Msg.UpdateIsimRecords ==> isimHandle
      modifies this, helper
      ensures Did(Handle(old(View()), m))
      decreases Weight(m), 2
    {
      hide SyncHandle, UpdateIsim, RefreshIsim, UpdateAll;
      match m
      case UpdateIsimRecords => UpdateIsimRecords();
      case RefreshIsimRecords => RefreshIsimRecords();
      case InitCompleted(c) => Notify(c, InitDone);
      case RefreshCompleted(c) => Notify(c, RefreshDone);
      case RefreshStarted(c) => Notify(c, RefreshBegun);
      case RefreshStartedNCompleted(c) =>
        Notify(c, RefreshBegun);
        Notify(c, RefreshDone);
      case NotifyError(target, error) => NotifyError(target, error);
      case UpdateAllConfigs =>
        state := Refreshing;
        Notify(ManualChannel, RefreshBegun);
        UpdateAllConfigs();
    }

    /** Calls every listener of the channel, in order. */
    method Notify(channel: Channel, kind: NoticeKind)
      modifies this`notices
      ensures View() == Tell(old(View()), channel, kind)
    {
      ghost var told: seq<Listener> := [];
      if channel in listeners {
        var ls := listeners[channel];
        for i := 0 to |ls|
          invariant told == ls[..i]
        {
          told := told + [ls[i]];
        }
        assert ls[..|ls|] == ls;
      }
      notices := notices + [Notice(channel, kind, told)];
    }

    method NotifyError(target: Option<Listener>, error: ErrorCode)
      modifies this`notices
      ensures View() == TellError(old(View()), target, error)
    {
      match target
      case None => Notify(IsimChannel, Failed(error));
      case Some(l) =>
        ghost var told: seq<Listener> := [];
        if IsimChannel in listeners && l in listeners[IsimChannel] {
          told := [l];
        }
        notices := notices + [Notice(IsimChannel, Failed(error), told)];
    }

    method UpdateIsimRecords()
      requires attrs.ims && attrs.isim ==> isimHandle
      modifies this, helper
      ensures Did(UpdateIsim(old(View())))
      decreases 1, 4
    {
      hide SyncHandle, Provision;
      if attrs.ims && attrs.isim {
        if records == [] {
          CreateSubscriberInfo();
        }
        FillRecord(0, isimIdentity);
        assert old(records) == [] ==> records == [records[0]];
        var oldState := state;
        state, source := Provisioned, FromIsim(isimIdentity);
        var m := if oldState == Provisioning then InitCompleted(IsimChannel) else RefreshCompleted(IsimChannel);
        SyncAllOne(View(), m);
        SendMessage(m);
      }
    }

    method RefreshIsimRecords()
      modifies this, helper
      ensures Did(RefreshIsim(old(View())))
      decreases 1, 5
    {
      if attrs.ims && attrs.isim {
        if !isimHandle {
          InitIsim();
        } else if isimState == Loaded {
          UpdateIsimRecords();
        }
      }
    }

    method UpdateAllConfigs()
      modifies this, helper
      ensures Did(UpdateAll(old(View())))
      decreases 2, 4
    {
      hide SyncHandle, SubscriberModel.ReadFrom;
      records := [];
      var oldState := state;
      ReadFrom();
      var m := if attrs.isim then Msg.RefreshIsimRecords
               else if oldState == Init then InitCompleted(ManualChannel)
               else RefreshCompleted(ManualChannel);
      SyncAllOne(View(), m);
      SendMessage(m);
    }

    // ---- calls and callbacks -----------------------------------------------------------------

    /** One message sent by a call. */
    method SendOne(m: Msg)
      requires isimHandle || m != Msg.UpdateIsimRecords
      modifies this, helper
      ensures Did(Out(old(View()), [m]))
    {
      hide SyncAll;
      SyncAllOne(View(), m);
      assert [m][1..] == [];
      assert Addressed(this, [m]) == [AsyncAction(this, m)];
      SendMessage(m);
    }

    /** Two messages sent one after the other. */
    method SendTwo(a: Msg, b: Msg)
      requires isimHandle || (a != Msg.UpdateIsimRecords && b != Msg.UpdateIsimRecords)
      modifies this, helper
      ensures Did(Out(old(View()), [a, b]))
    {
      hide SyncAll;
      SyncAllTwo(View(), a, b);
      SyncKeepsHandle(View(), a);
      assert [a, b][1..] == [b] && [b][1..] == [];
      assert Addressed(this, [a, b]) == [AsyncAction(this, a), AsyncAction(this, b)];
      SendMessage(a);
      SendMessage(b);
    }

    /** The ISIM reports a state; its listener is only installed with the handle. */
    method IsimOnStateChanged(isim: IsimState, identity: Identity)
      requires isimHandle
      modifies this, helper
      ensures Did(Apply(old(View()), IsimStateChanged(isim, identity)))
    {
      hide SyncHandle, SyncAll, UpdateIsim;
      isimState, isimIdentity := isim, identity;
      if !attrs.isim {
        SyncAllNone(View());
        return;
      }
      match isim
      case IsimIdle =>
        if state != Init {
          state := Inactive;
        }
        SyncAllNone(View());
      case NotPresent =>
        state := Provisioned;
        SendOne(Msg.NotifyError(None, NoIsimApplication));
      case Loaded =>
        if state == Refreshing {
          UpdateIsimRecords();
        } else if state == Provisioned {
          state := Refreshing;
          SendTwo(RefreshStarted(IsimChannel), Msg.UpdateIsimRecords);
        } else {
          if state == Inactive {
            state := Provisioning;
          }
          UpdateIsimRecords();
        }
      case IsimRefreshing =>
        if state != Provisioning {
          state := Refreshing;
        }
        SendOne(RefreshStarted(IsimChannel));
    }

    method EnableIsim()
      modifies this, helper
      ensures Did(Apply(old(View()), Call.EnableIsim))
    {
      hide SyncHandle;
      var wasSupported := attrs.isim;
      attrs := attrs.(isim := true, usim := false);
      if !wasSupported {
        records, source := [], Nowhere;
        if state == Provisioned {
          state := Refreshing;
          SendTwo(RefreshStarted(IsimChannel), Msg.RefreshIsimRecords);
        } else {
          SendOne(Msg.RefreshIsimRecords);
        }
      }
    }

    /** The attributes switched and the record replaced, the state still the old one. */
    method ReplaceRecord(given: Identity, isimEnabled: bool)
      modifies this`attrs, this`records
      ensures View() == OnUpdateSubscriberInfo(old(View()), given, isimEnabled).sub.(state := state, source := source)
    {
      hide Provision;
      records := [];
      attrs := attrs.(isim := isimEnabled, usim := !isimEnabled);
      AppendFilled(given);
      if isimEnabled {
        records := records[0 := records[0].(refIndex := 0)];
      }
      assert records == [records[0]];
    }

    method UpdateSubscriberInfo(given: Identity, isimEnabled: bool)
      modifies this, helper
      ensures Did(Apply(old(View()), Call.UpdateSubscriberInfo(given, isimEnabled)))
    {
      hide SyncHandle, SyncAll, Addressed, Fill, SubscriberModel.CreateSubscriberInfo;
      ReplaceRecord(given, isimEnabled);
      var m := if state == Provisioned || state == Refreshing then RefreshStartedNCompleted(ManualChannel)
               else InitCompleted(ManualChannel);
      state, source := Provisioned, FromCaller(given);
      SendOne(m);
    }

    method Refresh()
      modifies this, helper
      ensures Did(Apply(old(View()), Call.Refresh))
    {
      hide SyncHandle, SyncAll, UpdateAll;
      attrs := Attributes(true, true, false);
      state := Init;
      UpdateAllConfigs();
    }

    /** Update(CP_I_SUBSCRIBER_ALL). */
    method RequestUpdateAll()
      modifies this, helper
      ensures Did(Apply(old(View()), Call.RequestUpdateAll))
    {
      hide SyncHandle;
      SendOne(Msg.UpdateAllConfigs);
    }

    method AppendListener(event: Channel, l: Listener)
      modifies this`listeners
      ensures View() == AddListener(old(View()), event, l)
    {
      if event in listeners {
        if l !in listeners[event] {
          listeners := listeners[event := listeners[event] + [l]];
        } else {
          assert listeners == listeners[event := listeners[event]];
        }
      } else {
        assert [] + [l] == [l];
        listeners := listeners[event := [l]];
      }
    }

    method SetListener(l: Listener, onIsim: bool, onManual: bool)
      modifies this, helper
      ensures Did(Apply(old(View()), Call.SetListener(l, onIsim, onManual)))
    {
      hide SyncHandle;
      var events := (if onIsim then [IsimChannel] else []) + if onManual then [ManualChannel] else [];
      ghost var s := View();
      for i := 0 to |events|
        invariant helper == old(helper) && (helper != null ==> unchanged(helper))
        invariant View() == if i == 0 then s
                            else if i == 1 then AddListener(s, events[0], l)
                            else AddListener(AddListener(s, events[0], l), events[1], l)
      {
        AppendListener(events[i], l);
      }
      if onIsim && attrs.ims && attrs.isim && isimHandle && isimState == NotPresent {
        SendOne(Msg.NotifyError(Some(l), NoIsimApplication));
      }
    }

    method RemoveListener(l: Listener)
      modifies this`listeners
      ensures View() == OnRemoveListener(old(View()), l)
    {
      var keys := [IsimChannel, ManualChannel];
      for i := 0 to |keys|
        invariant listeners.Keys == old(listeners).Keys
        invariant forall k :: 0 <= k < 2 && keys[k] in listeners ==>
                    listeners[keys[k]] == if k < i then Without(old(listeners)[keys[k]], l) else old(listeners)[keys[k]]
      {
        if keys[i] in listeners {
          listeners := listeners[keys[i] := Without(listeners[keys[i]], l)];
        }
      }
      forall c | c in listeners
        ensures listeners[c] == Without(old(listeners)[c], l)
      {
        assert c == keys[0] || c == keys[1];
      }
      assert listeners == map c | c in old(listeners) :: Without(old(listeners)[c], l);
    }

    /** CarrierConfig_NotifyConfigChanged. */
    method CarrierConfigNotifyConfigChanged(changed: Carrier)
      modifies this
      ensures View() == OnCarrierConfigChanged(old(View()), changed) && helper == old(helper)
    {
      carrier := changed;
      var index := if attrs.isim then carrier.isimIndex else 0;
      if records != [] {
        records := records[0 := records[0].(phoneContext := carrier.phoneContext)];
        if records[0].refIndex != index {
          records := records[0 := records[0].(refIndex := index)];
        }
      }
    }
  }
}
