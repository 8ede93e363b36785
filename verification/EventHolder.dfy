/** Listeners of system events and the events armed at the receiver. Follows the class EventHolder of
    ServiceEvent.cpp. A listener is known by identity; one may be null.
 */
module EventHolders {
  import opened AStrings
  import opened SortedMaps

  type Listener = Option<int>

  /** A message posted to a listener: the event with its two parameters. */
  datatype Post = Post(listener: int, event: int, w: nat, l: nat)

  // ---- the table as a map ---------------------------------------------------------------------

  type Table = map<int, seq<Listener>>

  function ListenersOf(t: Table, event: int): seq<Listener> {
    if event in t then t[event] else []
  }

  function Register(t: Table, event: int, listener: Listener): Table {
    var ls := ListenersOf(t, event);
    if listener in ls then t else t[event := ls + [listener]]
  }

  function Find(ls: seq<Listener>, listener: Listener): (k: int)
    ensures -1 <= k < |ls|
    ensures k >= 0 ==> ls[k] == listener
    ensures listener !in (if k < 0 then ls else ls[..k])
  {
    if ls == [] then -1
    else if ls[0] == listener then 0
    else
      var k := Find(ls[1..], listener);
      if k < 0 then -1
      else
        assert ls[..k + 1] == [ls[0]] + ls[1..][..k];
        k + 1
  }

  function Without(ls: seq<Listener>, listener: Listener): seq<Listener> {
    var k := Find(ls, listener);
    if k < 0 then ls else ls[..k] + ls[k + 1..]
  }

  function Unregister(t: Table, event: int, listener: Listener): Table {
    if event !in t then t
    else
      var ls := Without(t[event], listener);
      if ls == [] then t - {event} else t[event := ls]
  }

  /** The table with the events armed at the receiver. */
  datatype State = State(table: Table, armed: set<int>)

  /** Losing stands for a receiver that forgets events; arming again is SetUnregisteredEvents. */
  datatype Op = OpAdd(event: int, listener: Listener) | OpRemove(event: int, listener: Listener)
              | OpLose(events: set<int>) | OpRearm

  /** Only the first listener of an event arms it, and only the last one leaving disarms it. */
  function Step(s: State, op: Op): State {
    match op
    case OpAdd(e, l) =>
      State(Register(s.table, e, l), if e in s.table then s.armed else s.armed + {e})
    case OpRemove(e, l) =>
      var t := Unregister(s.table, e, l);
      State(t, if e in s.table && e !in t then s.armed - {e} else s.armed)
    case OpLose(es) => s.(armed := s.armed - es)
    case OpRearm => s.(armed := s.armed + s.table.Keys)
  }

  function Run(ops: seq<Op>): State {
    if ops == [] then State(map[], {}) else Step(Run(ops[..|ops| - 1]), ops[|ops| - 1])
  }

  // ---- every run --------------------------------------------------------------------------------

  /** The listener was added to the event, and not removed from it since. */
  predicate Listens(ops: seq<Op>, event: int, listener: Listener) {
    exists i :: 0 <= i < |ops| && ops[i] == OpAdd(event, listener)
                && forall j :: i < j < |ops| ==> ops[j] != OpRemove(event, listener)
  }

  ghost predicate HasListener(ops: seq<Op>, event: int) {
    exists listener :: Listens(ops, event, listener)
  }

  /** The operation arms the event: it arms everything again, or it adds the first listener. */
  ghost predicate Arms(before: seq<Op>, op: Op, event: int) {
    op == OpRearm || (op.OpAdd? && op.event == event && !HasListener(before, event))
  }

  /** The receiver lost the event after it was armed for the last time. */
  ghost predicate Forgotten(ops: seq<Op>, event: int) {
    exists i :: 0 <= i < |ops| && ops[i].OpLose? && event in ops[i].events
                && forall j :: i < j < |ops| ==> !Arms(ops[..j], ops[j], event)
  }

  predicate NoDuplicate(ls: seq<Listener>) {
    forall i, j :: 0 <= i < j < |ls| ==> ls[i] != ls[j]
  }

  /** No list is empty and none holds a listener twice. */
  predicate WellFormed(t: Table) {
    forall e :: e in t ==> t[e] != [] && NoDuplicate(t[e])
  }

  lemma WithoutHolds(ls: seq<Listener>, gone: Listener)
    requires NoDuplicate(ls)
    ensures NoDuplicate(Without(ls, gone))
    ensures forall l :: l in Without(ls, gone) <==> l in ls && l != gone
  {
    hide Find;
    var k := Find(ls, gone);
    if k >= 0 {
      var rest := ls[..k] + ls[k + 1..];
      assert forall i :: 0 <= i < |rest| ==> rest[i] == ls[if i < k then i else i + 1];
      forall l | l in ls && l != gone ensures l in rest {
        var i :| 0 <= i < |ls| && ls[i] == l;
        assert rest[if i < k then i else i - 1] == l;
      }
    }
  }

  lemma AppendDistinct(ls: seq<Listener>, l: Listener)
    requires NoDuplicate(ls) && l !in ls
    ensures NoDuplicate(ls + [l])
  {
  }

  lemma EmptyDistinct()
    ensures NoDuplicate([])
  {
  }

  /** One step keeps the table well-formed, and moves one listener in or out. */
  lemma StepTable(s: State, op: Op)
    requires WellFormed(s.table)
    ensures WellFormed(Step(s, op).table)
    ensures forall e, l :: l in ListenersOf(Step(s, op).table, e) <==>
              if op == OpAdd(e, l) then true
              else if op == OpRemove(e, l) then false
              else l in ListenersOf(s.table, e)
  {
    hide Without, NoDuplicate;
    match op
    case OpAdd(e, l) =>
      EmptyDistinct();
      if l !in ListenersOf(s.table, e) {
        AppendDistinct(ListenersOf(s.table, e), l);
      }
    case OpRemove(e, l) =>
      if e in s.table {
        WithoutHolds(s.table[e], l);
      }
    case _ =>
  }

  lemma NothingYet()
    ensures WellFormed(map[])
    ensures forall e, l :: l !in ListenersOf(map[], e) && !Listens([], e, l)
  {
  }

  lemma ListensStep(ops: seq<Op>, e: int, l: Listener)
    requires ops != []
    ensures Listens(ops, e, l) <==>
            var op := ops[|ops| - 1];
            if op == OpAdd(e, l) then true
            else if op == OpRemove(e, l) then false
            else Listens(ops[..|ops| - 1], e, l)
  {
    var init, op := ops[..|ops| - 1], ops[|ops| - 1];
    assert forall j :: 0 <= j < |init| ==> init[j] == ops[j];
    if op == OpAdd(e, l) {
      assert ops[|ops| - 1] == OpAdd(e, l);
    } else if Listens(init, e, l) && op != OpRemove(e, l) {
      var i :| 0 <= i < |init| && init[i] == OpAdd(e, l)
               && forall j :: i < j < |init| ==> init[j] != OpRemove(e, l);
      assert ops[i] == OpAdd(e, l);
    }
  }

  lemma ForgottenStep(ops: seq<Op>, e: int)
    requires ops != []
    ensures Forgotten(ops, e) <==>
            var init, op := ops[..|ops| - 1], ops[|ops| - 1];
            if op.OpLose? && e in op.events then true
            else if Arms(init, op, e) then false
            else Forgotten(init, e)
  {
    hide Arms;
    var init, op := ops[..|ops| - 1], ops[|ops| - 1];
    assert forall j :: 0 <= j < |init| ==> init[j] == ops[j] && init[..j] == ops[..j];
    assert ops[..|ops| - 1] == init;
    if Forgotten(init, e) && !Arms(init, op, e) {
      var i :| 0 <= i < |init| && init[i].OpLose? && e in init[i].events
               && forall j :: i < j < |init| ==> !Arms(init[..j], init[j], e);
      assert ops[i].OpLose? && e in ops[i].events;
      assert forall j :: i < j < |ops| ==> !Arms(ops[..j], ops[j], e);
    }
    if op.OpLose? && e in op.events {
      assert ops[|ops| - 1].OpLose?;
    }
  }

  lemma StepKeys(s: State, op: Op)
    requires WellFormed(s.table)
    ensures Step(s, op).table.Keys ==
            match op
            case OpAdd(e, _) => s.table.Keys + {e}
            case OpRemove(e, _) => if e in s.table && e !in Step(s, op).table then s.table.Keys - {e} else s.table.Keys
            case _ => s.table.Keys
  {
  }

  /** A list of listeners is there exactly if it is not empty. */
  lemma SomeoneListens(ops: seq<Op>, t: Table, event: int)
    requires WellFormed(t) && forall l :: l in ListenersOf(t, event) <==> Listens(ops, event, l)
    ensures event in t <==> HasListener(ops, event)
  {
    hide Listens;
    if event in t {
      assert ListenersOf(t, event)[0] in ListenersOf(t, event);
    }
  }

  lemma {:induction false} TableFollows(ops: seq<Op>)
    ensures WellFormed(Run(ops).table)
    ensures forall e, l :: l in ListenersOf(Run(ops).table, e) <==> Listens(ops, e, l)
  {
    hide WellFormed, Listens, Register, Unregister;
    if ops == [] {
      NothingYet();
    } else {
      var init, op := ops[..|ops| - 1], ops[|ops| - 1];
      TableFollows(init);
      StepTable(Run(init), op);
      forall e, l
        ensures Listens(ops, e, l) <==>
                if op == OpAdd(e, l) then true else if op == OpRemove(e, l) then false else Listens(init, e, l)
      {
        ListensStep(ops, e, l);
      }
    }
  }

  lemma {:induction false} ReceiverFollows(ops: seq<Op>, event: int)
    ensures event in Run(ops).armed <==> event in Run(ops).table && !Forgotten(ops, event)
  {
    hide WellFormed, Listens, Register, Unregister, Forgotten, HasListener;
    if ops != [] {
      var init, op := ops[..|ops| - 1], ops[|ops| - 1];
      ReceiverFollows(init, event);
      TableFollows(init);
      StepKeys(Run(init), op);
      ForgottenStep(ops, event);
      SomeoneListens(init, Run(init).table, event);
    }
  }

  /** After any run: exactly the listeners added and not removed since are in the table, no list is empty
      or holds one twice, and an event is armed exactly if it has a listener and the receiver did not lose
      it since its first listener was added or the last re-arming. */
  lemma TableAndReceiverAgree(ops: seq<Op>)
    ensures var s := Run(ops);
            && WellFormed(s.table)
            && (forall e, l :: l in ListenersOf(s.table, e) <==> Listens(ops, e, l))
            && (forall e :: e in s.armed <==> HasListener(ops, e) && !Forgotten(ops, e))
  {
    hide WellFormed, Listens, Forgotten, Run, HasListener;
    TableFollows(ops);
    forall e ensures e in Run(ops).armed <==> HasListener(ops, e) && !Forgotten(ops, e) {
      ReceiverFollows(ops, e);
      SomeoneListens(ops, Run(ops).table, e);
    }
  }

  /** A notification: one post to every listener that is not null, in order. */
  function PostsFor(ls: seq<Listener>, event: int, w: nat, l: nat): seq<Post> {
    if ls == [] then []
    else
      PostsFor(ls[..|ls| - 1], event, w, l)
      + if ls[|ls| - 1] == None then [] else [Post(ls[|ls| - 1].value, event, w, l)]
  }

  function PostsTo(posts: seq<Post>, listener: int): nat {
    if posts == [] then 0
    else PostsTo(posts[..|posts| - 1], listener) + if posts[|posts| - 1].listener == listener then 1 else 0
  }

  lemma NoPosts(event: int, w: nat, l: nat, who: int)
    ensures PostsFor([], event, w, l) == [] && PostsTo([], who) == 0
  {
  }

  lemma PostsSnoc(ls: seq<Listener>, event: int, w: nat, l: nat, who: int)
    requires ls != []
    ensures var posts, before := PostsFor(ls, event, w, l), PostsFor(ls[..|ls| - 1], event, w, l);
            && PostsTo(posts, who) == PostsTo(before, who) + (if ls[|ls| - 1] == Some(who) then 1 else 0)
            && (forall p :: p in posts ==> p in before || p == Post(p.listener, event, w, l))
  {
    var posts, before := PostsFor(ls, event, w, l), PostsFor(ls[..|ls| - 1], event, w, l);
    if ls[|ls| - 1].Some? {
      assert posts[..|posts| - 1] == before;
    } else {
      assert posts == before;
    }
  }

  lemma {:induction false} PostsCount(ls: seq<Listener>, event: int, w: nat, l: nat, who: int)
    requires NoDuplicate(ls)
    ensures PostsTo(PostsFor(ls, event, w, l), who) == if Some(who) in ls then 1 else 0
    ensures forall p :: p in PostsFor(ls, event, w, l) ==> p == Post(p.listener, event, w, l)
  {
    hide PostsFor, PostsTo;
    if ls == [] {
      NoPosts(event, w, l, who);
    } else {
      var init, last := ls[..|ls| - 1], ls[|ls| - 1];
      assert ls == init + [last];
      PostsCount(init, event, w, l, who);
      PostsSnoc(ls, event, w, l, who);
    }
  }

  lemma {:induction false} FindBehind(before: seq<Listener>, listener: Listener, after: seq<Listener>)
    requires listener !in before
    ensures Find(before + [listener] + after, listener) == |before|
  {
    var ls := before + [listener] + after;
    if before != [] {
      assert ls[0] == before[0] && ls[1..] == before[1..] + [listener] + after;
      FindBehind(before[1..], listener, after);
    }
  }

  /** Listeners keep the order in which they came: a new one is last, and one that leaves lets the others close up. */
  lemma OrderKept(t: Table, event: int, listener: Listener, before: seq<Listener>, after: seq<Listener>)
    ensures listener !in ListenersOf(t, event) ==>
              ListenersOf(Register(t, event, listener), event) == ListenersOf(t, event) + [listener]
    ensures listener in ListenersOf(t, event) ==> Register(t, event, listener) == t
    ensures ListenersOf(t, event) == before + [listener] + after && listener !in before ==>
              ListenersOf(Unregister(t, event, listener), event) == before + after
  {
    hide Find;
    var ls := before + [listener] + after;
    if ListenersOf(t, event) == ls && listener !in before {
      FindBehind(before, listener, after);
      assert ls[..|before|] == before && ls[|before| + 1..] == after;
    }
  }

  /** Posts are made in the order of the listeners. */
  lemma {:induction false} PostsConcat(xs: seq<Listener>, ys: seq<Listener>, event: int, w: nat, l: nat)
    ensures PostsFor(xs + ys, event, w, l) == PostsFor(xs, event, w, l) + PostsFor(ys, event, w, l)
  {
    if ys == [] {
      assert xs + ys == xs;
    } else {
      assert (xs + ys)[..|xs + ys| - 1] == xs + ys[..|ys| - 1];
      PostsConcat(xs, ys[..|ys| - 1], event, w, l);
    }
  }

  /** After any run a notification posts once to each listener that listens and is not null, and to nobody
      else; it is refused exactly if nobody listens. */
  lemma NotificationReachesListeners(ops: seq<Op>, event: int, w: nat, l: nat, who: int)
    ensures
      var ls := ListenersOf(Run(ops).table, event);
      && PostsTo(PostsFor(ls, event, w, l), who) == (if Listens(ops, event, Some(who)) then 1 else 0)
      && (event in Run(ops).table <==> HasListener(ops, event))
  {
    hide PostsFor, PostsTo, Run, Listens, HasListener;
    TableFollows(ops);
    var t := Run(ops).table;
    EmptyDistinct();
    PostsCount(ListenersOf(t, event), event, w, l, who);
    SomeoneListens(ops, t, event);
  }

  // ---- the classes ------------------------------------------------------------------------------

  /** The receiver of the operating system: the events it delivers. */
  class EventReceiver {
    var armed: set<int>

    constructor ()
      ensures armed == {}
    {
      armed := {};
    }

    method SetEvent(event: int)
      modifies this
      ensures armed == old(armed) + {event}
    {
      armed := armed + {event};
    }

    method ResetEvent(event: int)
      modifies this
      ensures armed == old(armed) - {event}
    {
      armed := armed - {event};
    }
  }

  class EventHolder {
    const receiver: EventReceiver
    var eventMap: Pairs<int, seq<Listener>>

    constructor ()
      ensures Valid() && View() == Run([]) && fresh(receiver)
    {
      receiver := new EventReceiver();
      eventMap := [];
    }

    ghost predicate Valid()
      reads this
    {
      Sorted(eventMap) && WellFormed(ToMap(eventMap))
    }

    ghost function View(): State
      reads this, receiver
    {
      State(ToMap(eventMap), receiver.armed)
    }

    method AddListener(event: int, listener: Listener) returns (ok: bool)
      requires Valid()
      modifies this, receiver
      ensures Valid() && ok && View() == Step(old(View()), OpAdd(event, listener))
    {
      hide IndexOfKey, ToMap, WellFormed, Sorted;
      StepTable(View(), OpAdd(event, listener));
      SortedIsDistinct(eventMap);
      var index := IndexOfKey(eventMap, event);
      ToMapHas(eventMap, event);
      if index < 0 {
        AddRefines(eventMap, event, [listener]);
        eventMap := SortedMaps.Add(eventMap, event, [listener]);
        receiver.SetEvent(event);
        assert [] + [listener] == [listener];
        return true;
      }
      var activities := eventMap[index].1;
      var i := 0;
      while i < |activities|
        invariant 0 <= i <= |activities|
        invariant listener !in activities[..i]
      {
        if activities[i] == listener {
          return true;
        }
        i := i + 1;
      }
      assert activities[..i] == activities;
      SetRefines(eventMap, index, activities + [listener]);
      KeepsOrder(eventMap, index, activities + [listener]);
      eventMap := eventMap[index := (eventMap[index].0, activities + [listener])];
      ok := true;
    }

    static lemma KeepsOrder(p: Pairs<int, seq<Listener>>, i: nat, value: seq<Listener>)
      requires Sorted(p) && i < |p|
      ensures Sorted(p[i := (p[i].0, value)])
    {
    }

    method RemoveListener(event: int, listener: Listener)
      requires Valid()
      modifies this, receiver
      ensures Valid() && View() == Step(old(View()), OpRemove(event, listener))
    {
      hide IndexOfKey, ToMap, WellFormed, Sorted, Find;
      StepTable(View(), OpRemove(event, listener));
      SortedIsDistinct(eventMap);
      var index := IndexOfKey(eventMap, event);
      ToMapHas(eventMap, event);
      if index < 0 {
        return;
      }
      var activities := eventMap[index].1;
      ghost var k := Find(activities, listener);
      var i := 0;
      while i < |activities|
        invariant 0 <= i <= if k < 0 then |activities| else k
        invariant activities == eventMap[index].1
      {
        if activities[i] == listener {
          activities := activities[..i] + activities[i + 1..];
          break;
        }
        i := i + 1;
      }
      assert activities == Without(eventMap[index].1, listener);
      if activities == [] {
        RemoveRefines(eventMap, index);
        RemoveSorted(eventMap, index);
        eventMap := RemoveAt(eventMap, index);
        receiver.ResetEvent(event);
      } else {
        SetRefines(eventMap, index, activities);
        KeepsOrder(eventMap, index, activities);
        eventMap := eventMap[index := (eventMap[index].0, activities)];
      }
    }

    /** Arms every event of the table again. */
    method SetUnregisteredEvents()
      requires Valid()
      modifies receiver
      ensures View() == Step(old(View()), OpRearm)
    {
      hide IndexOfKey, ToMap, WellFormed, Sorted;
      SortedIsDistinct(eventMap);
      var i := 0;
      while i < |eventMap|
        invariant 0 <= i <= |eventMap|
        invariant receiver.armed == old(receiver.armed) + KeysOf(eventMap[..i])
      {
        receiver.SetEvent(eventMap[i].0);
        assert eventMap[..i + 1] == eventMap[..i] + [eventMap[i]];
        i := i + 1;
      }
      assert eventMap[..i] == eventMap;
      KeysAreMapKeys(eventMap);
    }

    static function KeysOf(p: Pairs<int, seq<Listener>>): (r: set<int>)
      ensures forall k :: k in r <==> exists i :: 0 <= i < |p| && p[i].0 == k
    {
      set i | 0 <= i < |p| :: p[i].0
    }

    static lemma KeysAreMapKeys(p: Pairs<int, seq<Listener>>)
      requires Distinct(p)
      ensures KeysOf(p) == ToMap(p).Keys
    {
      hide IndexOfKey, ToMap;
      forall k: int ensures k in KeysOf(p) <==> k in ToMap(p) {
        ToMapHas(p, k);
        if k in KeysOf(p) {
          var i :| 0 <= i < |p| && p[i].0 == k;
        }
      }
    }

    /** Posts to the listeners of an event; false if there is none. */
    method NotifyEvent(event: int, w: nat, l: nat) returns (handled: bool, posts: seq<Post>)
      requires Valid()
      ensures handled == (event in ToMap(eventMap))
      ensures posts == PostsFor(ListenersOf(ToMap(eventMap), event), event, w, l)
    {
      hide IndexOfKey, ToMap, Sorted;
      SortedIsDistinct(eventMap);
      posts := [];
      var index := IndexOfKey(eventMap, event);
      ToMapHas(eventMap, event);
      if index < 0 {
        return false, posts;
      }
      var activities := eventMap[index].1;
      assert activities == ToMap(eventMap)[event];
      if activities == [] {
        return false, posts;
      }
      var i := 0;
      while i < |activities|
        invariant 0 <= i <= |activities|
        invariant posts == PostsFor(activities[..i], event, w, l)
      {
        assert activities[..i + 1][..i] == activities[..i];
        if activities[i].Some? {
          posts := posts + [Post(activities[i].value, event, w, l)];
        }
        i := i + 1;
      }
      assert activities[..i] == activities;
      handled := true;
    }
  }
}
