/** The helper that queues messages for every subscriber configuration, as a function of values.
    Follows AsyncConfigHelper.cpp: one FIFO for all, and a message whose configuration is no longer
    registered when its turn comes is dropped.
 */
module MessageQueue {
  import opened AStrings
  import opened SubscriberModel
  import SubscriberRuns

  type Config = nat
  datatype Action = Action(config: Config, msg: Msg)
  datatype Fate = Handled(action: Action) | Dropped(action: Action)

  /** `subs` keeps destroyed configurations too; the live ones are those registered. */
  datatype World = World(
    subs: map<Config, Sub>,
    registered: seq<Config>,
    queue: seq<Action>,
    posted: seq<Action>,
    fates: seq<Fate>)

  datatype Event =
    | Create(config: Config, carrier: Carrier, stored: Identity, isimAvailable: bool)
    | Destroy(config: Config)
    | On(config: Config, call: Call)
    | Dispatch

  const EMPTY := World(map[], [], [], [], [])

  function Tag(c: Config, ms: seq<Msg>): (r: seq<Action>)
    ensures |r| == |ms|
  {
    if ms == [] then [] else [Action(c, ms[0])] + Tag(c, ms[1..])
  }

  /** SendTo: only a registered configuration gets its messages queued. */
  function Post(w: World, c: Config, out: Out): World {
    var acts := if c in w.registered then Tag(c, out.posts) else [];
    w.(subs := w.subs[c := out.sub], queue := w.queue + acts, posted := w.posted + acts)
  }

  function Unregister(registered: seq<Config>, c: Config): seq<Config> {
    if registered == [] then []
    else if registered[0] == c then registered[1..]
    else [registered[0]] + Unregister(registered[1..], c)
  }

  function Step(w: World, e: Event): World {
    match e
    case Create(c, carrier, stored, isimAvailable) =>
      if c in w.subs then w
      else w.(subs := w.subs[c := Started(carrier, stored, isimAvailable)],
              registered := if c in w.registered then w.registered else w.registered + [c])
    case Destroy(c) => w.(registered := Unregister(w.registered, c))
    case On(c, call) =>
      if c in w.registered && c in w.subs then Post(w, c, Apply(w.subs[c], call)) else w
    case Dispatch =>
      if w.queue == [] then w
      else
        var a := w.queue[0];
        var popped := w.(queue := w.queue[1..]);
        if a.config in w.registered && a.config in w.subs then
          Post(popped.(fates := w.fates + [Handled(a)]), a.config, Handle(w.subs[a.config], a.msg))
        else
          popped.(fates := w.fates + [Dropped(a)])
  }

  function Run(es: seq<Event>): World {
    if es == [] then EMPTY else Step(Run(es[..|es| - 1]), es[|es| - 1])
  }

  // ---- every message once, in order ----------------------------------------------------------

  function Actions(fates: seq<Fate>): (r: seq<Action>)
    ensures |r| == |fates|
    ensures forall i :: 0 <= i < |r| ==> r[i] == fates[i].action
  {
    seq(|fates|, i requires 0 <= i < |fates| => fates[i].action)
  }

  predicate NoDuplicates(cs: seq<Config>) {
    cs == [] || (cs[0] !in cs[1..] && NoDuplicates(cs[1..]))
  }

  /** Every message ever posted has met its fate or is still waiting, in the order of posting; the
      registered configurations are distinct, existing ones. */
  predicate Consistent(w: World) {
    && w.posted == Actions(w.fates) + w.queue
    && NoDuplicates(w.registered)
    && (forall c :: c in w.registered ==> c in w.subs)
  }

  lemma {:induction false} UnregisterSpec(cs: seq<Config>, c: Config)
    requires NoDuplicates(cs)
    ensures NoDuplicates(Unregister(cs, c))
    ensures forall x :: x in Unregister(cs, c) <==> x in cs && x != c
  {
    if cs != [] {
      UnregisterSpec(cs[1..], c);
      assert cs[0] != c ==> Unregister(cs, c)[1..] == Unregister(cs[1..], c);
    }
  }

  lemma {:induction false} NoDuplicatesAppend(cs: seq<Config>, c: Config)
    requires NoDuplicates(cs) && c !in cs
    ensures NoDuplicates(cs + [c])
  {
    if cs != [] {
      assert (cs + [c])[1..] == cs[1..] + [c];
      NoDuplicatesAppend(cs[1..], c);
    }
  }

  lemma PostConsistent(w: World, c: Config, out: Out)
    requires Consistent(w) && c in w.registered
    ensures Consistent(Post(w, c, out))
  {
  }

  lemma DispatchConsistent(w: World)
    requires Consistent(w) && w.queue != []
    ensures Consistent(Step(w, Dispatch))
  {
    hide Handle;
    var a := w.queue[0];
    assert w.queue == [a] + w.queue[1..];
    if a.config in w.registered {
      var popped := w.(queue := w.queue[1..], fates := w.fates + [Handled(a)]);
      assert Actions(popped.fates) == Actions(w.fates) + [a];
      PostConsistent(popped, a.config, Handle(w.subs[a.config], a.msg));
    } else {
      assert Actions(w.fates + [Dropped(a)]) == Actions(w.fates) + [a];
    }
  }

  lemma StepConsistent(w: World, e: Event)
    requires Consistent(w)
    ensures Consistent(Step(w, e))
  {
    hide Apply, Handle, Started, Post;
    match e
    case Create(c, _, _, _) =>
      if c !in w.registered {
        NoDuplicatesAppend(w.registered, c);
      }
    case Destroy(c) => UnregisterSpec(w.registered, c);
    case On(c, call) =>
      if c in w.registered {
        PostConsistent(w, c, Apply(w.subs[c], call));
      }
    case Dispatch =>
      if w.queue != [] {
        DispatchConsistent(w);
      }
  }

  /** Over every run each posted message is handled once or dropped once, in posting order, or is
      still queued. */
  lemma {:induction false} MessagesConserved(es: seq<Event>)
    ensures Consistent(Run(es))
  {
    hide Step;
    if es != [] {
      MessagesConserved(es[..|es| - 1]);
      StepConsistent(Run(es[..|es| - 1]), es[|es| - 1]);
    }
  }

  /** A dispatched message is handled exactly when its configuration is registered at that moment;
      nobody else's configuration changes, and a dropped message changes none. */
  lemma DispatchFate(w: World)
    requires Consistent(w) && w.queue != []
    ensures var w' := Step(w, Dispatch);
            var a := w.queue[0];
            && w'.fates == w.fates + [if a.config in w.registered then Handled(a) else Dropped(a)]
            && w'.registered == w.registered
            && (a.config !in w.registered ==> w'.subs == w.subs && w'.queue == w.queue[1..])
            && (forall c :: c in w.subs && c != a.config ==> c in w'.subs && w'.subs[c] == w.subs[c])
  {
    hide Handle;
  }

  // ---- draining ------------------------------------------------------------------------------

  function TotalWeight(acts: seq<Action>): nat {
    if acts == [] then 0 else Weight(acts[0].msg) + TotalWeight(acts[1..])
  }

  lemma {:induction false} TotalWeightAppend(xs: seq<Action>, ys: seq<Action>)
    ensures TotalWeight(xs + ys) == TotalWeight(xs) + TotalWeight(ys)
  {
    if xs == [] {
      assert xs + ys == ys;
    } else {
      assert (xs + ys)[1..] == xs[1..] + ys;
      TotalWeightAppend(xs[1..], ys);
    }
  }

  lemma DispatchDecreases(w: World)
    requires w.queue != []
    ensures TotalWeight(Step(w, Dispatch).queue) < TotalWeight(w.queue)
  {
    hide Handle;
    var a := w.queue[0];
    if a.config in w.registered && a.config in w.subs {
      var out := Handle(w.subs[a.config], a.msg);
      HandlePostsLess(w.subs[a.config], a.msg);
      TotalWeightAppend(w.queue[1..], Tag(a.config, out.posts));
      if out.posts != [] {
        assert Tag(a.config, out.posts)[1..] == [];
      }
    }
  }

  function Dispatches(w: World, n: nat): World {
    if n == 0 then w else Step(Dispatches(w, n - 1), Dispatch)
  }

  lemma DispatchIdle(w: World)
    requires w.queue == []
    ensures Step(w, Dispatch) == w
  {
  }

  /** With no new events, delivery empties the shared queue from any state. */
  lemma {:induction false} DispatchingEmptiesQueue(w: World, n: nat)
    ensures n >= TotalWeight(w.queue) ==> Dispatches(w, n).queue == []
    ensures n < TotalWeight(w.queue) ==> TotalWeight(Dispatches(w, n).queue) <= TotalWeight(w.queue) - n
  {
    hide Step;
    if n > 0 {
      DispatchingEmptiesQueue(w, n - 1);
      var before := Dispatches(w, n - 1);
      if before.queue != [] {
        DispatchDecreases(before);
      } else {
        DispatchIdle(before);
      }
    }
    assert Dispatches(w, n).queue != [] ==> TotalWeight(Dispatches(w, n).queue) > 0;
  }

  // ---- each configuration sees a run of its own ----------------------------------------------

  function MsgsOf(acts: seq<Action>, c: Config): seq<Msg> {
    if acts == [] then []
    else MsgsOf(acts[..|acts| - 1], c) + if acts[|acts| - 1].config == c then [acts[|acts| - 1].msg] else []
  }

  lemma {:induction false} MsgsOfAppend(xs: seq<Action>, ys: seq<Action>, c: Config)
    ensures MsgsOf(xs + ys, c) == MsgsOf(xs, c) + MsgsOf(ys, c)
  {
    if ys == [] {
      assert xs + ys == xs;
    } else {
      assert (xs + ys)[..|xs + ys| - 1] == xs + ys[..|ys| - 1];
      MsgsOfAppend(xs, ys[..|ys| - 1], c);
    }
  }

  lemma {:induction false} MsgsOfTag(c: Config, ms: seq<Msg>, d: Config)
    ensures MsgsOf(Tag(c, ms), d) == if c == d then ms else []
  {
    if ms != [] {
      MsgsOfTag(c, ms[1..], d);
      MsgsOfAppend([Action(c, ms[0])], Tag(c, ms[1..]), d);
      assert [Action(c, ms[0])][..0] == [];
    }
  }

  lemma MsgsOfHead(acts: seq<Action>, c: Config)
    requires acts != []
    ensures MsgsOf(acts, c) == (if acts[0].config == c then [acts[0].msg] else []) + MsgsOf(acts[1..], c)
  {
    assert acts == [acts[0]] + acts[1..];
    MsgsOfAppend([acts[0]], acts[1..], c);
    assert [acts[0]][..0] == [];
  }

  /** One configuration with its share of the queue. */
  function Project(w: World, c: Config): SubscriberRuns.Local
    requires c in w.subs
  {
    SubscriberRuns.Local(w.subs[c], MsgsOf(w.queue, c), MsgsOf(Actions(w.fates), c), MsgsOf(w.posted, c))
  }

  /** The events of `es` that concern configuration `c`, as it sees them. */
  function Seen(es: seq<Event>, c: Config): seq<SubscriberRuns.Event> {
    if es == [] then []
    else
      var w := Run(es[..|es| - 1]);
      var before := Seen(es[..|es| - 1], c);
      if c !in w.registered then before
      else
        match es[|es| - 1]
        case On(d, call) => if c == d then before + [SubscriberRuns.Do(call)] else before
        case Dispatch => if w.queue != [] && w.queue[0].config == c then before + [SubscriberRuns.Deliver] else before
        case _ => before
  }

  /** What configuration `c` was created with. */
  function Origin(es: seq<Event>, c: Config): Option<Event> {
    if es == [] then None
    else
      match Origin(es[..|es| - 1], c)
      case Some(e) => Some(e)
      case None =>
        var e := es[|es| - 1];
        if e.Create? && e.config == c then Some(e) else None
  }

  predicate Seeded(e: Option<Event>, c: Config) {
    e.Some? && e.value.Create? && e.value.config == c
  }

  lemma PostProject(w: World, c: Config, out: Out, d: Config)
    requires c in w.registered && d in w.subs
    ensures var w' := Post(w, c, out);
            && d in w'.subs
            && Project(w', d)
               == if c == d
                  then SubscriberRuns.Local(out.sub, MsgsOf(w.queue, d) + out.posts, MsgsOf(Actions(w.fates), d),
                                            MsgsOf(w.posted, d) + out.posts)
                  else Project(w, d)
  {
    hide MsgsOf, Tag, Actions;
    var acts := Tag(c, out.posts);
    MsgsOfAppend(w.queue, acts, d);
    MsgsOfAppend(w.posted, acts, d);
    MsgsOfTag(c, out.posts, d);
    assert MsgsOf(w.queue, d) + [] == MsgsOf(w.queue, d);
    assert MsgsOf(w.posted, d) + [] == MsgsOf(w.posted, d);
  }

  lemma FateProject(fates: seq<Fate>, f: Fate, c: Config)
    ensures MsgsOf(Actions(fates + [f]), c)
            == MsgsOf(Actions(fates), c) + if f.action.config == c then [f.action.msg] else []
  {
    var acts := Actions(fates + [f]);
    assert acts[..|acts| - 1] == Actions(fates);
  }

  lemma OnProject(w: World, d: Config, call: Call, c: Config)
    requires Consistent(w) && c in w.registered
    ensures var w' := Step(w, On(d, call));
            && c in w'.subs
            && Project(w', c) == if c == d then SubscriberRuns.Step(Project(w, c), SubscriberRuns.Do(call))
                                 else Project(w, c)
  {
    hide Apply;
    if d in w.registered {
      PostProject(w, d, Apply(w.subs[d], call), c);
    }
  }

  lemma DispatchProject(w: World, c: Config)
    requires Consistent(w) && c in w.registered && w.queue != []
    ensures var w' := Step(w, Dispatch);
            && c in w'.subs
            && Project(w', c) == if w.queue[0].config == c
                                 then SubscriberRuns.Step(Project(w, c), SubscriberRuns.Deliver)
                                 else Project(w, c)
  {
    hide Handle, MsgsOf, Actions, Post;
    var a := w.queue[0];
    MsgsOfHead(w.queue, c);
    FateProject(w.fates, Handled(a), c);
    FateProject(w.fates, Dropped(a), c);
    if a.config in w.registered {
      var popped := w.(queue := w.queue[1..], fates := w.fates + [Handled(a)]);
      PostProject(popped, a.config, Handle(w.subs[a.config], a.msg), c);
    }
  }

  /** Nothing queued, handled or posted mentions configuration `c`. */
  predicate Unheard(w: World, c: Config) {
    MsgsOf(w.queue, c) == [] && MsgsOf(Actions(w.fates), c) == [] && MsgsOf(w.posted, c) == []
  }

  lemma PostUnheard(w: World, d: Config, out: Out, c: Config)
    requires Unheard(w, c) && c != d
    ensures Unheard(Post(w, d, out), c)
  {
    hide MsgsOf, Tag, Actions;
    MsgsOfAppend(w.queue, Tag(d, out.posts), c);
    MsgsOfAppend(w.posted, Tag(d, out.posts), c);
    MsgsOfTag(d, out.posts, c);
    assert w.queue + [] == w.queue && w.posted + [] == w.posted;
  }

  lemma StepUnheard(w: World, e: Event, c: Config)
    requires Consistent(w) && Unheard(w, c) && c !in w.subs
    ensures Unheard(Step(w, e), c)
  {
    hide Apply, Handle, Started, Post, MsgsOf, Actions;
    match e
    case On(d, call) =>
      if d in w.registered {
        PostUnheard(w, d, Apply(w.subs[d], call), c);
      }
    case Dispatch =>
      if w.queue != [] {
        var a := w.queue[0];
        MsgsOfHead(w.queue, c);
        FateProject(w.fates, Handled(a), c);
        FateProject(w.fates, Dropped(a), c);
        if a.config in w.registered {
          PostUnheard(w.(queue := w.queue[1..], fates := w.fates + [Handled(a)]), a.config,
                      Handle(w.subs[a.config], a.msg), c);
        }
      }
    case _ =>
  }

  lemma StepKeepsSubs(w: World, e: Event, c: Config)
    requires c in w.subs
    ensures c in Step(w, e).subs
  {
    hide Apply, Handle, Started;
  }

  lemma EmptyUnheard(c: Config)
    ensures Unheard(EMPTY, c)
  {
  }

  lemma CreateIntroduces(w: World, e: Event)
    requires e.Create?
    ensures e.config in Step(w, e).subs
  {
  }

  lemma {:induction false} FreshProject(es: seq<Event>, c: Config)
    requires c !in Run(es).subs
    ensures Seen(es, c) == [] && Origin(es, c) == None && Unheard(Run(es), c)
  {
    hide Step, Unheard;
    if es == [] {
      EmptyUnheard(c);
    } else {
      var front, e := es[..|es| - 1], es[|es| - 1];
      var w := Run(front);
      MessagesConserved(front);
      if c in w.subs {
        StepKeepsSubs(w, e, c);
      }
      if e.Create? {
        CreateIntroduces(w, e);
      }
      FreshProject(front, c);
      StepUnheard(w, e, c);
    }
  }

  /** The state in which the configuration created by `e` starts. */
  function Seed(e: Event): SubscriberRuns.Local
    requires e.Create?
  {
    SubscriberRuns.Start(e.carrier, e.stored, e.isimAvailable)
  }

  lemma CreatedProject(es: seq<Event>, c: Config)
    requires es != [] && es[|es| - 1].Create? && es[|es| - 1].config == c
    requires c !in Run(es[..|es| - 1]).subs
    ensures c in Run(es).subs && Origin(es, c) == Some(es[|es| - 1]) && Seen(es, c) == []
    ensures Project(Run(es), c) == Seed(es[|es| - 1])
  {
    hide Started;
    MessagesConserved(es[..|es| - 1]);
    FreshProject(es[..|es| - 1], c);
  }

  lemma OtherProject(w: World, e: Event, c: Config)
    requires Consistent(w) && c in w.registered && (e.Create? || e.Destroy?)
    ensures c in Step(w, e).subs && Project(Step(w, e), c) == Project(w, c)
  {
    hide Started;
  }

  lemma RegisteredBefore(w: World, e: Event, c: Config)
    requires Consistent(w) && c in Step(w, e).registered && c !in w.registered
    ensures e.Create? && e.config == c && c !in w.subs
  {
    hide Apply, Handle, Started;
    if e.Destroy? {
      UnregisterSpec(w.registered, e.config);
    }
  }

  lemma SeenStep(es: seq<Event>, c: Config)
    requires es != [] && c in Run(es[..|es| - 1]).registered
    ensures var w := Run(es[..|es| - 1]);
            var before := Seen(es[..|es| - 1], c);
            Seen(es, c) == match es[|es| - 1]
                           case On(d, call) => if c == d then before + [SubscriberRuns.Do(call)] else before
                           case Dispatch =>
                             if w.queue == [] || w.queue[0].config != c then before
                             else before + [SubscriberRuns.Deliver]
                           case _ => before
  {
    hide Step;
  }

  /** Configurations are isolated: whatever the others do, a live configuration and its share of the
      queue are where its own calls and its own deliveries, from its own start, have taken them. */
  lemma {:induction false} ConfigurationsAreIsolated(es: seq<Event>, c: Config)
    requires c in Run(es).registered
    ensures c in Run(es).subs && Seeded(Origin(es, c), c)
    ensures Project(Run(es), c) == SubscriberRuns.Run(Seed(Origin(es, c).value), Seen(es, c))
  {
    hide Step, Project, Seed, SubscriberRuns.Step;
    var front, e := es[..|es| - 1], es[|es| - 1];
    var w := Run(front);
    MessagesConserved(es);
    MessagesConserved(front);
    if c in w.registered {
      ConfigurationsAreIsolated(front, c);
      match e {
        case On(d, call) => OnProject(w, d, call, c);
        case Dispatch =>
          if w.queue != [] {
            DispatchProject(w, c);
          } else {
            DispatchIdle(w);
          }
        case _ => OtherProject(w, e, c);
      }
      SeenStep(es, c);
      var l, before := Seed(Origin(es, c).value), Seen(front, c);
      SubscriberRuns.RunAppend1(l, before, SubscriberRuns.Deliver);
      if e.On? {
        SubscriberRuns.RunAppend1(l, before, SubscriberRuns.Do(e.call));
      }
    } else {
      RegisteredBefore(w, e, c);
      CreatedProject(es, c);
    }
  }
}
