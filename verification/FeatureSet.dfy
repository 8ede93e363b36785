/** The feature set of Feature.cpp as a value: entries with reference counts under one tag. What a run of
    Add and Remove makes of it is compared with counting equal features, and it is shown on which features
    the two agree.
 */
module FeatureSetModel {
  import opened AStrings
  import opened Features

  datatype Entry = Entry(feature: Feature, refs: nat)
  datatype FSet = FSet(tag: AString, entries: seq<Entry>)
  datatype Code = OpFail | OpAdd | OpAddRef | OpRemove | OpRemoveRef

  /** Index of the first entry that the given feature matches, or -1; the entry is the left operand. */
  function Lookup(entries: seq<Entry>, f: Feature): (k: int)
    ensures -1 <= k < |entries|
    ensures k >= 0 ==> Equals(entries[k].feature, f)
    ensures forall i :: 0 <= i < (if k < 0 then |entries| else k) ==> !Equals(entries[i].feature, f)
  {
    if entries == [] then -1
    else if Equals(entries[0].feature, f) then 0
    else
      var k := Lookup(entries[1..], f);
      if k < 0 then -1 else k + 1
  }

  predicate Contains(s: FSet, f: Feature) {
    Lookup(s.entries, f) >= 0
  }

  function WithRefs(entries: seq<Entry>, k: nat, refs: nat): seq<Entry>
    requires k < |entries|
  {
    entries[k := entries[k].(refs := refs)]
  }

  function Add(s: FSet, f: Feature): (FSet, Code) {
    if !EqualIgnoreCase(s.tag, f.tag) then (s, OpFail)
    else
      var k := Lookup(s.entries, f);
      if k >= 0 then (s.(entries := WithRefs(s.entries, k, s.entries[k].refs + 1)), OpAddRef)
      else (s.(entries := s.entries + [Entry(f, 1)]), OpAdd)
  }

  function Remove(s: FSet, f: Feature): (FSet, Code) {
    if !EqualIgnoreCase(s.tag, f.tag) then (s, OpFail)
    else
      var k := Lookup(s.entries, f);
      if k < 0 then (s, OpFail)
      else if s.entries[k].refs > 1 then
        (s.(entries := WithRefs(s.entries, k, s.entries[k].refs - 1)), OpRemoveRef)
      else (s.(entries := s.entries[..k] + s.entries[k + 1..]), OpRemove)
  }

  lemma AddKeepsTag(s: FSet, f: Feature)
    ensures Add(s, f).0.tag == s.tag
  {
  }

  datatype Op = AddOp(feature: Feature) | RemoveOp(feature: Feature)

  function Step(s: FSet, op: Op): (FSet, Code) {
    match op
    case AddOp(f) => Add(s, f)
    case RemoveOp(f) => Remove(s, f)
  }

  /** The set after a run of operations on an empty one. */
  function Run(tag: AString, ops: seq<Op>): FSet {
    if ops == [] then FSet(tag, [])
    else Step(Run(tag, ops[..|ops| - 1]), ops[|ops| - 1]).0
  }

  // ---- what every run keeps --------------------------------------------------------------------

  /** Every entry is held at least once, and none matches a later one. */
  predicate EarlierNeverMatchesLater(entries: seq<Entry>) {
    && (forall i :: 0 <= i < |entries| ==> entries[i].refs >= 1)
    && (forall i, j :: 0 <= i < j < |entries| ==> !Equals(entries[i].feature, entries[j].feature))
  }

  lemma StepKeepsOrder(s: FSet, op: Op)
    requires EarlierNeverMatchesLater(s.entries)
    ensures EarlierNeverMatchesLater(Step(s, op).0.entries) && Step(s, op).0.tag == s.tag
  {
    hide Equals, EqualIgnoreCase;
    var k := Lookup(s.entries, op.feature);
    var after := Step(s, op).0.entries;
    if k >= 0 && op.RemoveOp? && |after| < |s.entries| {
      assert forall i :: 0 <= i < |after| ==> after[i] == s.entries[if i < k then i else i + 1];
    }
  }

  lemma NoneMatches()
    ensures EarlierNeverMatchesLater([])
  {
  }

  /** This needs no condition on the features. */
  lemma {:induction false} RunKeepsOrder(tag: AString, ops: seq<Op>)
    ensures EarlierNeverMatchesLater(Run(tag, ops).entries) && Run(tag, ops).tag == tag
  {
    hide Equals, Step, EarlierNeverMatchesLater;
    if ops == [] {
      NoneMatches();
    } else {
      RunKeepsOrder(tag, ops[..|ops| - 1]);
      StepKeepsOrder(Run(tag, ops[..|ops| - 1]), ops[|ops| - 1]);
    }
  }

  // ---- the multiset a run stands for ---------------------------------------------------------

  /** How often a feature is in the set after a run, by comparing alone: one more for each add of an equal
      feature, one less for each remove, but never below zero. Features of another tag are ignored. */
  function Count(tag: AString, ops: seq<Op>, f: Feature): nat {
    if ops == [] then 0
    else
      var before := Count(tag, ops[..|ops| - 1], f);
      var op := ops[|ops| - 1];
      if !EqualIgnoreCase(tag, op.feature.tag) || !Equals(op.feature, f) then before
      else if op.AddOp? then before + 1
      else if before > 0 then before - 1
      else 0
  }

  /** The reference count under which a feature is found. */
  function Refs(entries: seq<Entry>, f: Feature): nat {
    if Lookup(entries, f) < 0 then 0 else entries[Lookup(entries, f)].refs
  }

  /** The code an operation has to give when its feature occurs `count` times. */
  function CodeFor(op: Op, count: nat, sameTag: bool): Code {
    if !sameTag then OpFail
    else if op.AddOp? then if count == 0 then OpAdd else OpAddRef
    else if count == 0 then OpFail
    else if count == 1 then OpRemove
    else OpRemoveRef
  }

  predicate PairwiseUnequal(entries: seq<Entry>) {
    forall i, j :: 0 <= i < |entries| && 0 <= j < |entries| && i != j ==>
      !Equals(entries[i].feature, entries[j].feature)
  }

  ghost predicate OpsOver(ops: seq<Op>, fs: iset<Feature>) {
    forall i :: 0 <= i < |ops| ==> ops[i].feature in fs
  }

  /** The features that a set with this tag takes. */
  ghost function Taken(tag: AString, fs: iset<Feature>): iset<Feature> {
    iset f | f in fs && EqualIgnoreCase(tag, f.tag)
  }

  /** After the run the set is a multiset of these features: no two entries are equal, in either order,
      and every feature is found with its count. */
  ghost predicate IsMultiset(tag: AString, ops: seq<Op>, fs: iset<Feature>) {
    && PairwiseUnequal(Run(tag, ops).entries)
    && forall f :: f in Taken(tag, fs) ==> Refs(Run(tag, ops).entries, f) == Count(tag, ops, f)
  }

  // ---- where comparing is an equivalence ---------------------------------------------------------

  ghost predicate EntriesOver(entries: seq<Entry>, fs: iset<Feature>) {
    && (forall i :: 0 <= i < |entries| ==> entries[i].feature in fs && entries[i].refs >= 1)
    && PairwiseUnequal(entries)
  }

  /** A matching entry is the one that is found. */
  lemma FoundAt(entries: seq<Entry>, f: Feature, k: nat, fs: iset<Feature>)
    requires IsEquivalence(fs) && EntriesOver(entries, fs) && f in fs
    requires k < |entries| && Equals(entries[k].feature, f)
    ensures Lookup(entries, f) == k
  {
    hide Equals, Lookup;
    var i := Lookup(entries, f);
    assert Equals(entries[i].feature, f) && Equals(f, entries[k].feature);
  }

  lemma AppendRefs(entries: seq<Entry>, g: Feature, f: Feature, fs: iset<Feature>)
    requires IsEquivalence(fs) && EntriesOver(entries, fs) && f in fs && g in fs && Lookup(entries, g) < 0
    ensures EntriesOver(entries + [Entry(g, 1)], fs)
    ensures Refs(entries + [Entry(g, 1)], f) == Refs(entries, f) + if Equals(g, f) then 1 else 0
  {
    hide Equals, Lookup;
    var after := entries + [Entry(g, 1)];
    assert after[|entries|].feature == g && forall i :: 0 <= i < |entries| ==> after[i] == entries[i];
    assert EntriesOver(after, fs);
    var i := Lookup(entries, f);
    if i >= 0 {
      FoundAt(after, f, i, fs);
    } else if Equals(g, f) {
      FoundAt(after, f, |entries|, fs);
    }
  }

  /** What the found entry of `g` matches is what `g` equals. */
  lemma MatchesTogether(entries: seq<Entry>, g: Feature, f: Feature, fs: iset<Feature>)
    requires IsEquivalence(fs) && EntriesOver(entries, fs) && f in fs && g in fs && Lookup(entries, g) >= 0
    ensures Equals(g, f) <==> Equals(entries[Lookup(entries, g)].feature, f)
    ensures Equals(g, f) <==> Lookup(entries, f) == Lookup(entries, g)
  {
    hide Equals, Lookup;
    var e := entries[Lookup(entries, g)].feature;
    assert Equals(e, g) && Equals(g, e);
    if Equals(e, f) {
      FoundAt(entries, f, Lookup(entries, g), fs);
    }
  }

  lemma UpdateRefs(entries: seq<Entry>, g: Feature, refs: nat, f: Feature, fs: iset<Feature>)
    requires IsEquivalence(fs) && EntriesOver(entries, fs) && f in fs && g in fs
    requires Lookup(entries, g) >= 0 && refs >= 1
    ensures var after := WithRefs(entries, Lookup(entries, g), refs);
            EntriesOver(after, fs) && Refs(after, f) == if Equals(g, f) then refs else Refs(entries, f)
    ensures Equals(g, f) ==> Refs(entries, f) == Refs(entries, g)
  {
    hide Equals, Lookup;
    var k := Lookup(entries, g);
    var after := WithRefs(entries, k, refs);
    assert forall i :: 0 <= i < |entries| ==> after[i].feature == entries[i].feature;
    assert EntriesOver(after, fs);
    MatchesTogether(entries, g, f, fs);
    var i := Lookup(entries, f);
    if i >= 0 {
      FoundAt(after, f, i, fs);
    }
  }

  lemma WithoutOne(entries: seq<Entry>, k: nat, fs: iset<Feature>)
    requires EntriesOver(entries, fs) && k < |entries|
    ensures EntriesOver(entries[..k] + entries[k + 1..], fs)
  {
    hide Equals;
    var after := entries[..k] + entries[k + 1..];
    assert forall i :: 0 <= i < |after| ==> after[i] == entries[if i < k then i else i + 1];
  }

  lemma RemoveRefs(entries: seq<Entry>, g: Feature, f: Feature, fs: iset<Feature>)
    requires IsEquivalence(fs) && EntriesOver(entries, fs) && f in fs && g in fs && Lookup(entries, g) >= 0
    ensures var k := Lookup(entries, g);
            var after := entries[..k] + entries[k + 1..];
            EntriesOver(after, fs) && Refs(after, f) == if Equals(g, f) then 0 else Refs(entries, f)
    ensures Equals(g, f) ==> Refs(entries, f) == Refs(entries, g)
  {
    hide Equals, Lookup;
    var k := Lookup(entries, g);
    var after := entries[..k] + entries[k + 1..];
    MatchesTogether(entries, g, f, fs);
    WithoutOne(entries, k, fs);
    var i, j := Lookup(entries, f), Lookup(after, f);
    if i >= 0 && i != k {
      assert after[if i < k then i else i - 1] == entries[i];
      FoundAt(after, f, if i < k then i else i - 1, fs);
    } else if j >= 0 {
      assert after[j] == entries[if j < k then j else j + 1];
      FoundAt(entries, f, if j < k then j else j + 1, fs);
    }
  }

  lemma PositiveRefs(entries: seq<Entry>, fs: iset<Feature>)
    requires EntriesOver(entries, fs)
    ensures forall i :: 0 <= i < |entries| ==> entries[i].refs >= 1
  {
  }

  /** If nothing matches a feature, nothing matches what it equals. */
  lemma NoneEqual(entries: seq<Entry>, g: Feature, f: Feature, fs: iset<Feature>)
    requires IsEquivalence(fs) && EntriesOver(entries, fs) && f in fs && g in fs && Lookup(entries, g) < 0
    ensures Equals(g, f) ==> Refs(entries, f) == 0
  {
    hide Equals, Lookup;
    var i := Lookup(entries, f);
    assert Equals(g, f) ==> Equals(f, g);
  }

  /** One operation changes the counts of what its feature equals, and its code says what happened. */
  lemma StepIsMultiset(s: FSet, op: Op, f: Feature, fs: iset<Feature>)
    requires IsEquivalence(fs) && EntriesOver(s.entries, fs) && f in fs && op.feature in fs
    requires EqualIgnoreCase(s.tag, op.feature.tag)
    ensures
      var (after, code) := Step(s, op);
      var before := Refs(s.entries, f);
      && EntriesOver(after.entries, fs)
      && code == CodeFor(op, Refs(s.entries, op.feature), true)
      && Refs(after.entries, f) ==
           if !Equals(op.feature, f) then before
           else if op.AddOp? then before + 1
           else if before > 0 then before - 1
           else 0
  {
    hide Equals, EqualIgnoreCase, Lookup, IsEquivalence, EntriesOver;
    var g := op.feature;
    var k := Lookup(s.entries, g);
    PositiveRefs(s.entries, fs);
    if k < 0 {
      if op.AddOp? {
        AppendRefs(s.entries, g, f, fs);
      } else {
        NoneEqual(s.entries, g, f, fs);
      }
    } else if op.AddOp? {
      UpdateRefs(s.entries, g, s.entries[k].refs + 1, f, fs);
    } else if s.entries[k].refs > 1 {
      UpdateRefs(s.entries, g, s.entries[k].refs - 1, f, fs);
    } else {
      RemoveRefs(s.entries, g, f, fs);
    }
  }

  lemma NothingYet(fs: iset<Feature>)
    ensures EntriesOver([], fs) && forall f :: Refs([], f) == 0
  {
  }

  lemma {:induction false} RunOverEquivalence(tag: AString, ops: seq<Op>, fs: iset<Feature>)
    requires OpsOver(ops, fs) && IsEquivalence(Taken(tag, fs))
    ensures Run(tag, ops).tag == tag && EntriesOver(Run(tag, ops).entries, Taken(tag, fs))
    ensures forall f :: f in Taken(tag, fs) ==> Refs(Run(tag, ops).entries, f) == Count(tag, ops, f)
  {
    hide Equals, EqualIgnoreCase, IsEquivalence, EntriesOver, Refs;
    if ops == [] {
      NothingYet(Taken(tag, fs));
    } else {
      var before, op := ops[..|ops| - 1], ops[|ops| - 1];
      RunOverEquivalence(tag, before, fs);
      RunKeepsOrder(tag, ops);
      if EqualIgnoreCase(tag, op.feature.tag) {
        forall f | f in Taken(tag, fs)
          ensures Refs(Run(tag, ops).entries, f) == Count(tag, ops, f)
        {
          StepIsMultiset(Run(tag, before), op, f, Taken(tag, fs));
        }
        StepIsMultiset(Run(tag, before), op, op.feature, Taken(tag, fs));
      }
    }
  }

  // ---- where it is not ----------------------------------------------------------------------------

  lemma AddTwo(tag: AString, f: Feature, g: Feature)
    requires EqualIgnoreCase(tag, f.tag) && EqualIgnoreCase(tag, g.tag)
    ensures Run(tag, [AddOp(f), AddOp(g)]).entries ==
            if Equals(f, g) then [Entry(f, 2)] else [Entry(f, 1), Entry(g, 1)]
  {
    hide Equals, EqualIgnoreCase;
    var ops := [AddOp(f), AddOp(g)];
    assert ops[..1] == [AddOp(f)] && ops[..1][..0] == [];
    assert Run(tag, []) == FSet(tag, []);
    assert Run(tag, [AddOp(f)]) == FSet(tag, [Entry(f, 1)]);
  }

  lemma CountTwo(tag: AString, f: Feature, g: Feature, of: Feature)
    requires EqualIgnoreCase(tag, f.tag) && EqualIgnoreCase(tag, g.tag)
    ensures Count(tag, [AddOp(f), AddOp(g)], of) ==
            (if Equals(f, of) then 1 else 0) + (if Equals(g, of) then 1 else 0)
  {
    hide Equals, EqualIgnoreCase;
    var ops := [AddOp(f), AddOp(g)];
    assert ops[..1] == [AddOp(f)] && ops[..1][..0] == [];
    assert Count(tag, [], of) == 0;
    assert Count(tag, [AddOp(f)], of) == if Equals(f, of) then 1 else 0;
  }

  /** A feature added and a later one that matches it the other way round make two equal entries. */
  lemma OneWayMiscounts(tag: AString, a: Feature, b: Feature, fs: iset<Feature>)
    requires EqualIgnoreCase(tag, a.tag) && EqualIgnoreCase(tag, b.tag)
    requires Equals(b, a) && !Equals(a, b)
    ensures !IsMultiset(tag, [AddOp(a), AddOp(b)], fs)
  {
    hide Equals, EqualIgnoreCase, Run, Count;
    AddTwo(tag, a, b);
    var entries := Run(tag, [AddOp(a), AddOp(b)]).entries;
    assert entries[0].feature == a && entries[1].feature == b;
  }

  /** A feature between two that do not equal each other is counted for both but found with one. */
  lemma ChainMiscounts(tag: AString, a: Feature, b: Feature, c: Feature, fs: iset<Feature>)
    requires a in Taken(tag, fs) && b in Taken(tag, fs) && c in Taken(tag, fs)
    requires Equals(a, b) && Equals(c, b) && !Equals(a, c)
    ensures !IsMultiset(tag, [AddOp(a), AddOp(c)], fs)
  {
    hide Equals, EqualIgnoreCase, Run, Count;
    AddTwo(tag, a, c);
    CountTwo(tag, a, c, b);
    var entries := Run(tag, [AddOp(a), AddOp(c)]).entries;
    assert entries[0] == Entry(a, 1);
  }

  lemma ClashMiscounts(tag: AString, fs: iset<Feature>)
    requires AllParsed(fs) && Clashes(Taken(tag, fs))
    ensures exists ops :: OpsOver(ops, fs) && !IsMultiset(tag, ops, fs)
  {
    hide Equals, EqualIgnoreCase, Parsed, OrderMatters, MeetAtAbsent, IsMultiset;
    var taken := Taken(tag, fs);
    if a, b :| a in taken && b in taken && OrderMatters(a, b) {
      OrderMattersIff(a, b);
      var ops := if Equals(b, a) then [AddOp(a), AddOp(b)] else [AddOp(b), AddOp(a)];
      if Equals(b, a) {
        OneWayMiscounts(tag, a, b, fs);
      } else {
        OneWayMiscounts(tag, b, a, fs);
      }
      assert OpsOver(ops, fs) && !IsMultiset(tag, ops, fs);
    } else {
      var a, b, c :| a in taken && b in taken && c in taken && MeetAtAbsent(a, b, c);
      MeetAtAbsentBreaks(a, b, c);
      ChainMiscounts(tag, a, b, c, fs);
      assert OpsOver([AddOp(a), AddOp(c)], fs);
    }
  }

  lemma OverIsUnequal(entries: seq<Entry>, fs: iset<Feature>)
    requires EntriesOver(entries, fs)
    ensures PairwiseUnequal(entries)
  {
  }

  /** A feature set is a multiset: every run over a set of parsed features counts them right if and only if
      no two features of its tag clash by order and no three around an absent boolean. */
  lemma RunsAreMultisetsIff(tag: AString, fs: iset<Feature>)
    requires AllParsed(fs)
    ensures (forall ops :: OpsOver(ops, fs) ==> IsMultiset(tag, ops, fs)) <==> !Clashes(Taken(tag, fs))
  {
    hide Equals, EqualIgnoreCase, Parsed, Clashes, IsEquivalence, EntriesOver, Run, Refs, Count;
    EquivalenceIff(Taken(tag, fs));
    if !Clashes(Taken(tag, fs)) {
      forall ops | OpsOver(ops, fs) ensures IsMultiset(tag, ops, fs) {
        RunOverEquivalence(tag, ops, fs);
        OverIsUnequal(Run(tag, ops).entries, Taken(tag, fs));
      }
    } else {
      ClashMiscounts(tag, fs);
    }
  }

  /** Of two features the order of adding shows in the number of entries exactly if they clash. */
  lemma OrderOfAddsMattersIff(tag: AString, f: Feature, g: Feature)
    requires Parsed(f) && Parsed(g) && EqualIgnoreCase(tag, f.tag) && EqualIgnoreCase(tag, g.tag)
    ensures |Run(tag, [AddOp(f), AddOp(g)]).entries| != |Run(tag, [AddOp(g), AddOp(f)]).entries| <==>
            OrderMatters(f, g)
  {
    hide Equals, EqualIgnoreCase, Parsed, OrderMatters, Run;
    AddTwo(tag, f, g);
    AddTwo(tag, g, f);
    OrderMattersIff(f, g);
  }

  /** With a raw IARI value the same two features make one entry or two, depending on their order. */
  lemma RawValueBreaksCounting()
    ensures |Run(RAW.tag, [AddOp(RAW), AddOp(CODED)]).entries| == 2
    ensures |Run(RAW.tag, [AddOp(CODED), AddOp(RAW)]).entries| == 1
  {
    hide Equals, Parsed, EqualIgnoreCase, Run;
    RawValueBreaksSymmetry();
    EqualToItself(RAW.tag);
    AddTwo(RAW.tag, RAW, CODED);
    AddTwo(RAW.tag, CODED, RAW);
  }

  // ---- what callers see -------------------------------------------------------------------------

  lemma OtherTagUnequal(tag: AString, f: Feature, g: Feature)
    requires EqualIgnoreCase(tag, g.tag) && !EqualIgnoreCase(tag, f.tag)
    ensures !Equals(g, f)
  {
    hide CStr, MakeLower;
  }

  lemma {:induction false} OtherTagNeverCounts(tag: AString, ops: seq<Op>, f: Feature)
    requires !EqualIgnoreCase(tag, f.tag)
    ensures Count(tag, ops, f) == 0
  {
    hide Equals, EqualIgnoreCase;
    if ops != [] {
      OtherTagNeverCounts(tag, ops[..|ops| - 1], f);
      var g := ops[|ops| - 1].feature;
      if EqualIgnoreCase(tag, g.tag) {
        OtherTagUnequal(tag, f, g);
      }
    }
  }

  lemma OtherTagNeverFound(s: FSet, f: Feature, fs: iset<Feature>)
    requires EntriesOver(s.entries, Taken(s.tag, fs)) && !EqualIgnoreCase(s.tag, f.tag)
    ensures Lookup(s.entries, f) < 0
  {
    hide Equals, EqualIgnoreCase, Lookup;
    var k := Lookup(s.entries, f);
    if k >= 0 {
      OtherTagUnequal(s.tag, f, s.entries[k].feature);
    }
  }

  /** After any run over features that do not clash: Contains says whether the count is positive, and the
      next operation answers by the count alone. */
  lemma AnswersFollowTheCount(tag: AString, ops: seq<Op>, next: Op, fs: iset<Feature>)
    requires AllParsed(fs) && !Clashes(Taken(tag, fs)) && OpsOver(ops, fs) && next.feature in fs
    ensures
      var s, count := Run(tag, ops), Count(tag, ops, next.feature);
      && (Contains(s, next.feature) <==> count > 0)
      && Step(s, next).1 == CodeFor(next, count, EqualIgnoreCase(tag, next.feature.tag))
  {
    hide Equals, EqualIgnoreCase, Parsed, Clashes, IsEquivalence, EntriesOver, Run, Count, Lookup;
    EquivalenceIff(Taken(tag, fs));
    RunOverEquivalence(tag, ops, fs);
    var s := Run(tag, ops);
    PositiveRefs(s.entries, Taken(tag, fs));
    if EqualIgnoreCase(tag, next.feature.tag) {
      StepIsMultiset(s, next, next.feature, Taken(tag, fs));
    } else {
      OtherTagNeverCounts(tag, ops, next.feature);
      OtherTagNeverFound(s, next.feature, fs);
    }
  }

  lemma LookupFirst(entries: seq<Entry>, f: Feature, k: nat)
    requires k < |entries| && Equals(entries[k].feature, f)
    requires forall i :: 0 <= i < k ==> !Equals(entries[i].feature, f)
    ensures Lookup(entries, f) == k
  {
  }

  /** Removing what was just added restores the whole set, order included, whatever the features are. */
  lemma RemoveUndoesAdd(s: FSet, f: Feature)
    requires forall i :: 0 <= i < |s.entries| ==> s.entries[i].refs >= 1
    ensures Remove(Add(s, f).0, f).0 == s
  {
    hide EqualIgnoreCase, Equals, Lookup;
    EqualsItself(f);
    var k := Lookup(s.entries, f);
    var after := Add(s, f).0.entries;
    if EqualIgnoreCase(s.tag, f.tag) {
      if k >= 0 {
        LookupFirst(after, f, k);
        assert WithRefs(after, k, s.entries[k].refs) == s.entries;
      } else {
        LookupFirst(after, f, |s.entries|);
        assert after[..|s.entries|] + after[|s.entries| + 1..] == s.entries;
      }
    }
  }
}
