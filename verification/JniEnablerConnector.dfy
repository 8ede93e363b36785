/** The table that brings native enablers and their JNI counterparts together. Follows
    JniEnablerConnector.cpp. Enablers are known by identity; a call to one is returned to the caller of
    the operation.
 */
module JniConnector {
  import opened AStrings
  import opened SortedMaps

  type Id = int
  datatype EnablerType = AosService | MtcService | MtcCall | Mts | MediaSession | Uce
  type Target = (int, EnablerType)
  datatype Call = NotifyJniEnablerSet(native: Id) | NotifyNativeEnablerSet(jni: Id)

  // ---- the table as a map ---------------------------------------------------------------------

  datatype Entry = Entry(native: Option<Id>, jnis: map<int, Id>) {
    predicate Empty() {
      native == None && jnis == map[]
    }
  }

  type Table = map<Target, Entry>

  function EntryAt(t: Table, at: Target): Entry {
    if at in t then t[at] else Entry(None, map[])
  }

  function Put(t: Table, at: Target, e: Entry): Table {
    if e.Empty() then t - {at} else t[at := e]
  }

  /** Only what is put last counts. */
  lemma PutLast(t: Table, at: Target, first: Entry, e: Entry)
    ensures Put(t[at := first][at := e], at, e) == Put(t, at, e)
  {
  }

  function SetNative(t: Table, at: Target, native: Option<Id>): Table {
    Put(t, at, EntryAt(t, at).(native := native))
  }

  function SetJni(t: Table, at: Target, key: int, jni: Option<Id>): Table {
    var e := EntryAt(t, at);
    Put(t, at, e.(jnis := if jni == None then e.jnis - {key} else e.jnis[key := jni.value]))
  }

  function GetNative(t: Table, at: Target): Option<Id> {
    EntryAt(t, at).native
  }

  function GetJni(t: Table, at: Target, key: int): Option<Id> {
    if key in EntryAt(t, at).jnis then Some(EntryAt(t, at).jnis[key]) else None
  }

  // ---- every run: the last value set is the one found -----------------------------------------

  datatype Op = OpNative(at: Target, native: Option<Id>) | OpJni(at: Target, key: int, jni: Option<Id>)

  function Step(t: Table, op: Op): Table {
    match op
    case OpNative(at, n) => SetNative(t, at, n)
    case OpJni(at, key, j) => SetJni(t, at, key, j)
  }

  function Run(ops: seq<Op>): Table {
    if ops == [] then map[] else Step(Run(ops[..|ops| - 1]), ops[|ops| - 1])
  }

  /** The native enabler set last for a target. */
  function LastNative(ops: seq<Op>, at: Target): Option<Id> {
    if ops == [] then None
    else
      var op := ops[|ops| - 1];
      if op.OpNative? && op.at == at then op.native else LastNative(ops[..|ops| - 1], at)
  }

  /** The JNI enabler set last for a target and key. */
  function LastJni(ops: seq<Op>, at: Target, key: int): Option<Id> {
    if ops == [] then None
    else
      var op := ops[|ops| - 1];
      if op.OpJni? && op.at == at && op.key == key then op.jni else LastJni(ops[..|ops| - 1], at, key)
  }

  /** After any run lookups give the values set last, for every target and key, and a target has an entry
      exactly if something is set for it. */
  lemma {:induction false} LookupsAreLastWrites(ops: seq<Op>)
    ensures forall at :: GetNative(Run(ops), at) == LastNative(ops, at)
    ensures forall at, key :: GetJni(Run(ops), at, key) == LastJni(ops, at, key)
    ensures forall at :: at in Run(ops) ==> !Run(ops)[at].Empty()
  {
    if ops != [] {
      LookupsAreLastWrites(ops[..|ops| - 1]);
    }
  }

  // ---- the connections ------------------------------------------------------------------------

  function CallsFor(jnis: Pairs<int, Id>): (calls: seq<Call>)
    ensures |calls| == |jnis|
    ensures forall i :: 0 <= i < |jnis| ==> calls[i] == NotifyNativeEnablerSet(jnis[i].1)
  {
    seq(|jnis|, i requires 0 <= i < |jnis| => NotifyNativeEnablerSet(jnis[i].1))
  }

  class JniConnection {
    const slotId: int
    const enablerType: EnablerType
    var native: Option<Id>
    var jnis: Pairs<int, Id>

    constructor (slotId: int, enablerType: EnablerType)
      ensures this.slotId == slotId && this.enablerType == enablerType && native == None && jnis == []
    {
      this.slotId := slotId;
      this.enablerType := enablerType;
      native := None;
      jnis := [];
    }

    ghost function At(): Target {
      (slotId, enablerType)
    }

    ghost function View(): Entry
      reads this
    {
      Entry(native, ToMap(jnis))
    }

    /** A null JNI enabler removes the key; the native enabler is told in any case. */
    method SetJniEnabler(key: int, jni: Option<Id>) returns (calls: seq<Call>)
      requires Sorted(jnis)
      modifies this`jnis
      ensures Sorted(jnis)
      ensures ToMap(jnis) ==
              if jni == None then old(ToMap(jnis)) - {key} else old(ToMap(jnis))[key := jni.value]
      ensures calls == if native == None then [] else [NotifyJniEnablerSet(native.value)]
    {
      hide ToMap;
      SortedIsDistinct(jnis);
      var index := IndexOfKey(jnis, key);
      ToMapHas(jnis, key);
      if index < 0 {
        if jni.Some? {
          AddRefines(jnis, key, jni.value);
          jnis := SortedMaps.Add(jnis, key, jni.value);
        }
      } else if jni == None {
        RemoveRefines(jnis, index);
        RemoveSorted(jnis, index);
        jnis := RemoveAt(jnis, index);
      } else {
        SetRefines(jnis, index, jni.value);
        jnis := jnis[index := (jnis[index].0, jni.value)];
      }
      calls := if native == None then [] else [NotifyJniEnablerSet(native.value)];
    }

    method GetJniEnabler(key: int) returns (jni: Option<Id>)
      requires Sorted(jnis)
      ensures jni == if key in ToMap(jnis) then Some(ToMap(jnis)[key]) else None
    {
      SortedIsDistinct(jnis);
      var index := IndexOfKey(jnis, key);
      ToMapHas(jnis, key);
      jni := if index >= 0 then Some(jnis[index].1) else None;
    }

    /** Every JNI enabler is told once per key, in the order of the keys. */
    method SetNativeEnabler(native: Option<Id>) returns (calls: seq<Call>)
      modifies this`native
      ensures this.native == native
      ensures calls == CallsFor(jnis)
    {
      this.native := native;
      calls := [];
      var i := 0;
      while i < |jnis|
        invariant 0 <= i <= |jnis|
        invariant calls == CallsFor(jnis)[..i]
      {
        calls := calls + [NotifyNativeEnablerSet(jnis[i].1)];
        i := i + 1;
      }
    }

    predicate IsEmpty()
      reads this
    {
      native == None && |jnis| == 0
    }
  }

  /** The keys under which a JNI enabler is registered. */
  function KeysOf(jnis: map<int, Id>, jni: Id): set<int> {
    set key | key in jnis && jnis[key] == jni
  }

  /** Every JNI enabler is told once for each of its keys, and nobody else is told anything. */
  ghost predicate TellsEachOnce(calls: seq<Call>, jnis: map<int, Id>) {
    && (forall c :: c in calls ==> c.NotifyNativeEnablerSet?)
    && (forall jni :: multiset(calls)[NotifyNativeEnablerSet(jni)] == |KeysOf(jnis, jni)|)
  }

  /** One more pair with a new key is one more key for its JNI enabler. */
  lemma KeysGrow(m: map<int, Id>, key: int, value: Id, jni: Id)
    requires key !in m
    ensures |KeysOf(m[key := value], jni)| == |KeysOf(m, jni)| + if value == jni then 1 else 0
  {
    var after := KeysOf(m[key := value], jni);
    assert after == KeysOf(m, jni) + if value == jni then {key} else {};
    assert key !in KeysOf(m, jni);
  }

  lemma CallsGrow(init: Pairs<int, Id>, last: (int, Id), jni: Id)
    ensures CallsFor(init + [last]) == CallsFor(init) + [NotifyNativeEnablerSet(last.1)]
  {
  }

  lemma NothingCalled(jni: Id)
    ensures CallsFor([]) == [] && KeysOf(ToMap<int, Id>([]), jni) == {}
  {
  }

  lemma {:induction false} TimesCalled(jnis: Pairs<int, Id>, jni: Id)
    requires Distinct(jnis)
    ensures multiset(CallsFor(jnis))[NotifyNativeEnablerSet(jni)] == |KeysOf(ToMap(jnis), jni)|
  {
    hide IndexOfKey, CallsFor, KeysOf;
    if jnis == [] {
      NothingCalled(jni);
    } else {
      var init, last := jnis[..|jnis| - 1], jnis[|jnis| - 1];
      assert forall i :: 0 <= i < |init| ==> init[i] == jnis[i];
      assert jnis == init + [last];
      TimesCalled(init, jni);
      ToMapHas(init, last.0);
      CallsGrow(init, last, jni);
      KeysGrow(ToMap(init), last.0, last.1, jni);
    }
  }

  lemma CallsMatchMap(jnis: Pairs<int, Id>)
    requires Sorted(jnis)
    ensures TellsEachOnce(CallsFor(jnis), ToMap(jnis))
  {
    hide ToMap;
    SortedIsDistinct(jnis);
    forall jni
      ensures multiset(CallsFor(jnis))[NotifyNativeEnablerSet(jni)] == |KeysOf(ToMap(jnis), jni)|
    {
      TimesCalled(jnis, jni);
    }
  }

  // ---- the connector --------------------------------------------------------------------------

  class JniEnablerConnector {
    var connections: seq<JniConnection>

    constructor ()
      ensures Valid() && View() == map[]
    {
      connections := [];
    }

    static ghost function Rows(c: seq<JniConnection>): Pairs<Target, Entry>
      reads c
    {
      seq(|c|, i requires 0 <= i < |c| reads c => (c[i].At(), c[i].View()))
    }

    static lemma RowsAt(c: seq<JniConnection>)
      ensures |Rows(c)| == |c|
      ensures forall i :: 0 <= i < |c| ==> Rows(c)[i] == (c[i].At(), c[i].View())
    {
    }

    static predicate Separate(c: seq<JniConnection>) {
      forall i, j :: 0 <= i < j < |c| ==> c[i] != c[j]
    }

    static predicate AllSorted(c: seq<JniConnection>)
      reads c
    {
      forall i :: 0 <= i < |c| ==> Sorted(c[i].jnis)
    }

    /** No row is empty, except perhaps the given one. */
    static ghost predicate NoneEmpty(rows: Pairs<Target, Entry>, but: int) {
      forall i :: 0 <= i < |rows| && i != but ==> !rows[i].1.Empty()
    }

    /** One connection per target, and none empty. */
    ghost predicate Valid()
      reads this, connections
    {
      && Separate(connections) && AllSorted(connections)
      && Distinct(Rows(connections)) && NoneEmpty(Rows(connections), -1)
    }

    /** The table as a map. */
    ghost function View(): Table
      reads this, connections
    {
      ToMap(Rows(connections))
    }

    /** Index of the connection for a target, or -1. */
    method GetConnection(slotId: int, enablerType: EnablerType) returns (k: int)
      ensures k == IndexOfKey(Rows(connections), (slotId, enablerType)) < |connections|
    {
      hide IndexOfKey, Rows;
      RowsAt(connections);
      ghost var found := IndexOfKey(Rows(connections), (slotId, enablerType));
      var i := 0;
      while i < |connections|
        invariant 0 <= i <= if found < 0 then |connections| else found
      {
        var p := connections[i];
        assert Rows(connections)[i].0 == (p.slotId, p.enablerType);
        if p.slotId == slotId && p.enablerType == enablerType {
          return i;
        }
        i := i + 1;
      }
      k := -1;
    }

    /** The index of the connection, which may be new and then is still empty. */
    method CreateConnectionIfNotExist(slotId: int, enablerType: EnablerType) returns (k: nat)
      requires Valid()
      modifies this
      ensures k < |connections|
      ensures Separate(connections) && AllSorted(connections)
      ensures forall i :: 0 <= i < |connections| ==> connections[i] in old(connections) || fresh(connections[i])
      ensures Distinct(Rows(connections)) && NoneEmpty(Rows(connections), k)
      ensures IndexOfKey(Rows(connections), (slotId, enablerType)) == k
      ensures connections[k].View() == EntryAt(old(View()), (slotId, enablerType))
      ensures View() == old(View())[(slotId, enablerType) := connections[k].View()]
    {
      hide IndexOfKey, Rows, ToMap;
      var found := GetConnection(slotId, enablerType);
      ghost var rows := Rows(connections);
      RowsAt(connections);
      ToMapHas(rows, (slotId, enablerType));
      if found >= 0 {
        return found;
      }
      ghost var before := connections;
      var c := new JniConnection(slotId, enablerType);
      connections := connections + [c];
      assert AllSorted(before);
      RowsAt(connections);
      assert Rows(connections) == rows + [(c.At(), c.View())];
      AppendRefines(rows, c.At(), c.View());
      assert ToMap<int, Id>([]) == map[] by { EmptyMap<int, Id>([]); }
      k := |connections| - 1;
      KeyAt(Rows(connections), k);
    }

    /** An entry changed in place, then dropped if nothing is left in it. */
    method CheckAndRemoveConnection(k: nat)
      requires k < |connections| && Separate(connections) && AllSorted(connections)
      requires Distinct(Rows(connections)) && NoneEmpty(Rows(connections), k)
      modifies this
      ensures Valid()
      ensures View() == Put(old(View()), old(connections[k].At()), old(connections[k].View()))
    {
      hide IndexOfKey, Rows, ToMap;
      ghost var rows, before := Rows(connections), connections;
      RowsAt(connections);
      var p := connections[k];
      EmptyMap(p.jnis);
      KeyAt(rows, k);
      ToMapHas(rows, p.At());
      if !p.IsEmpty() {
        assert ToMap(rows)[p.At() := p.View()] == ToMap(rows);
        return;
      }
      var i := 0;
      while i < |connections|
        invariant 0 <= i <= k && connections == before
      {
        if connections[i] == p {
          connections := connections[..i] + connections[i + 1..];
          RowsAt(connections);
          assert forall j :: 0 <= j < |connections| ==> connections[j] == before[if j < k then j else j + 1];
          assert Rows(connections) == RemoveAt(rows, k);
          RemoveRefines(rows, k);
          return;
        }
        i := i + 1;
      }
    }

    /** One connection, changed in place. */
    lemma OneChanged(rows: Pairs<Target, Entry>, k: nat)
      requires k < |connections| == |rows| && Distinct(rows) && NoneEmpty(rows, k)
      requires forall i :: 0 <= i < |rows| ==>
                 connections[i].At() == rows[i].0 && (i == k || connections[i].View() == rows[i].1)
      ensures Distinct(Rows(connections)) && NoneEmpty(Rows(connections), k)
      ensures View() == ToMap(rows)[rows[k].0 := connections[k].View()]
    {
      hide IndexOfKey, Rows, ToMap;
      RowsAt(connections);
      assert Rows(connections) == rows[k := (rows[k].0, connections[k].View())];
      SetRefines(rows, k, connections[k].View());
    }

    /** SetNativeEnabler: one entry of the table changes, and its JNI enablers are told once each. */
    method SetNativeEnabler(slotId: int, enablerType: EnablerType, native: Option<Id>) returns (calls: seq<Call>)
      requires Valid()
      modifies this, connections
      ensures Valid() && View() == SetNative(old(View()), (slotId, enablerType), native)
      ensures TellsEachOnce(calls, EntryAt(old(View()), (slotId, enablerType)).jnis)
    {
      hide IndexOfKey, Rows, ToMap, TellsEachOnce, Distinct, NoneEmpty, Sorted, Put;
      var k := CreateConnectionIfNotExist(slotId, enablerType);
      ghost var rows, start := Rows(connections), connections[k].View();
      RowsAt(connections);
      CallsMatchMap(connections[k].jnis);
      calls := connections[k].SetNativeEnabler(native);
      OneChanged(rows, k);
      PutLast(old(View()), (slotId, enablerType), start, connections[k].View());
      CheckAndRemoveConnection(k);
    }

    /** SetJniEnabler: one key of one entry changes, and a native enabler there is told. */
    method SetJniEnabler(slotId: int, enablerType: EnablerType, jni: Option<Id>, key: int)
      returns (calls: seq<Call>)
      requires Valid()
      modifies this, connections
      ensures Valid() && View() == SetJni(old(View()), (slotId, enablerType), key, jni)
      ensures var native := EntryAt(old(View()), (slotId, enablerType)).native;
              calls == if native == None then [] else [NotifyJniEnablerSet(native.value)]
    {
      hide IndexOfKey, Rows, ToMap, Distinct, NoneEmpty, Sorted, Put;
      var k := CreateConnectionIfNotExist(slotId, enablerType);
      ghost var rows, start := Rows(connections), connections[k].View();
      RowsAt(connections);
      var c := connections[k];
      assert forall i :: 0 <= i < |connections| && i != k ==> connections[i] != c;
      calls := c.SetJniEnabler(key, jni);
      assert AllSorted(connections);
      assert c.View() ==
             start.(jnis := if jni == None then start.jnis - {key} else start.jnis[key := jni.value]);
      OneChanged(rows, k);
      PutLast(old(View()), (slotId, enablerType), start, connections[k].View());
      CheckAndRemoveConnection(k);
    }

    method GetNativeEnabler(slotId: int, enablerType: EnablerType) returns (native: Option<Id>)
      requires Valid()
      ensures native == GetNative(View(), (slotId, enablerType))
    {
      hide IndexOfKey, Rows, ToMap;
      var k := GetConnection(slotId, enablerType);
      RowsAt(connections);
      ToMapHas(Rows(connections), (slotId, enablerType));
      native := if k < 0 then None else connections[k].native;
    }

    method GetJniEnabler(slotId: int, enablerType: EnablerType, key: int) returns (jni: Option<Id>)
      requires Valid()
      ensures jni == GetJni(View(), (slotId, enablerType), key)
    {
      hide IndexOfKey, Rows, ToMap;
      var k := GetConnection(slotId, enablerType);
      RowsAt(connections);
      ToMapHas(Rows(connections), (slotId, enablerType));
      if k < 0 {
        return None;
      }
      jni := connections[k].GetJniEnabler(key);
    }
  }
}
