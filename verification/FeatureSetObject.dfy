/** The class FeatureSet of Feature.cpp: a list of reference-counted feature objects edited in place.
    Each operation is proved against the value model.
 */
module FeatureSets {
  import opened AStrings
  import opened PercentCodec
  import opened Features
  import M = FeatureSetModel
  import T = FeatureSetText

  /** A feature object. Its counter is how many holders it has; the last one to let go deletes it. */
  class RcFeature {
    const feature: Feature
    var refs: nat

    constructor (feature: Feature)
      ensures this.feature == feature && refs == 0
    {
      this.feature := feature;
      refs := 0;
    }

    predicate IsShared()
      reads this
    {
      refs > 1
    }

    method AddReference()
      modifies this
      ensures refs == old(refs) + 1
    {
      refs := refs + 1;
    }

    method RemoveReference()
      requires refs > 0
      modifies this
      ensures refs == old(refs) - 1
    {
      refs := refs - 1;
    }
  }

  class FeatureSet {
    const tag: AString
    var features: seq<RcFeature>

    constructor (tag: AString)
      ensures Valid() && this.tag == tag && features == [] && View() == M.FSet(tag, [])
    {
      this.tag := tag;
      features := [];
    }

    ghost predicate Valid()
      reads this, features
    {
      && Separate(features)
      && (forall i :: 0 <= i < |features| ==> features[i].refs >= 1)
    }

    ghost predicate Separate(objects: seq<RcFeature>) {
      forall i, j :: 0 <= i < j < |objects| ==> objects[i] != objects[j]
    }

    ghost function Entries(): (r: seq<M.Entry>)
      reads this, features
      ensures |r| == |features|
      ensures forall i :: 0 <= i < |r| ==> r[i] == M.Entry(features[i].feature, features[i].refs)
    {
      seq(|features|, i requires 0 <= i < |features| reads this, features =>
        M.Entry(features[i].feature, features[i].refs))
    }

    /** The set as a value. */
    ghost function View(): M.FSet
      reads this, features
    {
      M.FSet(tag, Entries())
    }

    /** Lookup: the first object that matches, taken out of the list if asked for and held only there. */
    method Lookup(f: Feature, detach: bool) returns (found: RcFeature?)
      requires Valid()
      modifies this
      ensures Valid()
      ensures var k := M.Lookup(old(Entries()), f);
              if k < 0 then found == null && features == old(features)
              else
                && found == old(features)[k]
                && features == (if detach && found.refs <= 1 then old(features)[..k] + old(features)[k + 1..]
                                else old(features))
    {
      hide Equals, M.Lookup;
      ghost var k := M.Lookup(Entries(), f);
      var i := 0;
      while i < |features|
        invariant 0 <= i <= (if k < 0 then |features| else k)
        invariant features == old(features)
      {
        var p := features[i];
        if Equals(p.feature, f) {
          assert i == k;
          if detach && !p.IsShared() {
            RemoveAt(i);
          }
          return p;
        }
        i := i + 1;
      }
      found := null;
    }

    method RemoveAt(i: nat)
      requires Valid() && i < |features|
      modifies this
      ensures Valid() && features == old(features)[..i] + old(features)[i + 1..]
    {
      ghost var was := features;
      features := features[..i] + features[i + 1..];
      assert forall j :: 0 <= j < |features| ==> features[j] == was[if j < i then j else j + 1];
    }

    /** The private Add. The object handed in stays held by the caller. */
    method AddObject(p: RcFeature) returns (code: M.Code)
      requires Valid() && p !in features && p.refs == 1
      modifies this, features, p
      ensures code == M.Add(old(View()), p.feature).1
      ensures p.refs == if code.OpAdd? then 2 else 1
      ensures features == if code.OpAdd? then old(features) + [p] else old(features)
      ensures !code.OpAdd? ==> Valid() && p !in features && (View(), code) == M.Add(old(View()), p.feature)
      ensures code.OpAdd? ==> Shows(old(features), old(Entries()))
      ensures code.OpAdd? ==> M.Add(old(View()), p.feature).0.entries == old(Entries()) + [M.Entry(p.feature, 1)]
    {
      hide Equals, M.Lookup, EqualIgnoreCase;
      ghost var was := Entries();
      ghost var k := M.Lookup(was, p.feature);
      if !EqualIgnoreCase(tag, p.feature.tag) {
        return M.OpFail;
      }
      var existing := Lookup(p.feature, false);
      if existing != null {
        existing.AddReference();
        ShowsCount(was, k, was[k].refs + 1);
        return M.OpAddRef;
      }
      p.AddReference();
      features := features + [p];
      code := M.OpAdd;
    }

    /** Add of a parsed text or of a tag and a value: `f` is what the constructor of Feature makes. */
    method AddFeature(f: Feature) returns (code: M.Code)
      requires Valid()
      modifies this, features
      ensures forall i :: 0 <= i < |features| ==> features[i] in old(features) || fresh(features[i])
      ensures Valid() && (View(), code) == M.Add(old(View()), f)
    {
      hide M.Add;
      var holder := new RcFeature(f);
      holder.AddReference();
      ghost var before, was := features, Entries();
      assert was == old(Entries());
      code := AddObject(holder);
      holder.RemoveReference();
      if code.OpAdd? {
        ShowsAppended(before, was, holder);
        M.AddKeepsTag(old(View()), f);
      }
    }

    /** The list shows the entries `was`. */
    ghost predicate Shows(objects: seq<RcFeature>, was: seq<M.Entry>)
      reads objects
    {
      && |objects| == |was|
      && forall i :: 0 <= i < |was| ==> was[i] == M.Entry(objects[i].feature, objects[i].refs)
    }

    lemma ShowsCount(was: seq<M.Entry>, k: nat, refs: nat)
      requires k < |was| == |features| && Separate(features)
      requires forall i :: 0 <= i < |was| ==>
                 features[i].feature == was[i].feature && features[i].refs == if i == k then refs else was[i].refs
      requires refs >= 1 && forall i :: 0 <= i < |was| ==> was[i].refs >= 1
      ensures Valid() && Entries() == M.WithRefs(was, k, refs)
    {
    }

    lemma ShowsAppended(objects: seq<RcFeature>, was: seq<M.Entry>, p: RcFeature)
      requires Separate(objects) && Shows(objects, was) && features == objects + [p]
      requires p !in objects && p.refs == 1 && forall i :: 0 <= i < |was| ==> was[i].refs >= 1
      ensures Valid() && Entries() == was + [M.Entry(p.feature, 1)]
    {
      assert forall i :: 0 <= i < |was| ==> features[i] == objects[i];
    }

    lemma ShowsDropped(objects: seq<RcFeature>, was: seq<M.Entry>, k: nat)
      requires Separate(objects) && k < |objects| == |was| && features == objects[..k] + objects[k + 1..]
      requires forall i :: 0 <= i < |was| && i != k ==> was[i] == M.Entry(objects[i].feature, objects[i].refs)
      requires forall i :: 0 <= i < |was| ==> was[i].refs >= 1
      ensures Valid() && Entries() == was[..k] + was[k + 1..]
    {
      assert forall i :: 0 <= i < |features| ==> features[i] == objects[if i < k then i else i + 1];
    }

    method Add(text: AString) returns (code: M.Code)
      requires Valid()
      modifies this, features
      ensures forall i :: 0 <= i < |features| ==> features[i] in old(features) || fresh(features[i])
      ensures Valid() && (View(), code) == M.Add(old(View()), Parse(text))
    {
      code := AddFeature(Parse(text));
    }

    method AddTagValue(tag: AString, value: AString) returns (code: M.Code)
      requires Valid()
      modifies this, features
      ensures forall i :: 0 <= i < |features| ==> features[i] in old(features) || fresh(features[i])
      ensures Valid() && (View(), code) == M.Add(old(View()), ParseTagValue(tag, value))
    {
      code := AddFeature(ParseTagValue(tag, value));
    }

    /** The private Remove: a shared object stays in the list, the last reference leaves it. */
    method RemoveFeature(f: Feature) returns (code: M.Code)
      requires Valid()
      modifies this, features
      ensures Valid() && (View(), code) == M.Remove(old(View()), f)
    {
      hide Equals, M.Lookup, EqualIgnoreCase;
      if !EqualIgnoreCase(tag, f.tag) {
        return M.OpFail;
      }
      ghost var k := M.Lookup(Entries(), f);
      ghost var before, was := features, Entries();
      var existing := Lookup(f, true);
      if existing == null {
        assert Entries() == was;
        return M.OpFail;
      }
      if existing.IsShared() {
        existing.RemoveReference();
        code := M.OpRemoveRef;
        ShowsCount(was, k, was[k].refs - 1);
      } else {
        existing.RemoveReference();
        code := M.OpRemove;
        ShowsDropped(before, was, k);
      }
    }

    method Remove(text: AString) returns (code: M.Code)
      requires Valid()
      modifies this, features
      ensures Valid() && (View(), code) == M.Remove(old(View()), Parse(text))
    {
      code := RemoveFeature(Parse(text));
    }

    method Contains(f: Feature) returns (found: bool)
      requires Valid()
      ensures found == M.Contains(View(), f)
    {
      var i := 0;
      while i < |features|
        invariant 0 <= i <= |features|
        invariant forall j :: 0 <= j < i ==> !Equals(features[j].feature, f)
      {
        if Equals(features[i].feature, f) {
          return true;
        }
        i := i + 1;
      }
      found := false;
    }

    /** Contains of a value: the value is parsed under the tag of the set. */
    method ContainsValue(value: AString) returns (found: bool)
      requires Valid()
      ensures found == M.Contains(View(), ParseTagValue(tag, value))
    {
      if features == [] {
        return false;
      }
      found := Contains(ParseTagValue(tag, value));
    }

    /** ToString: the values of all features under the tag of the first. */
    method ToString() returns (text: AString)
      requires Valid() && T.Printable(Entries())
      ensures text == T.Print(View())
    {
      hide Encode, ValueText;
      ghost var entries := Entries();
      if features == [] {
        return Null;
      }
      if |features| == 1 {
        assert entries[0].feature == features[0].feature;
        return Features.ToString(features[0].feature);
      }
      assert entries[0].feature == features[0].feature;
      var joined := ValueText(features[0].feature);
      ghost var values := T.Values(entries);
      assert values[..1] == [values[0]];
      var i := 1;
      while i < |features|
        invariant 1 <= i <= |features| && Entries() == entries
        invariant joined == T.Join(values[..i])
      {
        assert entries[i].feature == features[i].feature;
        T.JoinSnoc(values[..i], values[i]);
        assert values[..i + 1] == values[..i] + [values[i]];
        joined := joined + "," + ValueText(features[i].feature);
        i := i + 1;
      }
      assert values[..i] == values;
      text := Text(features[0].feature.tag.Bytes() + "=" + "\"" + joined + "\"");
    }

    /** FromServiceIdentifier, from the name of the identifier. */
    static method FromServiceIdentifier(name: AString) returns (s: FeatureSet)
      ensures fresh(s) && s.Valid() && s.View() == T.FromServiceIdentifier(name)
    {
      hide M.Add, Parse, ParseTagValue, Split, T.AddAll;
      var k := IndexOf(name.Bytes(), '=');
      if k < 0 {
        s := new FeatureSet(name);
        var _ := s.Add(name);
      } else {
        var tag := UpTo(name, k);
        var value := TrimDquot(From(name, k + 1));
        s := new FeatureSet(tag);
        if ',' in value.Bytes() {
          s.AddTokens(Split(value.Bytes(), ','));
        } else {
          var _ := s.AddTagValue(tag, value);
        }
      }
    }

    method AddTokens(tokens: seq<string>)
      requires Valid()
      modifies this, features
      ensures Valid() && View() == T.AddAll(old(View()), tag, tokens)
    {
      hide M.Add, ParseTagValue, T.AddAll;
      ghost var was := View();
      T.AddAllNone(was, tag);
      assert tokens[..0] == [];
      var i := 0;
      while i < |tokens|
        invariant 0 <= i <= |tokens| && Valid()
        invariant forall j :: 0 <= j < |features| ==> features[j] in old(features) || fresh(features[j])
        invariant View() == T.AddAll(was, tag, tokens[..i])
      {
        T.AddAllStep(was, tag, tokens, i + 1);
        var _ := AddTagValue(tag, Text(tokens[i]));
        i := i + 1;
      }
      assert tokens[..i] == tokens;
    }
  }
}
