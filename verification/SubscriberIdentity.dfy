/** What it means that a subscriber record holds an identity, field by field and without following the code
    that fills it.
 */
module SubscriberIdentity {
  import opened AStrings
  import opened Impu
  import opened SubscriberModel

  /** A blank identity is empty. Another one is trimmed, and gets "sip:" in front unless a scheme stands at
      its start or behind its first '<'. */
  predicate IsNormalized(r: string, id: string) {
    var t := Trim(id);
    r == if t == "" then "" else if SchemeAt(t, IndexOf(t, '<') + 1) then t else "sip:" + t
  }

  /** The text occurs in the identity, whatever the case of its letters. */
  ghost predicate Mentions(id: string, part: string) {
    exists k: nat :: OccursAt(MakeLower(id), part, k)
  }

  /** The first identity that mentions the text, or nothing. */
  ghost predicate IsFirstWith(r: string, ids: seq<string>, part: string) {
    || (exists i :: 0 <= i < |ids| && Mentions(ids[i], part) && r == ids[i]
                    && forall k :: 0 <= k < i ==> !Mentions(ids[k], part))
    || (r == "" && forall k :: 0 <= k < |ids| ==> !Mentions(ids[k], part))
  }

  /** What stands behind the '@' at `k`, the first one, without white space around it. */
  predicate DomainAt(domain: string, id: string, k: nat) {
    k < |id| && id[k] == '@' && '@' !in id[..k] && domain == Trim(id[k + 1..])
  }

  ghost predicate HasDomainIn(id: string) {
    exists k: nat, domain :: DomainAt(domain, id, k) && domain != ""
  }

  /** The domain of the first identity that has one, or nothing. */
  ghost predicate IsFirstDomain(r: string, ids: seq<string>) {
    || (exists i, k: nat :: 0 <= i < |ids| && DomainAt(r, ids[i], k) && r != ""
                       && forall j :: 0 <= j < i ==> !HasDomainIn(ids[j]))
    || (r == "" && forall j :: 0 <= j < |ids| ==> !HasDomainIn(ids[j]))
  }

  /** The record holds this identity: the private id as given, one public id for each one given and in their
      order, the first sip: and tel: ones as primaries, and the domain given or, for "0", the first one found
      in a public id. */
  ghost predicate Holds(core: Core, id: Identity) {
    && core.privateId == id.impi
    && |core.publicIds| == |id.impus|
    && (forall i :: 0 <= i < |id.impus| ==> IsNormalized(core.publicIds[i], id.impus[i]))
    && IsFirstWith(core.sip, core.publicIds, "sip:")
    && IsFirstWith(core.tel, core.publicIds, "tel:")
    && if EqualsLiteral(id.domain, "0") then IsFirstDomain(core.domain, core.publicIds) else core.domain == id.domain
  }

  /** A record that was made but not filled. */
  predicate IsBlank(core: Core) {
    core.privateId == "" && core.publicIds == [] && core.sip == "" && core.tel == "" && core.domain == ""
  }

  lemma NormalizedIs(id: string)
    ensures IsNormalized(NormalizeOne(id), id)
  {
    hide KnownScheme, SchemeOf, SchemeAt, Trim;
    if Trim(id) != "" {
      NormalizedIff(id);
    }
  }

  lemma FirstMention(ids: seq<string>, part: string, i: nat) returns (n: nat)
    requires i < |ids| && Mentions(ids[i], part)
    ensures n < |ids| && Mentions(ids[n], part) && forall k :: 0 <= k < n ==> !Mentions(ids[k], part)
  {
    hide Mentions;
    n := 0;
    while !Mentions(ids[n], part)
      invariant n <= i && forall k :: 0 <= k < n ==> !Mentions(ids[k], part)
      decreases i - n
    {
      n := n + 1;
    }
  }

  lemma FirstWithIs(ids: seq<string>, part: string)
    ensures IsFirstWith(FirstContaining(ids, part), ids, part)
  {
    hide OccursAt, ContainsText, MakeLower;
    forall i | 0 <= i < |ids| ensures Mentions(ids[i], part) <==> ContainsText(MakeLower(ids[i]), part) {
      ContainsTextIff(MakeLower(ids[i]), part);
    }
    hide Mentions;
    if i :| 0 <= i < |ids| && Mentions(ids[i], part) {
      var n := FirstMention(ids, part, i);
      FirstContainingSpec(ids, part, n);
    } else {
      FirstContainingNone(ids, part);
    }
  }

  lemma DomainPartIs(id: string)
    ensures HasDomain(id) <==> HasDomainIn(id)
    ensures HasDomain(id) ==> DomainAt(DomainPart(id), id, IndexOf(id, '@'))
  {
    hide Trim;
    if HasDomain(id) {
      assert DomainAt(DomainPart(id), id, IndexOf(id, '@'));
    }
    if k: nat, domain :| DomainAt(domain, id, k) && domain != "" {
      IndexOfIs(id, '@', k);
    }
  }

  lemma DomainNotEmpty(id: string)
    requires HasDomain(id)
    ensures DomainPart(id) != "" && '@' in id
  {
  }

  lemma {:induction false} FirstDomainIs(ids: seq<string>)
    ensures IsFirstDomain(DomainOf(ids), ids)
  {
    hide HasDomain, DomainPart, DomainAt, HasDomainIn;
    if ids != [] {
      DomainPartIs(ids[0]);
      var r, rest := DomainOf(ids), ids[1..];
      if HasDomain(ids[0]) {
        assert r != "" by {
          DomainNotEmpty(ids[0]);
        }
        assert IndexOf(ids[0], '@') >= 0 by {
          DomainNotEmpty(ids[0]);
        }
        assert DomainAt(r, ids[0], IndexOf(ids[0], '@'));
      } else {
        FirstDomainIs(rest);
        assert forall j :: 1 <= j < |ids| ==> ids[j] == rest[j - 1];
        if i, k: nat :| 0 <= i < |rest| && DomainAt(r, rest[i], k) && r != ""
                        && forall j :: 0 <= j < i ==> !HasDomainIn(rest[j]) {
          assert DomainAt(r, ids[i + 1], k);
          assert forall j :: 0 <= j < i + 1 ==> !HasDomainIn(ids[j]);
        }
      }
    }
  }

  /** What the model puts into a record holds the identity it was given. */
  lemma ProvisionHolds(id: Identity)
    ensures Holds(Provision(id), id)
  {
    hide IsNormalized, IsFirstWith, IsFirstDomain, EqualsLiteral, FirstContaining, DomainOf, NormalizeOne;
    var ids := NormalizeAll(id.impus);
    forall i | 0 <= i < |ids| ensures IsNormalized(ids[i], id.impus[i]) {
      NormalizedIs(id.impus[i]);
    }
    FirstWithIs(ids, "sip:");
    FirstWithIs(ids, "tel:");
    FirstDomainIs(ids);
  }
}
