/** Accumulated identity claims: who asserted what about an entry, and how one
    provider's assertions are merged in without losing anything. */
module Claims {
  import opened Strings
  import opened Identity

  /** One assertion and the providers that supplied it. */
  datatype Claim = Claim(id: ExternalId, suppliers: seq<string>)

  /** The position the key index holds for a key: its last occurrence, or -1. */
  function Position(claims: seq<Claim>, key: string): (i: int)
    ensures -1 <= i < |claims|
    ensures i >= 0 ==> IdKey(claims[i].id) == key
    ensures i == -1 ==> forall k :: 0 <= k < |claims| ==> IdKey(claims[k].id) != key
  {
    if claims == [] then -1
    else if IdKey(claims[|claims| - 1].id) == key then |claims| - 1
    else Position(claims[..|claims| - 1], key)
  }

  function AddClaim(claims: seq<Claim>, id: ExternalId, supplier: string): seq<Claim>
  {
    if !id.Asserted() then claims
    else
      var i := Position(claims, IdKey(id));
      if i == -1 then claims + [Claim(id, [supplier])]
      else if supplier in claims[i].suppliers then claims
      else claims[i := Claim(claims[i].id, Sort(claims[i].suppliers + [supplier]))]
  }

  function UnionClaims(base: seq<Claim>, ids: seq<ExternalId>, supplier: string): seq<Claim>
  {
    if ids == [] then base
    else AddClaim(UnionClaims(base, ids[..|ids| - 1], supplier), ids[|ids| - 1], supplier)
  }

  /** The source's own shape: one pass with a key index kept beside the list. */
  method MergeClaims(base: seq<Claim>, ids: seq<ExternalId>, supplier: string) returns (claims: seq<Claim>)
    ensures claims == UnionClaims(base, ids, supplier)
  {
    claims := base;
    var index: map<string, nat> := map[];
    for i := 0 to |base|
      invariant IndexOf(index, base[..i])
    {
      IndexOneMore(index, base[..i], base[i], base[..i + 1]);
      index := index[IdKey(base[i].id) := i];
    }
    assert base[..|base|] == base;
    for i := 0 to |ids|
      invariant claims == UnionClaims(base, ids[..i], supplier)
      invariant IndexOf(index, claims)
    {
      assert ids[..i + 1][..i] == ids[..i];
      var id := ids[i];
      if id.Asserted() {
        var key := IdKey(id);
        if key in index {
          var at := index[key];
          if supplier !in claims[at].suppliers {
            var updated := claims[at := Claim(claims[at].id, Sort(claims[at].suppliers + [supplier]))];
            SameKeysSameIndex(index, claims, updated);
            claims := updated;
          }
        } else {
          IndexOneMore(index, claims, Claim(id, [supplier]), claims + [Claim(id, [supplier])]);
          index := index[key := |claims|];
          claims := claims + [Claim(id, [supplier])];
        }
      }
    }
    assert ids[..|ids|] == ids;
  }

  ghost predicate IndexOf(index: map<string, nat>, claims: seq<Claim>)
  {
    forall key :: (key in index <==> Position(claims, key) >= 0) && (key in index ==> index[key] == Position(claims, key))
  }

  lemma IndexOneMore(index: map<string, nat>, claims: seq<Claim>, c: Claim, more: seq<Claim>)
    requires IndexOf(index, claims) && more == claims + [c]
    ensures IndexOf(index[IdKey(c.id) := |claims|], more)
  {
    assert more[..|more| - 1] == claims;
  }

  lemma SameKeysSameIndex(index: map<string, nat>, a: seq<Claim>, b: seq<Claim>)
    requires |a| == |b| && forall k :: 0 <= k < |a| ==> a[k].id == b[k].id
    requires IndexOf(index, a)
    ensures IndexOf(index, b)
  {
    forall key ensures Position(a, key) == Position(b, key) {
      SameKeysSamePosition(a, b, key);
    }
  }

  lemma SameKeysSamePosition(a: seq<Claim>, b: seq<Claim>, key: string)
    requires |a| == |b| && forall k :: 0 <= k < |a| ==> a[k].id == b[k].id
    ensures Position(a, key) == Position(b, key)
  {
    if a != [] {
      SameKeysSamePosition(a[..|a| - 1], b[..|b| - 1], key);
    }
  }

  // --- what merging guarantees

  predicate AllAsserted(claims: seq<Claim>)
  {
    forall i :: 0 <= i < |claims| ==> claims[i].id.Asserted()
  }

  /** Later claims keep every earlier one in place, with all its suppliers. */
  ghost predicate Grown(a: seq<Claim>, b: seq<Claim>)
  {
    && |a| <= |b|
    && forall i :: 0 <= i < |a| ==> a[i].id == b[i].id && forall s :: s in a[i].suppliers ==> s in b[i].suppliers
  }

  /** Some claim under the id's comparison key lists the supplier. */
  ghost predicate Supplied(claims: seq<Claim>, id: ExternalId, supplier: string)
  {
    exists i :: 0 <= i < |claims| && IdKey(claims[i].id) == IdKey(id) && supplier in claims[i].suppliers
  }

  lemma SuppliedStays(a: seq<Claim>, b: seq<Claim>, id: ExternalId, supplier: string)
    requires Grown(a, b) && Supplied(a, id, supplier)
    ensures Supplied(b, id, supplier)
  {
    var i :| 0 <= i < |a| && IdKey(a[i].id) == IdKey(id) && supplier in a[i].suppliers;
    assert b[i].id == a[i].id;
  }

  lemma SortKeepsMembers(s: seq<string>)
    ensures forall x :: x in s <==> x in Sort(s)
  {
    forall x ensures x in s <==> x in Sort(s) {
      assert x in s <==> x in multiset(s);
      assert x in Sort(s) <==> x in multiset(Sort(s));
    }
  }

  /** A claim of the result that was not there before, or gained a supplier,
      did so because this supplier asserted an id under its key. */
  ghost predicate Sourced(base: seq<Claim>, result: seq<Claim>, ids: seq<ExternalId>, supplier: string)
  {
    forall i, s :: 0 <= i < |result| && s in result[i].suppliers ==>
      || (i < |base| && s in base[i].suppliers)
      || (s == supplier && exists id :: id in ids && IdKey(id) == IdKey(result[i].id))
  }

  /** Every claim of the result was a claim before or is one of the new ids. */
  ghost predicate FromEither(base: seq<Claim>, result: seq<Claim>, ids: seq<ExternalId>)
  {
    forall i :: |base| <= i < |result| ==> result[i].id in ids
  }

  lemma AddClaimGuarantee(claims: seq<Claim>, id: ExternalId, supplier: string)
    ensures var r := AddClaim(claims, id, supplier);
      && Grown(claims, r)
      && (id.Asserted() ==> Supplied(r, id, supplier))
      && Sourced(claims, r, [id], supplier)
      && FromEither(claims, r, [id])
      && (AllAsserted(claims) ==> AllAsserted(r))
  {
    if id.Asserted() {
      var i := Position(claims, IdKey(id));
      var r := AddClaim(claims, id, supplier);
      if i == -1 {
        assert IdKey(r[|claims|].id) == IdKey(id) && supplier in r[|claims|].suppliers;
      } else {
        SortKeepsMembers(claims[i].suppliers + [supplier]);
        assert IdKey(r[i].id) == IdKey(id) && supplier in r[i].suppliers;
      }
      assert id in [id];
    }
  }

  /** Merging never drops a claim or a supplier, records the supplier under
      every id it asserted, and records nothing else. */
  lemma {:induction false} UnionClaimsGuarantee(base: seq<Claim>, ids: seq<ExternalId>, supplier: string)
    ensures var r := UnionClaims(base, ids, supplier);
      && Grown(base, r)
      && (forall id :: id in ids && id.Asserted() ==> Supplied(r, id, supplier))
      && Sourced(base, r, ids, supplier)
      && FromEither(base, r, ids)
      && (AllAsserted(base) ==> AllAsserted(r))
  {
    if ids != [] {
      var front, last := ids[..|ids| - 1], ids[|ids| - 1];
      assert ids == front + [last];
      UnionClaimsGuarantee(base, front, supplier);
      OneMoreGuarantee(base, UnionClaims(base, front, supplier), front, last, supplier);
    }
  }

  lemma OneMoreGuarantee(base: seq<Claim>, mid: seq<Claim>, front: seq<ExternalId>, last: ExternalId, supplier: string)
    requires Grown(base, mid) && Sourced(base, mid, front, supplier) && FromEither(base, mid, front)
    requires (forall id :: id in front && id.Asserted() ==> Supplied(mid, id, supplier)) && (AllAsserted(base) ==> AllAsserted(mid))
    ensures var r, ids := AddClaim(mid, last, supplier), front + [last];
      && Grown(base, r)
      && (forall id :: id in ids && id.Asserted() ==> Supplied(r, id, supplier))
      && Sourced(base, r, ids, supplier)
      && FromEither(base, r, ids)
      && (AllAsserted(base) ==> AllAsserted(r))
  {
    var r := AddClaim(mid, last, supplier);
    AddClaimGuarantee(mid, last, supplier);
    AllSuppliedStay(mid, r, front, supplier);
    GrownTwice(base, mid, r);
    FromEitherTwice(base, mid, r, front, last);
    SourcedCompose(base, mid, r, front, last, supplier);
  }

  lemma AllSuppliedStay(a: seq<Claim>, b: seq<Claim>, ids: seq<ExternalId>, supplier: string)
    requires Grown(a, b) && forall id :: id in ids && id.Asserted() ==> Supplied(a, id, supplier)
    ensures forall id :: id in ids && id.Asserted() ==> Supplied(b, id, supplier)
  {
    forall id | id in ids && id.Asserted() ensures Supplied(b, id, supplier) {
      SuppliedStays(a, b, id, supplier);
    }
  }

  lemma GrownTwice(a: seq<Claim>, b: seq<Claim>, c: seq<Claim>)
    requires Grown(a, b) && Grown(b, c)
    ensures Grown(a, c)
  {
    forall i | 0 <= i < |a| ensures a[i].id == c[i].id && forall s :: s in a[i].suppliers ==> s in c[i].suppliers {
      assert a[i].id == b[i].id;
    }
  }

  lemma FromEitherTwice(base: seq<Claim>, mid: seq<Claim>, r: seq<Claim>, front: seq<ExternalId>, last: ExternalId)
    requires FromEither(base, mid, front) && FromEither(mid, r, [last]) && Grown(mid, r) && |base| <= |mid|
    ensures FromEither(base, r, front + [last])
  {
    forall i | |base| <= i < |r| ensures r[i].id in front + [last] {
      if i < |mid| {
        assert mid[i].id == r[i].id;
      }
    }
  }

  lemma SourcedCompose(base: seq<Claim>, mid: seq<Claim>, r: seq<Claim>, front: seq<ExternalId>,
                       last: ExternalId, supplier: string)
    requires Sourced(base, mid, front, supplier) && Sourced(mid, r, [last], supplier) && Grown(mid, r)
    ensures Sourced(base, r, front + [last], supplier)
  {
    forall i, s | 0 <= i < |r| && s in r[i].suppliers
      ensures (i < |base| && s in base[i].suppliers)
        || (s == supplier && exists id :: id in front + [last] && IdKey(id) == IdKey(r[i].id))
    {
      if i < |mid| && s in mid[i].suppliers {
        assert mid[i].id == r[i].id;
        if !(i < |base| && s in base[i].suppliers) {
          var id :| id in front && IdKey(id) == IdKey(mid[i].id);
          assert id in front + [last];
        }
      } else {
        assert last in front + [last];
      }
    }
  }

  ghost predicate HasClaim(claims: seq<Claim>, id: ExternalId)
  {
    exists i :: 0 <= i < |claims| && claims[i].id == id
  }

  /** No two different claims share a comparison key. */
  ghost predicate Distinguished(claims: seq<Claim>)
  {
    forall i, j :: 0 <= i < |claims| && 0 <= j < |claims| && IdKey(claims[i].id) == IdKey(claims[j].id)
      ==> claims[i].id == claims[j].id
  }

  ghost predicate Involved(base: seq<Claim>, ids: seq<ExternalId>, id: ExternalId)
  {
    HasClaim(base, id) || (id in ids && id.Asserted())
  }

  /** The comparison keys tell all the assertions involved apart. */
  ghost predicate KeysSeparate(base: seq<Claim>, ids: seq<ExternalId>)
  {
    forall x, y :: Involved(base, ids, x) && Involved(base, ids, y) && IdKey(x) == IdKey(y) ==> x == y
  }

  lemma {:induction false} UnionStaysDistinguished(base: seq<Claim>, ids: seq<ExternalId>, supplier: string)
    requires Distinguished(base)
    ensures Distinguished(UnionClaims(base, ids, supplier))
  {
    if ids != [] {
      UnionStaysDistinguished(base, ids[..|ids| - 1], supplier);
    }
  }

  /** Every asserted id becomes, or already was, literally one of the claims
      exactly when the comparison keys tell the assertions involved apart. */
  lemma LiteralClaimsIff(base: seq<Claim>, ids: seq<ExternalId>, supplier: string)
    requires Distinguished(base)
    ensures (forall id :: id in ids && id.Asserted() ==> HasClaim(UnionClaims(base, ids, supplier), id))
       <==> KeysSeparate(base, ids)
  {
    var r := UnionClaims(base, ids, supplier);
    UnionClaimsGuarantee(base, ids, supplier);
    UnionStaysDistinguished(base, ids, supplier);
    if forall id :: id in ids && id.Asserted() ==> HasClaim(r, id) {
      forall x | Involved(base, ids, x) ensures HasClaim(r, x) {
        if HasClaim(base, x) {
          var i :| 0 <= i < |base| && base[i].id == x;
          assert r[i].id == x;
        }
      }
    }
    if KeysSeparate(base, ids) {
      forall id | id in ids && id.Asserted() ensures HasClaim(r, id) {
        assert Supplied(r, id, supplier);
        var i :| 0 <= i < |r| && IdKey(r[i].id) == IdKey(id) && supplier in r[i].suppliers;
        ClaimIsInvolved(base, ids, supplier, i);
        assert Involved(base, ids, id);
      }
    }
  }

  lemma {:induction false} ClaimIsInvolved(base: seq<Claim>, ids: seq<ExternalId>, supplier: string, i: nat)
    requires i < |UnionClaims(base, ids, supplier)|
    ensures Involved(base, ids, UnionClaims(base, ids, supplier)[i].id)
  {
    if ids == [] {
      assert base[i].id == UnionClaims(base, ids, supplier)[i].id;
    } else {
      var front, last := ids[..|ids| - 1], ids[|ids| - 1];
      var mid := UnionClaims(base, front, supplier);
      assert ids == front + [last];
      AddClaimGuarantee(mid, last, supplier);
      if i < |mid| {
        ClaimIsInvolved(base, front, supplier, i);
        assert mid[i].id == UnionClaims(base, ids, supplier)[i].id;
      }
    }
  }

  /** Namespaces without NUL are enough for the keys to tell them apart. */
  lemma NulFreeKeysSeparate(base: seq<Claim>, ids: seq<ExternalId>)
    requires forall x :: Involved(base, ids, x) ==> '\0' !in x.namespace
    ensures KeysSeparate(base, ids)
  {
    forall x, y | Involved(base, ids, x) && Involved(base, ids, y) && IdKey(x) == IdKey(y) ensures x == y {
      IdKeyInjective(x, y);
    }
  }

  /** The literal reading fails otherwise: of two assertions that share a key
      only the first becomes a claim, and it takes the second's supplier. */
  lemma CollidingIdIsDropped(x: ExternalId, y: ExternalId, supplier: string)
    requires x.Asserted() && y.Asserted() && x != y && IdKey(x) == IdKey(y)
    ensures UnionClaims([], [x, y], supplier) == [Claim(x, [supplier])]
  {
    assert [x, y][..1] == [x] && [x][..0] == [];
    assert UnionClaims([], [x], supplier) == [Claim(x, [supplier])];
  }

  // --- people lists

  function Unseen(base: seq<string>, add: seq<string>): seq<string>
  {
    if add == [] then []
    else
      var front, last := Unseen(base, add[..|add| - 1]), add[|add| - 1];
      if last in base || last in front then front else front + [last]
  }

  function UnionStrings(base: seq<string>, add: seq<string>): seq<string>
  {
    base + Sort(Unseen(base, add))
  }

  method MergeStrings(base: seq<string>, add: seq<string>) returns (all: seq<string>)
    ensures all == UnionStrings(base, add)
  {
    if |add| == 0 {
      return base;
    }
    var seen := set s | s in base;
    var unseen := [];
    for i := 0 to |add|
      invariant unseen == Unseen(base, add[..i])
      invariant forall s :: s in seen <==> s in base || s in unseen
    {
      assert add[..i + 1][..i] == add[..i];
      if add[i] !in seen {
        seen := seen + {add[i]};
        unseen := unseen + [add[i]];
      }
    }
    assert add[..|add|] == add;
    all := base + Sort(unseen);
  }

  /** The earlier people stay in front in their order; nobody is lost or invented. */
  lemma UnionStringsMembers(base: seq<string>, add: seq<string>)
    ensures base <= UnionStrings(base, add)
    ensures forall s :: s in UnionStrings(base, add) <==> s in base || s in add
  {
    UnseenMembers(base, add);
    SortKeepsMembers(Unseen(base, add));
  }

  lemma {:induction false} UnseenMembers(base: seq<string>, add: seq<string>)
    ensures forall s :: s in Unseen(base, add) <==> s in add && s !in base
  {
    if add != [] {
      UnseenMembers(base, add[..|add| - 1]);
      assert add == add[..|add| - 1] + [add[|add| - 1]];
    }
  }

  // --- nothing is listed twice

  lemma SortStaysDistinct(s: seq<string>)
    requires NoDuplicates(s)
    ensures NoDuplicates(Sort(s))
  {
    SameMultisetSameMembers(s, Sort(s));
    SameMultisetIff(s, Sort(s));
  }

  lemma {:induction false} UnseenDistinct(base: seq<string>, add: seq<string>)
    ensures NoDuplicates(Unseen(base, add))
  {
    if add != [] {
      UnseenDistinct(base, add[..|add| - 1]);
    }
  }

  lemma UnionStringsDistinct(base: seq<string>, add: seq<string>)
    requires NoDuplicates(base)
    ensures NoDuplicates(UnionStrings(base, add))
  {
    UnseenDistinct(base, add);
    UnseenMembers(base, add);
    SortStaysDistinct(Unseen(base, add));
    SortKeepsMembers(Unseen(base, add));
    var more := Sort(Unseen(base, add));
    forall i, j | 0 <= i < |base| && 0 <= j < |more| ensures base[i] != more[j] {
      assert more[j] in more;
    }
  }

  /** One claim for each key, one mention of each supplier. */
  ghost predicate Tidy(claims: seq<Claim>)
  {
    && (forall i, j :: 0 <= i < j < |claims| ==> IdKey(claims[i].id) != IdKey(claims[j].id))
    && forall i :: 0 <= i < |claims| ==> NoDuplicates(claims[i].suppliers)
  }

  lemma AddClaimTidy(claims: seq<Claim>, id: ExternalId, supplier: string)
    requires Tidy(claims)
    ensures Tidy(AddClaim(claims, id, supplier))
  {
    var i := Position(claims, IdKey(id));
    if i >= 0 && supplier !in claims[i].suppliers {
      SortStaysDistinct(claims[i].suppliers + [supplier]);
    }
  }

  lemma {:induction false} UnionClaimsTidy(base: seq<Claim>, ids: seq<ExternalId>, supplier: string)
    requires Tidy(base)
    ensures Tidy(UnionClaims(base, ids, supplier))
  {
    if ids != [] {
      UnionClaimsTidy(base, ids[..|ids| - 1], supplier);
      AddClaimTidy(UnionClaims(base, ids[..|ids| - 1], supplier), ids[|ids| - 1], supplier);
    }
  }
}
