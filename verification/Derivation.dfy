/** The per-user library as a derivation: which entries a set of reachable
    accounts yields, stated outright and as the fold that computes it. */
module Derivation {
  import opened Optional
  import opened Strings
  import opened Identity
  import opened Claims
  import opened RegistrySpec

  datatype Visibility = Public | Shared | Private

  /** One registered account; unset or unknown visibilities read as private. */
  datatype Reach = Reach(provider: string, account: string, owner: string, visibility: Visibility, members: seq<string>)
  {
    predicate Authorized(user: string)
    {
      match visibility
      case Public => true
      case Shared => (owner != "" && owner == user) || user in members
      case Private => owner != "" && owner == user
    }
  }

  datatype Source = Source(provider: string, account: string)

  /** What a derivation reads: cached items per account, the registry's mappings
      and entries, and where external ids resolve in the metadata cache. */
  datatype World = World(
    rows: map<Source, map<string, CatalogueItem>>,
    mappings: map<Slot, Mapping>,
    entries: map<string, Entry>,
    meta: map<string, string>)

  datatype ExternalIdentity = ExternalIdentity(namespace: string, value: string, provenance: string)
  datatype Coverage = Coverage(corroborated: bool, via: seq<string>)

  datatype LibraryEntry = LibraryEntry(
    id: string,
    series: bool,
    identities: seq<ExternalIdentity>,
    metadataRef: string,
    coverage: map<string, Coverage>)

  function Items(w: World, r: Reach): map<string, CatalogueItem>
  {
    if Source(r.provider, r.account) in w.rows then w.rows[Source(r.provider, r.account)] else map[]
  }

  /** Rows are stored under their items' native ids. */
  ghost predicate Keyed(w: World)
  {
    forall s, id :: s in w.rows && id in w.rows[s] ==> w.rows[s][id].nativeId == id
  }

  // --- one observation: an account carrying an item

  datatype Obs = Obs(reach: Reach, item: CatalogueItem)
  {
    function CoverKey(): string { reach.provider + ":" + item.nativeId }
    function Via(): string { reach.account + ":" + reach.provider + ":host" }
  }

  /** The known entry an observed item is mapped to. */
  function EntryOf(w: World, o: Obs): Option<string>
  {
    var slot := Slot(o.reach.provider, o.item.nativeId);
    if slot in w.mappings && w.mappings[slot].entry in w.entries then Some(w.mappings[slot].entry) else None
  }

  function ClaimKeys(claims: seq<Claim>): set<string>
  {
    set i | 0 <= i < |claims| :: IdKey(claims[i].id)
  }

  /** The item asserts an id the entry claims. */
  predicate Corroborated(w: World, o: Obs, entry: string)
  {
    entry in w.entries && exists id :: id in o.item.ids && IdKey(id) in ClaimKeys(w.entries[entry].claims)
  }

  // --- the entry's own face

  function JoinComma(s: seq<string>): string
  {
    if s == [] then "" else if |s| == 1 then s[0] else s[0] + "," + JoinComma(s[1..])
  }

  /** Joined lists are the lists' texts with a comma between. */
  lemma {:induction false} JoinCommaMeaning(a: seq<string>, b: seq<string>)
    ensures JoinComma([]) == ""
    ensures forall x :: JoinComma([x]) == x
    ensures a != [] && b != [] ==> JoinComma(a + b) == JoinComma(a) + "," + JoinComma(b)
  {
    if a != [] && b != [] {
      assert (a + b)[1..] == a[1..] + b;
      if |a| > 1 {
        JoinCommaMeaning(a[1..], b);
      } else {
        assert a[1..] + b == b;
      }
    }
  }

  function Identities(claims: seq<Claim>): seq<ExternalIdentity>
  {
    seq(|claims|, i requires 0 <= i < |claims| =>
      ExternalIdentity(claims[i].id.namespace, claims[i].id.value, JoinComma(Sort(claims[i].suppliers))))
  }

  /** The record the first resolvable claim leads to. */
  function MetadataRef(meta: map<string, string>, claims: seq<Claim>): string
  {
    if claims == [] then ""
    else
      var key := claims[0].id.namespace + ":" + claims[0].id.value;
      if key in meta && meta[key] != "" then meta[key] else MetadataRef(meta, claims[1..])
  }

  function Face(w: World, entry: string, coverage: map<string, Coverage>): LibraryEntry
    requires entry in w.entries
  {
    var e := w.entries[entry];
    LibraryEntry(entry, e.kind == SERIES, Identities(e.claims), MetadataRef(w.meta, e.claims), coverage)
  }

  // --- the declared library

  predicate Observes(w: World, r: Reach, native: string, entry: string)
  {
    native in Items(w, r) && EntryOf(w, Obs(r, Items(w, r)[native])) == Some(entry)
  }

  /** The reach carries an item of the entry under this coverage key. */
  predicate Covers(w: World, r: Reach, entry: string, key: string)
  {
    r.provider + ":" <= key && Observes(w, r, key[|r.provider| + 1..], entry)
  }

  function Appearing(w: World, reaches: seq<Reach>): set<string>
  {
    set entry | entry in w.entries && exists r, native :: r in reaches && native in Items(w, r) && Observes(w, r, native, entry)
  }

  function CoverKeys(w: World, reaches: seq<Reach>, entry: string): set<string>
  {
    set r, native | r in reaches && native in Items(w, r) && Observes(w, r, native, entry) :: r.provider + ":" + native
  }

  function Vias(w: World, reaches: seq<Reach>, entry: string, key: string): set<string>
  {
    set r | r in reaches && Covers(w, r, entry, key) :: r.account + ":" + r.provider + ":host"
  }

  /** The first account, in the given order, that covers the key. */
  function FirstCovering(w: World, reaches: seq<Reach>, entry: string, key: string): Option<Reach>
  {
    if reaches == [] then None
    else
      var front, last := FirstCovering(w, reaches[..|reaches| - 1], entry, key), reaches[|reaches| - 1];
      if front.Some? then front else if Covers(w, last, entry, key) then Some(last) else None
  }

  /** The item a covering reach carries under the key. */
  function Carried(w: World, r: Reach, entry: string, key: string): Obs
    requires Covers(w, r, entry, key)
  {
    Obs(r, Items(w, r)[key[|r.provider| + 1..]])
  }

  lemma {:induction false} FirstCoveringCovers(w: World, reaches: seq<Reach>, entry: string, key: string)
    ensures FirstCovering(w, reaches, entry, key).Some? ==> Covers(w, FirstCovering(w, reaches, entry, key).value, entry, key)
  {
    if reaches != [] {
      FirstCoveringCovers(w, reaches[..|reaches| - 1], entry, key);
    }
  }

  /** The row's verdict is the one its first covering account's item gives. */
  function FirstVerdict(w: World, reaches: seq<Reach>, entry: string, key: string): bool
  {
    match FirstCovering(w, reaches, entry, key)
    case None => false
    case Some(r) => Covers(w, r, entry, key) && Corroborated(w, Carried(w, r, entry, key), entry)
  }

  ghost function DeclaredRow(w: World, reaches: seq<Reach>, entry: string, key: string): Coverage
  {
    Coverage(FirstVerdict(w, reaches, entry, key), Listing(Vias(w, reaches, entry, key)))
  }

  ghost function DeclaredCoverage(w: World, reaches: seq<Reach>, entry: string): map<string, Coverage>
  {
    map key | key in CoverKeys(w, reaches, entry) :: DeclaredRow(w, reaches, entry, key)
  }

  ghost function DeclaredEntry(w: World, reaches: seq<Reach>, entry: string): LibraryEntry
    requires entry in w.entries
  {
    Face(w, entry, DeclaredCoverage(w, reaches, entry))
  }

  /** The declared entries for a list of known ids, in that order. */
  ghost function DeclaredFor(w: World, reaches: seq<Reach>, ids: seq<string>): seq<LibraryEntry>
    requires forall i :: 0 <= i < |ids| ==> ids[i] in w.entries
  {
    if ids == [] then []
    else DeclaredFor(w, reaches, ids[..|ids| - 1]) + [DeclaredEntry(w, reaches, ids[|ids| - 1])]
  }

  /** The library these reaches yield: every entry some reach carries an item
      of, sorted by id, each covered by exactly the observing accounts. */
  ghost function Declared(w: World, reaches: seq<Reach>): seq<LibraryEntry>
  {
    var ids := Listing(Appearing(w, reaches));
    assert forall i :: 0 <= i < |ids| ==> ids[i] in Appearing(w, reaches);
    DeclaredFor(w, reaches, ids)
  }

  // --- the fold that computes it

  datatype Build = Build(verdicts: map<string, bool>, observers: map<string, seq<string>>)

  function AddObs(w: World, builds: map<string, Build>, o: Obs): map<string, Build>
  {
    match EntryOf(w, o)
    case None => builds
    case Some(entry) =>
      var b := if entry in builds then builds[entry] else Build(map[], map[]);
      builds[entry := AddTo(b, o.CoverKey(), Corroborated(w, o, entry), o.Via())]
  }

  /** The first observation under a key fixes its verdict; each observer counts once. */
  function AddTo(b: Build, key: string, verdict: bool, via: string): Build
  {
    var seen := if key in b.observers then b.observers[key] else [];
    Build(
      if key in b.verdicts then b.verdicts else b.verdicts[key := verdict],
      b.observers[key := if via in seen then seen else seen + [via]])
  }

  function Folded(w: World, obs: seq<Obs>): map<string, Build>
  {
    if obs == [] then map[] else AddObs(w, Folded(w, obs[..|obs| - 1]), obs[|obs| - 1])
  }

  predicate Lands(w: World, o: Obs, entry: string, key: string)
  {
    EntryOf(w, o) == Some(entry) && o.CoverKey() == key
  }

  function FirstFor(w: World, obs: seq<Obs>, entry: string, key: string): Option<Obs>
  {
    if obs == [] then None
    else
      var front := FirstFor(w, obs[..|obs| - 1], entry, key);
      if front.Some? then front
      else if Lands(w, obs[|obs| - 1], entry, key) then Some(obs[|obs| - 1]) else None
  }

  /** What a build holds about one entry and key after these observations. */
  ghost predicate BuildMeans(w: World, obs: seq<Obs>, builds: map<string, Build>, entry: string, key: string)
  {
    && (entry in builds <==> exists o :: o in obs && EntryOf(w, o) == Some(entry))
    && (entry in builds ==>
          var b := builds[entry];
          && (key in b.verdicts <==> FirstFor(w, obs, entry, key).Some?)
          && (key in b.observers <==> key in b.verdicts)
          && (key in b.verdicts ==>
                && b.verdicts[key] == Corroborated(w, FirstFor(w, obs, entry, key).value, entry)
                && NoDuplicates(b.observers[key])
                && forall via :: via in b.observers[key] <==> exists o :: o in obs && Lands(w, o, entry, key) && o.Via() == via))
  }

  lemma {:induction false} FirstForSome(w: World, obs: seq<Obs>, entry: string, key: string)
    ensures FirstFor(w, obs, entry, key).Some? <==> exists o :: o in obs && Lands(w, o, entry, key)
  {
    if obs != [] {
      assert obs == obs[..|obs| - 1] + [obs[|obs| - 1]];
      FirstForSome(w, obs[..|obs| - 1], entry, key);
    }
  }

  lemma {:induction false} FoldedMeans(w: World, obs: seq<Obs>, entry: string, key: string)
    ensures BuildMeans(w, obs, Folded(w, obs), entry, key)
  {
    if obs != [] {
      var front, last := obs[..|obs| - 1], obs[|obs| - 1];
      assert obs == front + [last];
      FoldedMeans(w, front, entry, key);
      FirstForSome(w, front, entry, key);
      AddMeans(w, front, last, Folded(w, front), entry, key);
    }
  }

  lemma AddMeans(w: World, front: seq<Obs>, last: Obs, builds: map<string, Build>, entry: string, key: string)
    requires BuildMeans(w, front, builds, entry, key)
    requires FirstFor(w, front, entry, key).Some? <==> exists o :: o in front && Lands(w, o, entry, key)
    ensures BuildMeans(w, front + [last], AddObs(w, builds, last), entry, key)
  {
    if Lands(w, last, entry, key) {
      AddHere(w, front, last, builds, entry, key);
    } else {
      AddElsewhere(w, front, last, builds, entry, key);
    }
  }

  lemma InFrontOrLast(front: seq<Obs>, last: Obs)
    ensures forall o :: o in front + [last] <==> o in front || o == last
    ensures (front + [last])[..|front|] == front
  {
  }

  /** An observation under the key adds its verdict if it is the first, and its
      observer if that is new. */
  lemma AddHere(w: World, front: seq<Obs>, last: Obs, builds: map<string, Build>, entry: string, key: string)
    requires BuildMeans(w, front, builds, entry, key) && Lands(w, last, entry, key)
    requires FirstFor(w, front, entry, key).Some? <==> exists o :: o in front && Lands(w, o, entry, key)
    ensures BuildMeans(w, front + [last], AddObs(w, builds, last), entry, key)
  {
    InFrontOrLast(front, last);
  }

  /** An observation elsewhere leaves the key's row as it is. */
  lemma AddElsewhere(w: World, front: seq<Obs>, last: Obs, builds: map<string, Build>, entry: string, key: string)
    requires BuildMeans(w, front, builds, entry, key) && !Lands(w, last, entry, key)
    requires FirstFor(w, front, entry, key).Some? <==> exists o :: o in front && Lands(w, o, entry, key)
    ensures BuildMeans(w, front + [last], AddObs(w, builds, last), entry, key)
  {
    InFrontOrLast(front, last);
    assert FirstFor(w, front + [last], entry, key) == FirstFor(w, front, entry, key);
  }

  // --- enumerating the reaches in order, their items in any order

  /** The observation is of an item the reach actually carries. */
  predicate Carries(w: World, o: Obs)
  {
    o.item.nativeId in Items(w, o.reach) && Items(w, o.reach)[o.item.nativeId] == o.item
  }

  ghost predicate EnumeratesOne(w: World, r: Reach, obs: seq<Obs>)
  {
    forall o :: o in obs <==> o.reach == r && Carries(w, o)
  }

  ghost predicate Enumerates(w: World, reaches: seq<Reach>, obs: seq<Obs>)
    decreases |reaches|, 1
  {
    if reaches == [] then obs == []
    else exists cut: nat :: EnumeratedTo(w, reaches, obs, cut)
  }

  ghost predicate EnumeratedTo(w: World, reaches: seq<Reach>, obs: seq<Obs>, cut: nat)
    requires reaches != []
    decreases |reaches|, 0
  {
    && cut <= |obs|
    && Enumerates(w, reaches[..|reaches| - 1], obs[..cut])
    && EnumeratesOne(w, reaches[|reaches| - 1], obs[cut..])
  }

  lemma EnumerateOneMore(w: World, reaches: seq<Reach>, r: Reach, front: seq<Obs>, tail: seq<Obs>)
    requires Enumerates(w, reaches, front) && EnumeratesOne(w, r, tail)
    ensures Enumerates(w, reaches + [r], front + tail)
  {
    assert (reaches + [r])[..|reaches|] == reaches;
    assert (front + tail)[..|front|] == front && (front + tail)[|front|..] == tail;
    assert EnumeratedTo(w, reaches + [r], front + tail, |front|);
  }

  /** An enumeration holds exactly the carried items of the reaches. */
  lemma {:induction false} EnumerationIsExact(w: World, reaches: seq<Reach>, obs: seq<Obs>, o: Obs)
    requires Enumerates(w, reaches, obs)
    ensures o in obs <==> o.reach in reaches && Carries(w, o)
  {
    if reaches != [] {
      var cut: nat :| EnumeratedTo(w, reaches, obs, cut);
      EnumerationIsExact(w, reaches[..|reaches| - 1], obs[..cut], o);
      assert obs == obs[..cut] + obs[cut..];
      assert reaches == reaches[..|reaches| - 1] + [reaches[|reaches| - 1]];
    }
  }

  lemma {:induction false} FirstForConcat(w: World, a: seq<Obs>, b: seq<Obs>, entry: string, key: string)
    ensures FirstFor(w, a + b, entry, key) ==
      if FirstFor(w, a, entry, key).Some? then FirstFor(w, a, entry, key) else FirstFor(w, b, entry, key)
  {
    if b == [] {
      assert a + b == a;
    } else {
      assert (a + b)[..|a + b| - 1] == a + b[..|b| - 1];
      FirstForConcat(w, a, b[..|b| - 1], entry, key);
    }
  }

  lemma {:induction false} FirstForLands(w: World, obs: seq<Obs>, entry: string, key: string)
    ensures var f := FirstFor(w, obs, entry, key); f.Some? ==> f.value in obs && Lands(w, f.value, entry, key)
  {
    if obs != [] {
      FirstForLands(w, obs[..|obs| - 1], entry, key);
    }
  }

  /** A carried item that lands under the key is the one the reach covers it with. */
  lemma LandingIsCovering(w: World, o: Obs, entry: string, key: string)
    requires Carries(w, o)
    ensures Lands(w, o, entry, key) ==> Covers(w, o.reach, entry, key) && o == Carried(w, o.reach, entry, key)
  {
    if Lands(w, o, entry, key) {
      assert key == (o.reach.provider + ":") + o.item.nativeId;
      assert key[|o.reach.provider| + 1..] == o.item.nativeId;
    }
  }

  lemma CoveringLands(w: World, r: Reach, entry: string, key: string)
    requires Keyed(w) && Covers(w, r, entry, key)
    ensures var o := Carried(w, r, entry, key); Carries(w, o) && Lands(w, o, entry, key)
  {
    var native := key[|r.provider| + 1..];
    assert key == (r.provider + ":") + native;
    assert Items(w, r)[native].nativeId == native;
  }

  lemma OneReachFirst(w: World, r: Reach, obs: seq<Obs>, entry: string, key: string)
    requires Keyed(w) && EnumeratesOne(w, r, obs)
    ensures FirstFor(w, obs, entry, key) ==
      if Covers(w, r, entry, key) then Some(Carried(w, r, entry, key)) else None
  {
    FirstForLands(w, obs, entry, key);
    FirstForSome(w, obs, entry, key);
    var f := FirstFor(w, obs, entry, key);
    if f.Some? {
      LandingIsCovering(w, f.value, entry, key);
    } else if Covers(w, r, entry, key) {
      CoveringLands(w, r, entry, key);
    }
  }

  /** However the items were listed, the first observation under a key is the
      first covering account's. */
  lemma {:induction false} EnumerationFirst(w: World, reaches: seq<Reach>, obs: seq<Obs>, entry: string, key: string)
    requires Keyed(w) && Enumerates(w, reaches, obs)
    ensures var r := FirstCovering(w, reaches, entry, key);
      && (r.Some? ==> Covers(w, r.value, entry, key))
      && FirstFor(w, obs, entry, key) == if r.Some? then Some(Carried(w, r.value, entry, key)) else None
  {
    FirstCoveringCovers(w, reaches, entry, key);
    if reaches != [] {
      var cut: nat :| EnumeratedTo(w, reaches, obs, cut);
      EnumerationFirst(w, reaches[..|reaches| - 1], obs[..cut], entry, key);
      OneReachFirst(w, reaches[|reaches| - 1], obs[cut..], entry, key);
      FirstForConcat(w, obs[..cut], obs[cut..], entry, key);
      assert obs == obs[..cut] + obs[cut..];
    }
  }

  // --- the fold of any such enumeration is the declared library

  lemma AppearingMeans(w: World, reaches: seq<Reach>, obs: seq<Obs>, entry: string)
    requires Keyed(w) && Enumerates(w, reaches, obs)
    ensures entry in Appearing(w, reaches) <==> exists o :: o in obs && EntryOf(w, o) == Some(entry)
  {
    if entry in Appearing(w, reaches) {
      var r, native :| r in reaches && native in Items(w, r) && Observes(w, r, native, entry);
      EnumerationIsExact(w, reaches, obs, Obs(r, Items(w, r)[native]));
      assert Obs(r, Items(w, r)[native]) in obs;
    }
    if o :| o in obs && EntryOf(w, o) == Some(entry) {
      EnumerationIsExact(w, reaches, obs, o);
      assert Observes(w, o.reach, o.item.nativeId, entry);
    }
  }

  lemma CoverKeysMeans(w: World, reaches: seq<Reach>, obs: seq<Obs>, entry: string, key: string)
    requires Keyed(w) && Enumerates(w, reaches, obs)
    ensures key in CoverKeys(w, reaches, entry) <==> exists o :: o in obs && Lands(w, o, entry, key)
  {
    if key in CoverKeys(w, reaches, entry) {
      var r, native :| r in reaches && native in Items(w, r) && Observes(w, r, native, entry) && key == r.provider + ":" + native;
      var o := Obs(r, Items(w, r)[native]);
      EnumerationIsExact(w, reaches, obs, o);
      assert o in obs && Lands(w, o, entry, key);
    }
    if o :| o in obs && Lands(w, o, entry, key) {
      EnumerationIsExact(w, reaches, obs, o);
      assert o.reach in reaches && Observes(w, o.reach, o.item.nativeId, entry);
    }
  }

  lemma ViasMeans(w: World, reaches: seq<Reach>, obs: seq<Obs>, entry: string, key: string, via: string)
    requires Keyed(w) && Enumerates(w, reaches, obs)
    ensures via in Vias(w, reaches, entry, key) <==> exists o :: o in obs && Lands(w, o, entry, key) && o.Via() == via
  {
    if via in Vias(w, reaches, entry, key) {
      var r :| r in reaches && Covers(w, r, entry, key) && via == r.account + ":" + r.provider + ":host";
      CoveringLands(w, r, entry, key);
      var o := Carried(w, r, entry, key);
      EnumerationIsExact(w, reaches, obs, o);
      assert o in obs && Lands(w, o, entry, key) && o.Via() == via;
    }
    if o :| o in obs && Lands(w, o, entry, key) && o.Via() == via {
      EnumerationIsExact(w, reaches, obs, o);
      LandingIsCovering(w, o, entry, key);
      assert o.reach in reaches && Covers(w, o.reach, entry, key);
    }
  }

  /** A finished build, rendered: each row's observers sorted. */
  function Rendered(b: Build): map<string, Coverage>
  {
    map key | key in b.verdicts && key in b.observers :: Coverage(b.verdicts[key], Sort(b.observers[key]))
  }

  lemma RowIsDeclared(w: World, reaches: seq<Reach>, obs: seq<Obs>, entry: string, key: string)
    requires Keyed(w) && Enumerates(w, reaches, obs) && entry in Folded(w, obs)
    ensures var rows := Rendered(Folded(w, obs)[entry]);
      && (key in rows <==> key in CoverKeys(w, reaches, entry))
      && (key in rows ==> rows[key] == DeclaredRow(w, reaches, entry, key))
  {
    FoldedMeans(w, obs, entry, key);
    FirstForSome(w, obs, entry, key);
    CoverKeysMeans(w, reaches, obs, entry, key);
    var b := Folded(w, obs)[entry];
    if key in b.verdicts {
      EnumerationFirst(w, reaches, obs, entry, key);
      forall via ensures via in b.observers[key] <==> via in Vias(w, reaches, entry, key) {
        ViasMeans(w, reaches, obs, entry, key, via);
      }
      SortIsListing(b.observers[key], Vias(w, reaches, entry, key));
    }
  }

  lemma EntryIsDeclared(w: World, reaches: seq<Reach>, obs: seq<Obs>, entry: string)
    requires Keyed(w) && Enumerates(w, reaches, obs)
    ensures entry in Folded(w, obs) <==> entry in Appearing(w, reaches)
    ensures entry in Folded(w, obs) ==>
      entry in w.entries && Rendered(Folded(w, obs)[entry]) == DeclaredCoverage(w, reaches, entry)
  {
    FoldedMeans(w, obs, entry, "");
    AppearingMeans(w, reaches, obs, entry);
    if entry in Folded(w, obs) {
      RowsAreDeclared(w, reaches, obs, entry);
    }
  }

  lemma RowsAreDeclared(w: World, reaches: seq<Reach>, obs: seq<Obs>, entry: string)
    requires Keyed(w) && Enumerates(w, reaches, obs) && entry in Folded(w, obs)
    ensures Rendered(Folded(w, obs)[entry]) == DeclaredCoverage(w, reaches, entry)
  {
    var rows := Rendered(Folded(w, obs)[entry]);
    forall key
      ensures key in rows <==> key in CoverKeys(w, reaches, entry)
      ensures key in rows ==> rows[key] == DeclaredRow(w, reaches, entry, key)
    {
      RowIsDeclared(w, reaches, obs, entry, key);
    }
  }

  /** The fold over any enumeration yields the declared entries, row by row. */
  lemma FoldIsDeclared(w: World, reaches: seq<Reach>, obs: seq<Obs>)
    requires Keyed(w) && Enumerates(w, reaches, obs)
    ensures Folded(w, obs).Keys == Appearing(w, reaches)
    ensures forall entry :: entry in Folded(w, obs) ==>
      entry in w.entries && Face(w, entry, Rendered(Folded(w, obs)[entry])) == DeclaredEntry(w, reaches, entry)
  {
    forall entry
      ensures entry in Folded(w, obs) <==> entry in Appearing(w, reaches)
      ensures entry in Folded(w, obs) ==>
        entry in w.entries && Rendered(Folded(w, obs)[entry]) == DeclaredCoverage(w, reaches, entry)
    {
      EntryIsDeclared(w, reaches, obs, entry);
    }
  }
}
