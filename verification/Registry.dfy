/** The provider item registry as a state machine: what one resolution may do
    to the mappings, entries, index rows, aliases and conflict records. */
module RegistrySpec {
  import opened Keys
  import opened Identity
  import opened Claims

  datatype CatalogueItem = CatalogueItem(nativeId: string, kind: int, metadata: Metadata, ids: seq<ExternalId>)
  {
    /** The contract a provider item must meet (schema.ValidateCatalogueItem);
        absent metadata reads as an empty title. */
    predicate Valid()
    {
      && nativeId != "" && kind != UNSPECIFIED && metadata.title != ""
      && forall i :: 0 <= i < |ids| ==> ids[i].Asserted()
    }

    /** Which items a resolution accepts, in their own fields: an item needs no
        ids, no year and no kind in particular. */
    lemma ValidMeaning()
      ensures Valid() <==>
        && nativeId != "" && kind != UNSPECIFIED && metadata.title != ""
        && forall x :: x in ids ==> x.namespace != "" && x.value != ""
    {
      if Valid() {
        forall x | x in ids ensures x.namespace != "" && x.value != "" {
          var i :| 0 <= i < |ids| && ids[i] == x;
        }
      }
    }

    /** The parts that end up in store keys are Go strings. */
    predicate Bytes()
    {
      forall i :: 0 <= i < |ids| ==> IsBytes(ids[i].namespace) && IsBytes(ids[i].value)
    }

    function Live(): Item { Item(kind, ids, metadata, []) }
  }

  datatype Entry = Entry(id: string, kind: int, metadata: Metadata, claims: seq<Claim>)
  {
    /** The entry's accumulated material, as the merge rule sees it. */
    function View(): Item
    {
      Item(kind, seq(|claims|, i requires 0 <= i < |claims| => claims[i].id), metadata, [])
    }
  }

  datatype Slot = Slot(provider: string, nativeId: string)
  datatype Mapping = Mapping(entry: string, generation: nat, proof: Proof)
  datatype AliasAt = AliasAt(slot: Slot, generation: nat)
  datatype Conflict = Conflict(slot: Slot, entry: string)

  datatype State = State(
    entries: map<string, Entry>,
    mappings: map<Slot, Mapping>,
    aliases: map<AliasAt, string>,
    conflicts: map<string, Conflict>,
    index: set<Key>)

  const EMPTY := State(map[], map[], map[], map[], {})

  datatype Status = Created | Attached | Unchanged | Updated

  datatype Outcome =
    | Rejected
    | Resolved(entry: string, status: Status, recycled: bool, superseded: string)

  /** One resolution: its arguments, what it answered, and the id of the
      conflict record it wrote when it wrote one. */
  datatype Call = Call(provider: string, item: CatalogueItem, out: Outcome, conflictId: string)
  {
    function ItemSlot(): Slot { Slot(provider, item.nativeId) }
    function ItemProof(): Proof { ProofOf(item.Live()) }
  }

  // --- entries and their index rows

  function Found(id: string, item: CatalogueItem, provider: string): Entry
  {
    Entry(id, item.kind,
      item.metadata.(directors := UnionStrings([], item.metadata.directors), cast := UnionStrings([], item.metadata.cast)),
      UnionClaims([], item.ids, provider))
  }

  function Absorbed(e: Entry, item: CatalogueItem, provider: string): Entry
  {
    var m, n := e.metadata, item.metadata;
    e.(metadata := m.(
         directors := UnionStrings(m.directors, n.directors),
         cast := UnionStrings(m.cast, n.cast),
         language := if m.language == "" then n.language else m.language,
         runtime := if m.runtime == 0 then n.runtime else m.runtime),
       claims := UnionClaims(e.claims, item.ids, provider))
  }

  function Rows(o: Options, e: Entry): set<Key>
  {
    var title := o.normalize(e.metadata.title);
    (if title == "" then {} else {TitleRow(title, e.kind, e.id)})
    + (set i | 0 <= i < |e.claims| && e.claims[i].id.Asserted()
        :: ExternalIdRow(e.claims[i].id.namespace, e.claims[i].id.value, e.id))
  }

  function WithEntry(o: Options, st: State, e: Entry): State
  {
    st.(entries := st.entries[e.id := e], index := st.index + Rows(o, e))
  }

  // --- the merge rule against every stored entry

  predicate MergesWith(o: Options, st: State, item: CatalogueItem, id: string)
  {
    id in st.entries && o.Decide(item.Live(), st.entries[id].View()).merge
  }

  predicate CorroboratedBy(o: Options, st: State, item: CatalogueItem, id: string)
  {
    id in st.entries && o.Decide(item.Live(), st.entries[id].View()).corroborated
  }

  /** Item and entry share an id both assert. */
  ghost predicate SharesClaim(item: CatalogueItem, e: Entry)
  {
    exists x, c :: x in item.ids && c in e.claims && c.id == x && x.namespace != "" && x.value != ""
  }

  /** Titles with one non-empty normal form, one known year for movies, and a
      common director or cast member, or the same known language or runtime. */
  ghost predicate Resembles(o: Options, item: CatalogueItem, e: Entry)
  {
    var m, n := item.metadata, e.metadata;
    && o.normalize(m.title) == o.normalize(n.title) != ""
    && (item.kind == MOVIE ==> m.year == n.year > 0)
    && ((exists p :: p in m.directors && p in n.directors) || (exists p :: p in m.cast && p in n.cast)
        || m.language == n.language != "" || m.runtime == n.runtime > 0)
  }

  /** The item is the movie or series the entry stands for, field by field. */
  ghost predicate Belongs(o: Options, item: CatalogueItem, e: Entry)
  {
    item.kind == e.kind != UNSPECIFIED && (SharesClaim(item, e) || Resembles(o, item, e))
  }

  /** The merge rule on a stored entry asks exactly that. */
  lemma MergesIffBelongs(o: Options, st: State, item: CatalogueItem, id: string)
    ensures MergesWith(o, st, item, id) <==> id in st.entries && Belongs(o, item, st.entries[id])
    ensures CorroboratedBy(o, st, item, id) <==>
      id in st.entries && item.kind == st.entries[id].kind != UNSPECIFIED && SharesClaim(item, st.entries[id])
  {
    if id in st.entries {
      var e := st.entries[id];
      var a, b := item.Live(), e.View();
      DecideMeaning(o, a, b);
      SharedClaim(item, e);
      if Titled(a, a.metadata.title) && Titled(b, b.metadata.title) {
        assert Resembles(o, item, e) ==> o.normalize(a.metadata.title) == o.normalize(b.metadata.title) != "";
      }
    }
  }

  lemma SharedClaim(item: CatalogueItem, e: Entry)
    ensures SharesClaim(item, e) <==>
      exists x :: x in item.Live().ids && x in e.View().ids && x.namespace != "" && x.value != ""
  {
    var held := e.View().ids;
    if SharesClaim(item, e) {
      var x, c :| x in item.ids && c in e.claims && c.id == x && x.namespace != "" && x.value != "";
      var i :| 0 <= i < |e.claims| && e.claims[i] == c;
      assert held[i] == x;
    }
    if x :| x in item.ids && x in held && x.namespace != "" && x.value != "" {
      var i :| 0 <= i < |held| && held[i] == x;
      assert e.claims[i] in e.claims && e.claims[i].id == x;
    }
  }

  /** A new entry holds its founder's material, field by field. */
  lemma FoundMeaning(id: string, item: CatalogueItem, provider: string)
    ensures Founds(Found(id, item, provider), item)
  {
    UnionStringsMembers([], item.metadata.directors);
    UnionStringsMembers([], item.metadata.cast);
  }

  /** A known one keeps its own, gains the item's people and learns what it did not
      know. */
  lemma AbsorbedMeaning(e: Entry, item: CatalogueItem, provider: string)
    ensures Absorbs(e, Absorbed(e, item, provider), item)
  {
    UnionStringsMembers(e.metadata.directors, item.metadata.directors);
    UnionStringsMembers(e.metadata.cast, item.metadata.cast);
  }

  lemma PlacedMeaning(o: Options, st: State, id: string, item: CatalogueItem, provider: string)
    requires id in st.entries ==> st.entries[id].id == id
    ensures var entries := Placed(o, st, id, item, provider).entries;
      && id in entries
      && (forall other :: other != id ==>
            (other in entries <==> other in st.entries) && (other in entries ==> entries[other] == st.entries[other]))
      && (id !in st.entries ==> Founds(entries[id], item))
      && (id in st.entries ==> Absorbs(st.entries[id], entries[id], item))
  {
    FoundMeaning(id, item, provider);
    if id in st.entries {
      AbsorbedMeaning(st.entries[id], item, provider);
    }
  }

  ghost predicate Founds(e: Entry, item: CatalogueItem)
  {
    var m, n := e.metadata, item.metadata;
    && e.kind == item.kind && m.title == n.title && m.year == n.year && m.language == n.language && m.runtime == n.runtime
    && (forall p :: p in m.directors <==> p in n.directors)
    && forall p :: p in m.cast <==> p in n.cast
  }

  ghost predicate Absorbs(e: Entry, after: Entry, item: CatalogueItem)
  {
    var m, k, n := e.metadata, after.metadata, item.metadata;
    && after.kind == e.kind && k.title == m.title && k.year == m.year
    && k.language == (if m.language != "" then m.language else n.language)
    && k.runtime == (if m.runtime > 0 then m.runtime else n.runtime)
    && (forall p :: p in k.directors <==> p in m.directors || p in n.directors)
    && forall p :: p in k.cast <==> p in m.cast || p in n.cast
  }

  /** The search result by exhaustive scan: an entry that merges, and one that
      shares an external id whenever any entry does. */
  ghost predicate IsTarget(o: Options, st: State, item: CatalogueItem, id: string)
  {
    && MergesWith(o, st, item, id)
    && ((exists other :: CorroboratedBy(o, st, item, other)) ==> CorroboratedBy(o, st, item, id))
  }

  ghost predicate NothingMerges(o: Options, st: State, item: CatalogueItem)
  {
    forall id :: !MergesWith(o, st, item, id)
  }

  /** An entry id that has never been used, as random minting provides. */
  predicate Unused(st: State, id: string)
  {
    id !in st.entries && id != "" && '/' !in id
  }

  // --- one resolution

  predicate Accepted(c: Call) { c.item.Valid() && c.provider != "" }

  /** The stored proof still matches: a pure lookup. */
  predicate Settled(o: Options, st: State, c: Call)
  {
    c.ItemSlot() in st.mappings && o.SameProof(st.mappings[c.ItemSlot()].proof, c.ItemProof())
  }

  predicate Moves(st: State, c: Call)
  {
    c.out.Resolved? && c.ItemSlot() in st.mappings && st.mappings[c.ItemSlot()].entry != c.out.entry
  }

  /** The entry a search settles on: one that merges, or a new one when none does. */
  ghost predicate SearchResult(o: Options, st: State, item: CatalogueItem, id: string)
  {
    IsTarget(o, st, item, id) || (NothingMerges(o, st, item) && Unused(st, id))
  }

  /** The outcome reports truthfully what happened to the slot. */
  predicate Reported(st: State, c: Call)
    requires c.out.Resolved?
  {
    && c.out.status == (if c.ItemSlot() in st.mappings && !Moves(st, c) then Updated
                        else if c.out.entry in st.entries then Attached else Created)
    && c.out.recycled == Moves(st, c)
    && c.out.superseded == (if Moves(st, c) then st.mappings[c.ItemSlot()].entry else "")
    && (Moves(st, c) ==> c.conflictId !in st.conflicts)
  }

  /** What a resolution may answer in a state. */
  ghost predicate Allowed(o: Options, st: State, c: Call)
  {
    if !Accepted(c) then c.out == Rejected
    else if Settled(o, st, c) then c.out == Resolved(st.mappings[c.ItemSlot()].entry, Unchanged, false, "")
    else c.out.Resolved? && SearchResult(o, st, c.item, c.out.entry) && Reported(st, c)
  }

  /** The state that resolution leaves behind. */
  function Next(o: Options, st: State, c: Call): State
  {
    if c.out == Rejected || c.out.status == Unchanged then st
    else
      Remapped(Placed(o, st, c.out.entry, c.item, c.provider), c.ItemSlot(), c.out.entry, c.ItemProof(), c.conflictId)
  }

  /** The item's material merged into its entry, or founding it. */
  function Placed(o: Options, st: State, id: string, item: CatalogueItem, provider: string): State
  {
    WithEntry(o, st, if id in st.entries then Absorbed(st.entries[id], item, provider) else Found(id, item, provider))
  }

  /** The slot pointed at an entry: the old generation becomes an alias, and a
      change of entry a conflict record. */
  function Remapped(st: State, slot: Slot, entry: string, proof: Proof, conflictId: string): State
  {
    if slot !in st.mappings then
      st.(mappings := st.mappings[slot := Mapping(entry, 1, proof)])
    else
      var cur := st.mappings[slot];
      st.(
        conflicts := if cur.entry == entry then st.conflicts else st.conflicts[conflictId := Conflict(slot, cur.entry)],
        aliases := st.aliases[AliasAt(slot, cur.generation) := cur.entry],
        mappings := st.mappings[slot := Mapping(entry, cur.generation + 1, proof)])
  }

  // --- the invariant of every reachable state

  predicate NormalizesToBytes(o: Options, title: string) { IsBytes(o.normalize(title)) }

  ghost predicate EntryOk(o: Options, id: string, e: Entry)
  {
    && e.id == id && id != "" && '/' !in id && e.kind != UNSPECIFIED && NormalizesToBytes(o, e.metadata.title)
    && AllAsserted(e.claims)
    && forall i :: 0 <= i < |e.claims| ==> IsBytes(e.claims[i].id.namespace) && IsBytes(e.claims[i].id.value)
  }

  /** Index row k is backed by the entry it names. */
  ghost predicate Backed(o: Options, entries: map<string, Entry>, k: Key)
  {
    && WellFormed(k)
    && match k
       case TitleRow(title, kind, id) =>
         id in entries && title != "" && title == o.normalize(entries[id].metadata.title) && kind == entries[id].kind
       case ExternalIdRow(ns, value, id) =>
         id in entries && HasClaim(entries[id].claims, ExternalId(ns, value))
       case _ => false
  }

  ghost predicate IndexInv(o: Options, st: State)
  {
    && (forall id :: id in st.entries ==> EntryOk(o, id, st.entries[id]))
    && (forall id :: id in st.entries ==> Rows(o, st.entries[id]) <= st.index)
    && (forall k :: k in st.index ==> Backed(o, st.entries, k))
  }

  ghost predicate MappingOk(st: State, slot: Slot)
    requires slot in st.mappings
  {
    var m := st.mappings[slot];
    && slot.provider != "" && slot.nativeId != ""
    && m.generation >= 1
    && m.entry in st.entries
    && st.entries[m.entry].kind == m.proof.kind
    && forall id :: id in m.proof.ids ==> Supplied(st.entries[m.entry].claims, id, slot.provider)
  }

  ghost predicate MappingInv(st: State)
  {
    forall slot :: slot in st.mappings ==> MappingOk(st, slot)
  }

  /** Only slots with a provider and a native id are mapped. */
  ghost predicate NamedSlots(mappings: map<Slot, Mapping>)
  {
    forall slot :: slot in mappings ==> slot.provider != "" && slot.nativeId != ""
  }

  lemma MappedSlotsAreNamed(st: State)
    requires MappingInv(st)
    ensures NamedSlots(st.mappings)
  {
    forall slot | slot in st.mappings ensures slot.provider != "" && slot.nativeId != "" {
      assert MappingOk(st, slot);
    }
  }

  /** An alias exists exactly when its generation is superseded, and names a
      stored entry. */
  ghost predicate AliasOk(st: State, a: AliasAt)
  {
    && (a in st.aliases <==> a.slot in st.mappings && 1 <= a.generation < st.mappings[a.slot].generation)
    && (a in st.aliases ==> st.aliases[a] in st.entries)
  }

  ghost predicate AliasInv(st: State)
  {
    forall a :: AliasOk(st, a)
  }

  ghost predicate Inv(o: Options, st: State)
  {
    IndexInv(o, st) && MappingInv(st) && AliasInv(st)
  }

  // --- entries only grow

  /** Kind, title and year stay; people, claims and suppliers are only added. */
  ghost predicate EntryGrown(a: Entry, b: Entry)
  {
    && a.id == b.id && a.kind == b.kind
    && a.metadata.title == b.metadata.title && a.metadata.year == b.metadata.year
    && a.metadata.directors <= b.metadata.directors
    && a.metadata.cast <= b.metadata.cast
    && (a.metadata.language != "" ==> a.metadata.language == b.metadata.language)
    && (a.metadata.runtime != 0 ==> a.metadata.runtime == b.metadata.runtime)
    && Grown(a.claims, b.claims)
  }

  ghost predicate EntriesGrown(a: map<string, Entry>, b: map<string, Entry>)
  {
    forall id :: id in a ==> id in b && EntryGrown(a[id], b[id])
  }

  lemma AbsorbedGrown(e: Entry, item: CatalogueItem, provider: string)
    ensures EntryGrown(e, Absorbed(e, item, provider))
  {
    UnionClaimsGuarantee(e.claims, item.ids, provider);
    UnionStringsMembers(e.metadata.directors, item.metadata.directors);
    UnionStringsMembers(e.metadata.cast, item.metadata.cast);
  }

  lemma WithEntryGrows(o: Options, st: State, e: Entry)
    requires e.id in st.entries ==> EntryGrown(st.entries[e.id], e)
    ensures EntriesGrown(st.entries, WithEntry(o, st, e).entries)
  {
    forall id | id in st.entries ensures EntryGrown(st.entries[id], WithEntry(o, st, e).entries[id]) {
      if id != e.id {
        EntryGrownReflexive(st.entries[id]);
      }
    }
  }

  lemma EntryGrownReflexive(e: Entry)
    ensures EntryGrown(e, e)
  {
  }

  lemma EntriesGrownReflexive(st: State)
    ensures EntriesGrown(st.entries, st.entries)
  {
    forall id | id in st.entries ensures EntryGrown(st.entries[id], st.entries[id]) {
      EntryGrownReflexive(st.entries[id]);
    }
  }

  lemma PlacedGrows(o: Options, st: State, id: string, item: CatalogueItem, provider: string)
    requires id in st.entries ==> st.entries[id].id == id
    ensures EntriesGrown(st.entries, Placed(o, st, id, item, provider).entries)
  {
    if id in st.entries {
      AbsorbedGrown(st.entries[id], item, provider);
    }
    WithEntryGrows(o, st, if id in st.entries then Absorbed(st.entries[id], item, provider) else Found(id, item, provider));
  }

  lemma NextGrowsEntries(o: Options, st: State, c: Call)
    requires IndexInv(o, st)
    ensures EntriesGrown(st.entries, Next(o, st, c).entries)
  {
    if c.out == Rejected || c.out.status == Unchanged {
      EntriesGrownReflexive(st);
    } else {
      assert c.out.entry in st.entries ==> EntryOk(o, c.out.entry, st.entries[c.out.entry]);
      PlacedGrows(o, st, c.out.entry, c.item, c.provider);
    }
  }

  // --- every resolution preserves the invariant

  /** Merged material is well formed and lists the provider under every id. */
  lemma MergedEntryOk(o: Options, id: string, e: Entry, item: CatalogueItem, provider: string)
    requires EntryOk(o, id, e) && item.Bytes()
    ensures EntryOk(o, id, Absorbed(e, item, provider))
    ensures forall x :: x in item.ids && x.Asserted() ==> Supplied(Absorbed(e, item, provider).claims, x, provider)
  {
    UnionClaimsGuarantee(e.claims, item.ids, provider);
    MergedBytes(e.claims, item, provider);
  }

  lemma MergedBytes(base: seq<Claim>, item: CatalogueItem, provider: string)
    requires item.Bytes()
    requires forall i :: 0 <= i < |base| ==> IsBytes(base[i].id.namespace) && IsBytes(base[i].id.value)
    ensures var r := UnionClaims(base, item.ids, provider);
      forall i :: 0 <= i < |r| ==> IsBytes(r[i].id.namespace) && IsBytes(r[i].id.value)
  {
    UnionClaimsGuarantee(base, item.ids, provider);
    var r := UnionClaims(base, item.ids, provider);
    forall i | 0 <= i < |r| ensures IsBytes(r[i].id.namespace) && IsBytes(r[i].id.value) {
      if i < |base| {
        assert r[i].id == base[i].id;
      } else {
        assert r[i].id in item.ids;
      }
    }
  }

  lemma FoundEntryOk(o: Options, id: string, item: CatalogueItem, provider: string)
    requires item.Valid() && item.Bytes() && id != "" && '/' !in id && NormalizesToBytes(o, item.metadata.title)
    ensures EntryOk(o, id, Found(id, item, provider))
    ensures forall x :: x in item.ids && x.Asserted() ==> Supplied(Found(id, item, provider).claims, x, provider)
  {
    UnionClaimsGuarantee([], item.ids, provider);
    MergedBytes([], item, provider);
  }

  /** Storing a grown or brand-new entry with its rows keeps the index exact. */
  lemma WithEntryKeepsIndex(o: Options, st: State, e: Entry)
    requires IndexInv(o, st) && EntryOk(o, e.id, e)
    requires e.id in st.entries ==> EntryGrown(st.entries[e.id], e)
    ensures IndexInv(o, WithEntry(o, st, e))
  {
    var post := WithEntry(o, st, e);
    forall k | k in post.index ensures Backed(o, post.entries, k) {
      if k in st.index {
        BackedStays(o, st.entries, e, k);
      } else {
        RowsBacked(o, post.entries, e, k);
      }
    }
  }

  lemma BackedStays(o: Options, entries: map<string, Entry>, e: Entry, k: Key)
    requires Backed(o, entries, k)
    requires e.id in entries ==> EntryGrown(entries[e.id], e)
    ensures Backed(o, entries[e.id := e], k)
  {
    if k.ExternalIdRow? && k.id == e.id {
      var i :| 0 <= i < |entries[e.id].claims| && entries[e.id].claims[i].id == ExternalId(k.namespace, k.value);
      assert e.claims[i].id == ExternalId(k.namespace, k.value);
    }
  }

  lemma RowsBacked(o: Options, entries: map<string, Entry>, e: Entry, k: Key)
    requires EntryOk(o, e.id, e) && e.id in entries && entries[e.id] == e && k in Rows(o, e)
    ensures Backed(o, entries, k)
  {
    if k.ExternalIdRow? {
      var i :| 0 <= i < |e.claims| && k == ExternalIdRow(e.claims[i].id.namespace, e.claims[i].id.value, e.id);
      assert e.claims[i].id == ExternalId(k.namespace, k.value);
    }
  }

  lemma MappingsSurviveGrowth(st: State, entries: map<string, Entry>, index: set<Key>)
    requires MappingInv(st)
    requires forall id :: id in st.entries ==> id in entries && EntryGrown(st.entries[id], entries[id])
    ensures MappingInv(st.(entries := entries, index := index))
  {
    forall slot | slot in st.mappings ensures MappingOk(st.(entries := entries, index := index), slot) {
      var m := st.mappings[slot];
      assert MappingOk(st, slot);
      forall id | id in m.proof.ids ensures Supplied(entries[m.entry].claims, id, slot.provider) {
        SuppliedStays(st.entries[m.entry].claims, entries[m.entry].claims, id, slot.provider);
      }
    }
  }

  lemma AliasesSurviveGrowth(st: State, entries: map<string, Entry>, index: set<Key>)
    requires AliasInv(st) && st.entries.Keys <= entries.Keys
    ensures AliasInv(st.(entries := entries, index := index))
  {
    forall a ensures AliasOk(st.(entries := entries, index := index), a) {
      assert AliasOk(st, a);
    }
  }

  lemma RemappedKeepsMappings(st: State, slot: Slot, entry: string, proof: Proof, conflictId: string)
    requires slot.provider != "" && slot.nativeId != ""
    requires MappingInv(st) && entry in st.entries && st.entries[entry].kind == proof.kind
    requires forall x :: x in proof.ids ==> Supplied(st.entries[entry].claims, x, slot.provider)
    ensures MappingInv(Remapped(st, slot, entry, proof, conflictId))
  {
    var post := Remapped(st, slot, entry, proof, conflictId);
    assert post.entries == st.entries;
    if slot in st.mappings {
      assert MappingOk(st, slot);
    }
    forall other | other in post.mappings ensures MappingOk(post, other) {
      if other != slot {
        assert MappingOk(st, other);
      }
    }
  }

  lemma RemappedKeepsAliases(st: State, slot: Slot, entry: string, proof: Proof, conflictId: string)
    requires MappingInv(st) && AliasInv(st) && entry in st.entries
    ensures AliasInv(Remapped(st, slot, entry, proof, conflictId))
  {
    var post := Remapped(st, slot, entry, proof, conflictId);
    assert slot in st.mappings ==> MappingOk(st, slot);
    forall a ensures AliasOk(post, a) {
      assert AliasOk(st, a);
      if a.slot == slot {
        assert a == AliasAt(slot, a.generation);
      }
    }
  }

  /** The entry a resolution writes: well formed, of the item's kind, with the
      provider recorded under every id the item asserts. */
  lemma WrittenEntry(o: Options, st: State, c: Call) returns (e: Entry)
    requires IndexInv(o, st) && Accepted(c) && c.item.Bytes() && NormalizesToBytes(o, c.item.metadata.title)
    requires Allowed(o, st, c) && c.out.status != Unchanged
    ensures e == if c.out.entry in st.entries then Absorbed(st.entries[c.out.entry], c.item, c.provider)
                 else Found(c.out.entry, c.item, c.provider)
    ensures EntryOk(o, e.id, e) && e.id == c.out.entry && e.kind == c.item.kind
    ensures forall x :: x in c.item.ids ==> Supplied(e.claims, x, c.provider)
    ensures e.id in st.entries ==> EntryGrown(st.entries[e.id], e)
  {
    if c.out.entry in st.entries {
      e := Absorbed(st.entries[c.out.entry], c.item, c.provider);
      AbsorbedGrown(st.entries[c.out.entry], c.item, c.provider);
      MergedEntryOk(o, c.out.entry, st.entries[c.out.entry], c.item, c.provider);
    } else {
      e := Found(c.out.entry, c.item, c.provider);
      FoundEntryOk(o, c.out.entry, c.item, c.provider);
    }
  }

  lemma PlacingLeavesMappings(o: Options, st: State, c: Call)
    requires c.out.Resolved?
    ensures var mid := Placed(o, st, c.out.entry, c.item, c.provider);
      mid.mappings == st.mappings && mid.aliases == st.aliases && mid.conflicts == st.conflicts
  {
  }

  /** Every allowed resolution of Go-string material preserves the invariant. */
  lemma NextKeepsInv(o: Options, st: State, c: Call)
    requires Inv(o, st) && Allowed(o, st, c)
    requires c.item.Bytes() && NormalizesToBytes(o, c.item.metadata.title)
    ensures Inv(o, Next(o, st, c))
  {
    if c.out.Resolved? && c.out.status != Unchanged {
      var e := WrittenEntry(o, st, c);
      var mid := WithEntry(o, st, e);
      WithEntryKeepsIndex(o, st, e);
      MappingsSurviveGrowth(st, mid.entries, mid.index) by {
        WithEntryGrows(o, st, e);
      }
      AliasesSurviveGrowth(st, mid.entries, mid.index);
      RemappedKeepsMappings(mid, c.ItemSlot(), c.out.entry, c.ItemProof(), c.conflictId);
      RemappedKeepsAliases(mid, c.ItemSlot(), c.out.entry, c.ItemProof(), c.conflictId);
    }
  }
}
