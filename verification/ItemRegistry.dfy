/** The registry as the source runs it: store rows updated step by step, and an
    index-driven search proved to agree with a scan of every entry. */
module ItemRegistry {
  import Strings
  import opened Optional
  import opened Keys
  import opened Identity
  import opened Claims
  import opened RegistrySpec
  import opened RegistryRuns

  /** The row is one an external-ID listing for one of these ids would hit. */
  ghost predicate InSomeBucket(index: set<Key>, ids: seq<ExternalId>, id: string)
  {
    exists x :: x in ids && ExternalIdRow(x.namespace, x.value, id) in index
  }

  /** The external-ID buckets hold exactly the entries sharing an id. */
  lemma BucketsAreCorroboration(o: Options, st: State, item: CatalogueItem, id: string)
    requires IndexInv(o, st) && item.Valid() && id in st.entries
    ensures InSomeBucket(st.index, item.ids, id) <==> Corroborate(item.ids, st.entries[id].View().ids)
  {
    var e := st.entries[id];
    var held := e.View().ids;
    assert EntryOk(o, id, e);
    if InSomeBucket(st.index, item.ids, id) {
      var x :| x in item.ids && ExternalIdRow(x.namespace, x.value, id) in st.index;
      assert Backed(o, st.entries, ExternalIdRow(x.namespace, x.value, id));
      var i :| 0 <= i < |e.claims| && e.claims[i].id == ExternalId(x.namespace, x.value);
      assert held[i] == x && x in held;
    }
    if Corroborate(item.ids, held) {
      var x :| x in item.ids && x in held && x.Asserted();
      var i :| 0 <= i < |held| && held[i] == x;
      assert e.claims[i].id == x;
      assert ExternalIdRow(x.namespace, x.value, id) in Rows(o, e);
    }
  }

  /** Every row names a stored entry, so a listed id is one. */
  lemma BucketIdsAreEntries(o: Options, st: State, ids: seq<ExternalId>, id: string)
    requires IndexInv(o, st) && InSomeBucket(st.index, ids, id)
    ensures id in st.entries
  {
    var x :| x in ids && ExternalIdRow(x.namespace, x.value, id) in st.index;
    assert Backed(o, st.entries, ExternalIdRow(x.namespace, x.value, id));
  }

  /** Inside the external-ID buckets merging and corroboration coincide. */
  lemma BucketVerdict(o: Options, st: State, item: CatalogueItem, id: string)
    requires IndexInv(o, st) && item.Valid()
    ensures CorroboratedBy(o, st, item, id) ==> InSomeBucket(st.index, item.ids, id)
    ensures InSomeBucket(st.index, item.ids, id) ==> (MergesWith(o, st, item, id) <==> CorroboratedBy(o, st, item, id))
  {
    if id in st.entries {
      BucketsAreCorroboration(o, st, item, id);
    } else if InSomeBucket(st.index, item.ids, id) {
      BucketIdsAreEntries(o, st, item.ids, id);
    }
  }

  /** A merge that shares no id lies in the item's own title bucket. */
  lemma HeuristicMergeInTitleBucket(o: Options, st: State, item: CatalogueItem, id: string)
    requires IndexInv(o, st) && MergesWith(o, st, item, id) && !CorroboratedBy(o, st, item, id)
    ensures TitleRow(o.normalize(item.metadata.title), item.kind, id) in st.index
  {
    var e := st.entries[id];
    assert EntryOk(o, id, e);
    assert o.TitleEq(item.metadata.title, e.metadata.title);
    assert TitleRow(o.normalize(item.metadata.title), item.kind, id) in Rows(o, e);
  }

  class Registry {
    const opts: Options
    const owner: string
    var entries: map<string, Entry>
    var mappings: map<Slot, Mapping>
    var aliases: map<AliasAt, string>
    var conflicts: map<string, Conflict>
    var index: set<Key>
    /** Merge-conflict events handed to the caller: who, and off which entry. */
    var events: seq<Conflict>
    /** Every resolution so far, with its outcome. */
    ghost var history: seq<Call>

    function View(): State
      reads this
    {
      State(entries, mappings, aliases, conflicts, index)
    }

    ghost predicate Valid()
      reads this
    {
      Run(opts, history) && View() == After(opts, history) && forall title :: NormalizesToBytes(opts, title)
    }

    lemma Reached()
      requires Valid()
      ensures Inv(opts, View())
    {
      ReachableInv(opts, history);
    }

    constructor (o: Options, owner: string)
      requires forall title :: NormalizesToBytes(o, title)
      ensures Valid() && View() == EMPTY && opts == o && this.owner == owner && events == [] && history == []
    {
      opts, this.owner := o, owner;
      entries, mappings, aliases, conflicts := map[], map[], map[], map[];
      index, events, history := {}, [], [];
    }

    /** Store.List: every key under the prefix, in no particular order. */
    method List(prefix: string) returns (keys: seq<string>)
      requires forall k :: k in index ==> WellFormed(k)
      ensures forall k :: k in index && prefix <= Render(k) ==> Render(k) in keys
      ensures forall key :: key in keys ==> exists k :: k in index && Render(k) == key && prefix <= key
    {
      keys := [];
      var rest := index;
      while rest != {}
        invariant rest <= index
        invariant forall k :: k in index - rest && prefix <= Render(k) ==> Render(k) in keys
        invariant forall key :: key in keys ==> exists k :: k in index && Render(k) == key && prefix <= key
        decreases rest
      {
        var k :| k in rest;
        rest := rest - {k};
        if prefix <= Render(k) {
          keys := keys + [Render(k)];
        }
      }
    }

    /** The entry ids at the tails of the keys, first sight only. */
    method AppendUnique(order: seq<string>, keys: seq<string>) returns (all: seq<string>)
      ensures forall id :: id in all <==> id in order || exists key :: key in keys && PathTail(key) == id
    {
      all := order;
      for i := 0 to |keys|
        invariant forall id :: id in all ==> id in order || exists key :: key in keys && PathTail(key) == id
        invariant forall id :: id in order ==> id in all
        invariant forall j :: 0 <= j < i ==> PathTail(keys[j]) in all
      {
        assert keys[i] in keys;
        if PathTail(keys[i]) !in all {
          all := all + [PathTail(keys[i])];
        }
      }
    }

    /** Listing one external-ID prefix yields exactly that pair's entries. */
    method ListExternal(x: ExternalId, order: seq<string>) returns (all: seq<string>)
      requires Valid() && IsBytes(x.namespace) && IsBytes(x.value)
      ensures forall id :: id in all <==> id in order || ExternalIdRow(x.namespace, x.value, id) in index
    {
      Reached();
      assert forall k :: k in index ==> Backed(opts, entries, k);
      var prefix := ExternalIdPrefix(x.namespace, x.value);
      var keys := List(prefix);
      all := AppendUnique(order, keys);
      forall k | k in index && prefix <= Render(k)
        ensures k.ExternalIdRow? && k.namespace == x.namespace && k.value == x.value && PathTail(Render(k)) == k.id
      {
        ExternalIdListing(x.namespace, x.value, k);
        IndexRowTail(k);
      }
      forall id | ExternalIdRow(x.namespace, x.value, id) in index ensures id in all {
        var k := ExternalIdRow(x.namespace, x.value, id);
        ExternalIdListing(x.namespace, x.value, k);
        IndexRowTail(k);
        assert Render(k) in keys;
      }
    }

    method ListTitle(title: string, kind: int) returns (all: seq<string>)
      requires Valid() && IsBytes(title)
      ensures forall id :: id in all <==> TitleRow(title, kind, id) in index
    {
      Reached();
      assert forall k :: k in index ==> Backed(opts, entries, k);
      var prefix := TitlePrefix(title, kind);
      var keys := List(prefix);
      all := AppendUnique([], keys);
      forall k | k in index && prefix <= Render(k)
        ensures k.TitleRow? && k.title == title && k.kind == kind && PathTail(Render(k)) == k.id
      {
        TitleListing(title, kind, k);
        IndexRowTail(k);
      }
      forall id | TitleRow(title, kind, id) in index ensures id in all {
        var k := TitleRow(title, kind, id);
        TitleListing(title, kind, k);
        IndexRowTail(k);
        assert Render(k) in keys;
      }
    }

    /** The first listed entry the item merges into. */
    method FirstMerging(order: seq<string>, item: CatalogueItem) returns (target: Option<string>)
      ensures target.Some? ==> target.value in order && MergesWith(opts, View(), item, target.value)
      ensures target.None? ==> forall id :: id in order ==> !MergesWith(opts, View(), item, id)
    {
      for i := 0 to |order|
        invariant forall j :: 0 <= j < i ==> !MergesWith(opts, View(), item, order[j])
      {
        if order[i] in entries && opts.Decide(item.Live(), entries[order[i]].View()).merge {
          return Some(order[i]);
        }
      }
      return None;
    }

    /** The index-driven search agrees with a scan of every entry: it finds
        nothing exactly when nothing merges, and an id-corroborated entry
        whenever any entry of the item's kind shares an external id. */
    method FindTarget(item: CatalogueItem) returns (target: Option<string>)
      requires Valid() && item.Valid() && item.Bytes()
      ensures target.Some? ==> IsTarget(opts, View(), item, target.value)
      ensures target.None? <==> NothingMerges(opts, View(), item)
    {
      var order := [];
      for i := 0 to |item.ids|
        invariant forall id :: id in order <==> InSomeBucket(index, item.ids[..i], id)
      {
        order := ListExternal(item.ids[i], order);
        assert item.ids[..i + 1] == item.ids[..i] + [item.ids[i]];
      }
      assert item.ids[..|item.ids|] == item.ids;
      target := FirstMerging(order, item);
      Reached();
      forall id
        ensures CorroboratedBy(opts, View(), item, id) ==> id in order
        ensures id in order ==> (MergesWith(opts, View(), item, id) <==> CorroboratedBy(opts, View(), item, id))
      {
        BucketVerdict(opts, View(), item, id);
      }
      if target.Some? {
        return;
      }
      assert NormalizesToBytes(opts, item.metadata.title);
      order := ListTitle(opts.normalize(item.metadata.title), item.kind);
      target := FirstMerging(order, item);
      forall id | MergesWith(opts, View(), item, id) ensures id in order {
        HeuristicMergeInTitleBucket(opts, View(), item, id);
      }
    }

    /** Stores an entry record and its index rows. */
    method PutEntry(e: Entry)
      modifies this`entries, this`index
      ensures View() == WithEntry(opts, old(View()), e)
    {
      entries := entries[e.id := e];
      ghost var title := opts.normalize(e.metadata.title);
      ghost var titleRows := if title == "" then {} else {TitleRow(title, e.kind, e.id)};
      ghost var before := index;
      if opts.normalize(e.metadata.title) != "" {
        index := index + {TitleRow(opts.normalize(e.metadata.title), e.kind, e.id)};
      }
      ghost var mid := index;
      for i := 0 to |e.claims|
        invariant entries == old(entries)[e.id := e]
        invariant index == mid + (set j | 0 <= j < i && e.claims[j].id.Asserted()
            :: ExternalIdRow(e.claims[j].id.namespace, e.claims[j].id.value, e.id))
      {
        if e.claims[i].id.Asserted() {
          index := index + {ExternalIdRow(e.claims[i].id.namespace, e.claims[i].id.value, e.id)};
        }
      }
      assert mid == before + titleRows;
      assert index == before + Rows(opts, e);
    }

    /** Folds an item's ids and signals into the entry it merged into. */
    method Absorb(id: string, item: CatalogueItem, provider: string)
      requires id in entries && entries[id].id == id
      modifies this`entries, this`index
      ensures View() == WithEntry(opts, old(View()), Absorbed(old(entries[id]), item, provider))
      ensures id in entries && Absorbs(old(entries[id]), entries[id], item)
    {
      AbsorbedMeaning(entries[id], item, provider);
      var e := entries[id];
      var claims := MergeClaims(e.claims, item.ids, provider);
      var directors := MergeStrings(e.metadata.directors, item.metadata.directors);
      var cast := MergeStrings(e.metadata.cast, item.metadata.cast);
      var language := if e.metadata.language == "" then item.metadata.language else e.metadata.language;
      var runtime := if e.metadata.runtime == 0 then item.metadata.runtime else e.metadata.runtime;
      PutEntry(e.(claims := claims,
        metadata := e.metadata.(directors := directors, cast := cast, language := language, runtime := runtime)));
    }

    /** Founds a new entry from the item's full material. */
    method Mint(item: CatalogueItem, provider: string) returns (id: string)
      modifies this`entries, this`index
      ensures Unused(old(View()), id)
      ensures View() == WithEntry(opts, old(View()), Found(id, item, provider))
      ensures id in entries && Founds(entries[id], item)
    {
      id := Strings.NewName(entries.Keys);
      FoundMeaning(id, item, provider);
      var directors := MergeStrings([], item.metadata.directors);
      var cast := MergeStrings([], item.metadata.cast);
      var claims := MergeClaims([], item.ids, provider);
      PutEntry(Entry(id, item.kind, item.metadata.(directors := directors, cast := cast), claims));
    }

    /** Finds or founds the entry the item belongs to and stores its material. */
    method Place(item: CatalogueItem, provider: string) returns (id: string, status: Status)
      requires Valid() && item.Valid() && item.Bytes()
      modifies this`entries, this`index
      ensures SearchResult(opts, old(View()), item, id)
      ensures status == if id in old(entries) then Attached else Created
      ensures View() == Placed(opts, old(View()), id, item, provider)
    {
      var target := FindTarget(item);
      if target.None? {
        id := Mint(item, provider);
        status := Created;
      } else {
        id := target.value;
        Reached();
        assert EntryOk(opts, id, entries[id]);
        Absorb(id, item, provider);
        status := Attached;
      }
    }

    /** Points the item at its entry, retiring the old generation to an alias
        and recording a conflict when the entry changed. */
    method Remap(slot: Slot, entry: string, proof: Proof)
      returns (moved: bool, superseded: string, ghost conflictId: string)
      modifies this`mappings, this`aliases, this`conflicts, this`events
      ensures moved <==> slot in old(mappings) && old(mappings)[slot].entry != entry
      ensures superseded == if moved then old(mappings)[slot].entry else ""
      ensures moved ==> conflictId !in old(conflicts)
      ensures View() == Remapped(old(View()), slot, entry, proof, conflictId)
      ensures events == old(events) + (if moved && owner != "" then [Conflict(slot, superseded)] else [])
    {
      moved, superseded, conflictId := false, "", "";
      var generation := 1;
      if slot in mappings {
        var cur := mappings[slot];
        if entry != cur.entry {
          moved, superseded := true, cur.entry;
          var id := Strings.NewName(conflicts.Keys);
          conflictId := id;
          conflicts := conflicts[id := Conflict(slot, cur.entry)];
          if owner != "" {
            events := events + [Conflict(slot, cur.entry)];
          }
        }
        aliases := aliases[AliasAt(slot, cur.generation) := cur.entry];
        generation := cur.generation + 1;
      }
      mappings := mappings[slot := Mapping(entry, generation, proof)];
    }

    /** Identity work proper: first sight, or the stored proof went stale. */
    method ResolveAnew(provider: string, item: CatalogueItem) returns (out: Outcome, ghost conflictId: string)
      requires Valid() && item.Valid() && item.Bytes()
      modifies this`entries, this`index, this`mappings, this`aliases, this`conflicts, this`events
      ensures out.Resolved? && SearchResult(opts, old(View()), item, out.entry)
      ensures var call := Call(provider, item, out, conflictId);
        && Reported(old(View()), call)
        && View() == Remapped(Placed(opts, old(View()), out.entry, item, provider),
                              call.ItemSlot(), out.entry, call.ItemProof(), conflictId)
      ensures events == old(events) +
        (if out.recycled && owner != "" then [Conflict(Slot(provider, item.nativeId), out.superseded)] else [])
    {
      var slot := Slot(provider, item.nativeId);
      var entry, status := Place(item, provider);
      if slot in mappings && entry == mappings[slot].entry {
        status := Updated;
      }
      var moved, superseded;
      moved, superseded, conflictId := Remap(slot, entry, ProofOf(item.Live()));
      out := Resolved(entry, status, moved, superseded);
    }

    /** Maps one provider item onto an entry; what that means for the entries, the
        item's slot and the answer, field by field, is `Explains`. */
    method Resolve(provider: string, item: CatalogueItem) returns (out: Outcome, ghost conflictId: string)
      requires Valid() && item.Bytes()
      modifies this
      ensures Valid()
      ensures Allowed(opts, old(View()), Call(provider, item, out, conflictId))
      ensures View() == Next(opts, old(View()), Call(provider, item, out, conflictId))
      ensures history == old(history) + [Call(provider, item, out, conflictId)]
      ensures events == old(events) +
        (if out.Resolved? && out.recycled && owner != "" then [Conflict(Slot(provider, item.nativeId), out.superseded)] else [])
      ensures Explains(opts, old(View()), View(), provider, item, out)
    {
      ghost var pre := View();
      assert NormalizesToBytes(opts, item.metadata.title);
      Explained(opts, history, provider, item);
      out, conflictId := Settle(provider, item);
      Extend(opts, history, Call(provider, item, out, conflictId));
      history := history + [Call(provider, item, out, conflictId)];
    }

    /** A pure lookup when the stored proof still matches, a new search
        otherwise; an invalid item or a blank provider is rejected. */
    method Settle(provider: string, item: CatalogueItem) returns (out: Outcome, ghost conflictId: string)
      requires Valid() && item.Bytes()
      modifies this`entries, this`index, this`mappings, this`aliases, this`conflicts, this`events
      ensures Allowed(opts, old(View()), Call(provider, item, out, conflictId))
      ensures View() == Next(opts, old(View()), Call(provider, item, out, conflictId))
      ensures events == old(events) +
        (if out.Resolved? && out.recycled && owner != "" then [Conflict(Slot(provider, item.nativeId), out.superseded)] else [])
    {
      conflictId := "";
      if !item.Valid() || provider == "" {
        return Rejected, conflictId;
      }
      var slot := Slot(provider, item.nativeId);
      if slot in mappings && opts.SameProof(mappings[slot].proof, ProofOf(item.Live())) {
        return Resolved(mappings[slot].entry, Unchanged, false, ""), conflictId;
      }
      out, conflictId := ResolveAnew(provider, item);
    }

    /** The entry an item currently maps to; no identity work. A blank
        provider or native id is an error. */
    method Lookup(provider: string, nativeId: string) returns (ok: bool, found: Option<string>)
      requires NamedSlots(mappings)
      ensures ok <==> provider != "" && nativeId != ""
      ensures found.Some? <==> Slot(provider, nativeId) in mappings
      ensures found.Some? ==> ok && found.value == mappings[Slot(provider, nativeId)].entry
    {
      if provider == "" || nativeId == "" {
        return false, None;
      }
      if Slot(provider, nativeId) in mappings {
        return true, Some(mappings[Slot(provider, nativeId)].entry);
      }
      return true, None;
    }

    /** The entry a past generation of an item's mapping pointed to: the one its
        g-th identity work settled on, as long as there was a later one. */
    method Alias(provider: string, nativeId: string, generation: nat) returns (found: Option<string>)
      requires Valid()
      ensures var placed := Placements(history, Slot(provider, nativeId));
        found == if 1 <= generation < |placed| then Some(placed[generation - 1]) else None
    {
      AliasIsPlacement(opts, history, Slot(provider, nativeId), generation);
      if AliasAt(Slot(provider, nativeId), generation) in aliases {
        return Some(aliases[AliasAt(Slot(provider, nativeId), generation)]);
      }
      return None;
    }
  }
}
