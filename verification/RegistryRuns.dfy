/** What holds of the registry over every run of resolutions. */
module RegistryRuns {
  import opened Strings
  import opened Identity
  import opened Claims
  import opened RegistrySpec

  function After(o: Options, calls: seq<Call>): State
  {
    if calls == [] then EMPTY else Next(o, After(o, calls[..|calls| - 1]), calls[|calls| - 1])
  }

  /** The k-th call is one the registry allows after those before it. */
  ghost predicate Legal(o: Options, calls: seq<Call>, k: nat)
    requires k < |calls|
  {
    && Allowed(o, After(o, calls[..k]), calls[k])
    && calls[k].item.Bytes() && NormalizesToBytes(o, calls[k].item.metadata.title)
  }

  /** A possible history of a registry that started empty. */
  ghost predicate Run(o: Options, calls: seq<Call>)
  {
    forall k :: 0 <= k < |calls| ==> Legal(o, calls, k)
  }

  lemma Extend(o: Options, calls: seq<Call>, c: Call)
    ensures After(o, calls + [c]) == Next(o, After(o, calls), c)
    ensures Run(o, calls + [c]) <==>
      && Run(o, calls) && Allowed(o, After(o, calls), c)
      && c.item.Bytes() && NormalizesToBytes(o, c.item.metadata.title)
  {
    var more := calls + [c];
    assert more[..|calls|] == calls;
    forall k | 0 <= k < |calls| ensures Legal(o, more, k) == Legal(o, calls, k) {
      assert more[..k] == calls[..k];
    }
    if Run(o, more) {
      forall k | 0 <= k < |calls| ensures Legal(o, calls, k) {
        assert Legal(o, more, k);
      }
      assert Legal(o, more, |calls|);
    }
  }

  /** Every reachable state satisfies the registry invariant: mappings point at
      stored entries of their proof's kind, each id of the proof is claimed
      there with the provider as supplier, and the index rows are exact. */
  lemma {:induction false} ReachableInv(o: Options, calls: seq<Call>)
    requires Run(o, calls)
    ensures Inv(o, After(o, calls))
  {
    if calls != [] {
      var front, last := calls[..|calls| - 1], calls[|calls| - 1];
      assert calls == front + [last];
      Extend(o, front, last);
      ReachableInv(o, front);
      NextKeepsInv(o, After(o, front), last);
    }
  }

  // --- entries

  lemma EntryGrownTransitive(a: Entry, b: Entry, c: Entry)
    requires EntryGrown(a, b) && EntryGrown(b, c)
    ensures EntryGrown(a, c)
  {
    forall i | 0 <= i < |a.claims|
      ensures a.claims[i].id == c.claims[i].id && forall s :: s in a.claims[i].suppliers ==> s in c.claims[i].suppliers
    {
      assert b.claims[i].id == c.claims[i].id;
    }
  }

  /** Entries are never deleted, keep kind, title and year, and only gain
      claims, suppliers, directors and cast. */
  lemma {:induction false} EntriesOnlyGrow(o: Options, calls: seq<Call>, k: nat)
    requires Run(o, calls) && k <= |calls|
    ensures EntriesGrown(After(o, calls[..k]).entries, After(o, calls).entries)
  {
    if k == |calls| {
      assert calls[..k] == calls;
      EntriesGrownReflexive(After(o, calls));
    } else {
      var front := calls[..|calls| - 1];
      assert front[..k] == calls[..k];
      assert calls == front + [calls[|calls| - 1]];
      Extend(o, front, calls[|calls| - 1]);
      EntriesOnlyGrow(o, front, k);
      ReachableInv(o, front);
      NextGrowsEntries(o, After(o, front), calls[|calls| - 1]);
      var a, b, c := After(o, calls[..k]).entries, After(o, front).entries, After(o, calls).entries;
      forall id | id in a ensures id in c && EntryGrown(a[id], c[id]) {
        EntryGrownTransitive(a[id], b[id], c[id]);
      }
    }
  }

  // --- when a resolution is a pure lookup

  /** The call did identity work for this provider item. */
  predicate Works(c: Call, provider: string, nativeId: string)
  {
    c.out.Resolved? && c.out.status != Unchanged && c.provider == provider && c.item.nativeId == nativeId
  }

  /** The j-th call is the last that did identity work for the provider item. */
  ghost predicate LastWork(calls: seq<Call>, j: int, provider: string, nativeId: string)
  {
    && 0 <= j < |calls| && Works(calls[j], provider, nativeId)
    && forall i :: j < i < |calls| ==> !Works(calls[i], provider, nativeId)
  }

  /** Equal kind, year and normalized title, and the same ids asserted. */
  ghost predicate SameMaterial(o: Options, a: CatalogueItem, b: CatalogueItem)
  {
    && a.kind == b.kind && a.metadata.year == b.metadata.year
    && o.normalize(a.metadata.title) == o.normalize(b.metadata.title) && SameIds(a.ids, b.ids)
  }

  predicate Holds(m: Mapping, c: Call)
  {
    && c.out.Resolved? && m.entry == c.out.entry
    && m.proof == Proof(c.item.kind, c.item.metadata.title, c.item.metadata.year, c.item.ids)
  }

  /** A mapping holds the entry and the material of the last call that did
      identity work for its item, and there is one when such a call was made. */
  ghost predicate Remembers(mappings: map<Slot, Mapping>, calls: seq<Call>, provider: string, nativeId: string)
  {
    var slot := Slot(provider, nativeId);
    if slot in mappings then
      exists j :: LastWork(calls, j, provider, nativeId) && Holds(mappings[slot], calls[j])
    else forall c :: c in calls ==> !Works(c, provider, nativeId)
  }

  lemma StepRemembers(o: Options, st: State, calls: seq<Call>, c: Call, provider: string, nativeId: string)
    requires Allowed(o, st, c) && Remembers(st.mappings, calls, provider, nativeId)
    ensures Remembers(Next(o, st, c).mappings, calls + [c], provider, nativeId)
  {
    var more, slot, post := calls + [c], Slot(provider, nativeId), Next(o, st, c).mappings;
    assert more[|calls|] == c;
    if Works(c, provider, nativeId) {
      assert LastWork(more, |calls|, provider, nativeId) && Holds(post[slot], more[|calls|]);
    } else {
      assert slot in post <==> slot in st.mappings;
      if slot in st.mappings {
        assert post[slot] == st.mappings[slot];
        var j :| LastWork(calls, j, provider, nativeId) && Holds(st.mappings[slot], calls[j]);
        LastWorkStays(calls, c, j, provider, nativeId);
      }
    }
  }

  lemma LastWorkStays(calls: seq<Call>, c: Call, j: int, provider: string, nativeId: string)
    requires LastWork(calls, j, provider, nativeId) && !Works(c, provider, nativeId)
    ensures LastWork(calls + [c], j, provider, nativeId) && (calls + [c])[j] == calls[j]
  {
  }

  lemma {:induction false} RunRemembers(o: Options, calls: seq<Call>, provider: string, nativeId: string)
    requires Run(o, calls)
    ensures Remembers(After(o, calls).mappings, calls, provider, nativeId)
  {
    if calls != [] {
      var front, last := calls[..|calls| - 1], calls[|calls| - 1];
      assert calls == front + [last];
      Extend(o, front, last);
      RunRemembers(o, front, provider, nativeId);
      StepRemembers(o, After(o, front), front, last, provider, nativeId);
    }
  }

  /** A resolution is a pure lookup exactly when the last identity work for its
      item was done on the same material: a changed kind, year, normalized title
      or id always makes it search again. The lookup answers that work's entry. */
  lemma QuietIffSameMaterial(o: Options, calls: seq<Call>, c: Call)
    requires Run(o, calls + [c]) && c.out.Resolved?
    ensures c.out.status == Unchanged <==>
      exists j :: LastWork(calls, j, c.provider, c.item.nativeId) && SameMaterial(o, calls[j].item, c.item)
    ensures c.out.status == Unchanged ==>
      exists j :: LastWork(calls, j, c.provider, c.item.nativeId) && c.out.entry == calls[j].out.entry
  {
    Extend(o, calls, c);
    RunRemembers(o, calls, c.provider, c.item.nativeId);
    var st := After(o, calls);
    if c.ItemSlot() in st.mappings {
      var j :| LastWork(calls, j, c.provider, c.item.nativeId) && Holds(st.mappings[c.ItemSlot()], calls[j]);
      LastWorkUnique(calls, j, c.provider, c.item.nativeId);
      assert Settled(o, st, c) <==> SameMaterial(o, calls[j].item, c.item);
    }
  }

  lemma LastWorkUnique(calls: seq<Call>, j: int, provider: string, nativeId: string)
    requires LastWork(calls, j, provider, nativeId)
    ensures forall i :: LastWork(calls, i, provider, nativeId) ==> i == j
  {
  }

  // --- what an entry's metadata is made of

  /** The call settled on the entry, with or without identity work. */
  predicate SettledOn(c: Call, entry: string)
  {
    c.out.Resolved? && c.out.entry == entry
  }

  /** The call did identity work and brought its material to the entry. */
  predicate Brings(c: Call, entry: string)
  {
    SettledOn(c, entry) && c.out.status != Unchanged
  }

  lemma {:induction false} SettledEntriesExist(o: Options, calls: seq<Call>, c: Call)
    requires Run(o, calls) && c in calls && c.out.Resolved?
    ensures c.out.entry in After(o, calls).entries
  {
    var front, last := calls[..|calls| - 1], calls[|calls| - 1];
    assert calls == front + [last];
    Extend(o, front, last);
    ReachableInv(o, front);
    if c in front {
      SettledEntriesExist(o, front, c);
      NextGrowsEntries(o, After(o, front), last);
    } else {
      SettlesOnAnEntry(o, After(o, front), last);
    }
  }

  lemma SettlesOnAnEntry(o: Options, st: State, c: Call)
    requires IndexInv(o, st) && MappingInv(st) && Allowed(o, st, c) && c.out.Resolved?
    ensures c.out.entry in Next(o, st, c).entries
  {
    if Settled(o, st, c) {
      assert MappingOk(st, c.ItemSlot());
    } else {
      assert c.out.entry in st.entries ==> EntryOk(o, c.out.entry, st.entries[c.out.entry]);
      PlacedMeaning(o, st, c.out.entry, c.item, c.provider);
    }
  }

  /** What one more call does to an entry. */
  lemma StepOnEntry(o: Options, st: State, c: Call, entry: string)
    requires Inv(o, st) && Allowed(o, st, c)
    ensures var post := Next(o, st, c).entries;
      && (Brings(c, entry) && entry in st.entries ==> entry in post && Absorbs(st.entries[entry], post[entry], c.item))
      && (Brings(c, entry) && entry !in st.entries ==> c.out.status == Created && entry in post && Founds(post[entry], c.item))
      && (!Brings(c, entry) ==> (entry in post <==> entry in st.entries) && (entry in post ==> post[entry] == st.entries[entry]))
  {
    if Accepted(c) && !Settled(o, st, c) {
      assert c.out.entry in st.entries ==> EntryOk(o, c.out.entry, st.entries[c.out.entry]);
      PlacedMeaning(o, st, c.out.entry, c.item, c.provider);
      assert c.ItemSlot() in st.mappings ==> MappingOk(st, c.ItemSlot());
    }
  }

  /** What a call that did identity work says, by the entries before and after it:
      it joined an entry its item belongs to, one sharing an id if any does, and
      otherwise founded a new one, since the item belonged to none. */
  ghost predicate Placing(o: Options, before: map<string, Entry>, after: map<string, Entry>, item: CatalogueItem, entry: string)
  {
    && entry in after
    && (forall id :: id != entry ==> (id in after <==> id in before) && (id in after ==> after[id] == before[id]))
    && (entry in before ==> Absorbs(before[entry], after[entry], item) && Belongs(o, item, before[entry]))
    && (entry in before && (exists id :: id in before && before[id].kind == item.kind && SharesClaim(item, before[id])) ==>
          SharesClaim(item, before[entry]))
    && (entry !in before ==> Founds(after[entry], item) && forall id :: id in before ==> !Belongs(o, item, before[id]))
  }

  /** What a call that did identity work leaves at its item's slot: the next
      generation there, with the item's material; the former one as an alias; and a
      conflict record exactly when the entry changed. The outcome says which. */
  ghost predicate Repointed(a: State, b: State, slot: Slot, item: CatalogueItem, out: Outcome)
    requires out.Resolved?
  {
    var proof := Proof(item.kind, item.metadata.title, item.metadata.year, item.ids);
    if slot !in a.mappings then
      && b.mappings == a.mappings[slot := Mapping(out.entry, 1, proof)] && b.aliases == a.aliases && b.conflicts == a.conflicts
      && !out.recycled && out.superseded == "" && out.status == if out.entry in a.entries then Attached else Created
    else
      var was := a.mappings[slot];
      && b.mappings == a.mappings[slot := Mapping(out.entry, was.generation + 1, proof)]
      && b.aliases == a.aliases[AliasAt(slot, was.generation) := was.entry]
      && if was.entry == out.entry then
           b.conflicts == a.conflicts && !out.recycled && out.superseded == "" && out.status == Updated
         else
           && (exists id :: id !in a.conflicts && b.conflicts == a.conflicts[id := Conflict(slot, was.entry)])
           && out.recycled && out.superseded == was.entry && out.status == if out.entry in a.entries then Attached else Created
  }

  lemma WorkRepoints(o: Options, st: State, c: Call)
    requires Inv(o, st) && Allowed(o, st, c) && c.out.Resolved? && c.out.status != Unchanged
    ensures Repointed(st, Next(o, st, c), Slot(c.provider, c.item.nativeId), c.item, c.out)
  {
    PlacingLeavesMappings(o, st, c);
    RemappedRepoints(st, Placed(o, st, c.out.entry, c.item, c.provider), c);
  }

  lemma RemappedRepoints(st: State, mid: State, c: Call)
    requires mid.mappings == st.mappings && mid.aliases == st.aliases && mid.conflicts == st.conflicts
    requires c.out.Resolved? && Reported(st, c)
    ensures Repointed(st, Remapped(mid, c.ItemSlot(), c.out.entry, c.ItemProof(), c.conflictId),
                      Slot(c.provider, c.item.nativeId), c.item, c.out)
  {
  }

  /** The search result, in the fields of items and entries. */
  lemma SearchMeaning(o: Options, st: State, item: CatalogueItem, entry: string)
    requires SearchResult(o, st, item, entry)
    ensures entry in st.entries ==> Belongs(o, item, st.entries[entry])
    ensures entry in st.entries && (exists id :: id in st.entries && st.entries[id].kind == item.kind && SharesClaim(item, st.entries[id]))
      ==> SharesClaim(item, st.entries[entry])
    ensures entry !in st.entries ==> forall id :: id in st.entries ==> !Belongs(o, item, st.entries[id])
  {
    forall id ensures MergesWith(o, st, item, id) <==> id in st.entries && Belongs(o, item, st.entries[id])
      ensures CorroboratedBy(o, st, item, id) <==>
        id in st.entries && item.kind == st.entries[id].kind != UNSPECIFIED && SharesClaim(item, st.entries[id])
    {
      MergesIffBelongs(o, st, item, id);
    }
  }

  lemma WorkPlaces(o: Options, st: State, c: Call)
    requires Inv(o, st) && Allowed(o, st, c) && c.out.Resolved? && c.out.status != Unchanged
    ensures Placing(o, st.entries, Next(o, st, c).entries, c.item, c.out.entry)
    ensures c.out.status == Created ==> c.out.entry !in st.entries
  {
    assert c.out.entry in st.entries ==> EntryOk(o, c.out.entry, st.entries[c.out.entry]);
    PlacedMeaning(o, st, c.out.entry, c.item, c.provider);
    SearchMeaning(o, st, c.item, c.out.entry);
  }

  /** What a resolution did and said. An item is rejected exactly when it or its
      provider is unnamed, untitled, of no kind, or asserts half an id; a new entry
      holds the item's material; a pure lookup changes nothing. */
  ghost predicate Explains(o: Options, a: State, b: State, provider: string, item: CatalogueItem, out: Outcome)
  {
    var slot := Slot(provider, item.nativeId);
    && (out.Rejected? <==>
          || provider == "" || item.nativeId == "" || item.kind == UNSPECIFIED || item.metadata.title == ""
          || exists x :: x in item.ids && (x.namespace == "" || x.value == ""))
    && (out.Rejected? ==> a == b)
    && (out.Resolved? && out.status == Unchanged ==> a == b && slot in a.mappings && out.entry == a.mappings[slot].entry)
    && (out.Resolved? && out.status != Unchanged ==>
          Placing(o, a.entries, b.entries, item, out.entry) && Repointed(a, b, slot, item, out))
    && (out.Resolved? && out.status == Created ==>
          out.entry !in a.entries && out.entry in b.entries && Founds(b.entries[out.entry], item))
  }

  /** Every answer the registry may give a valid history is so explained. */
  lemma Explained(o: Options, calls: seq<Call>, provider: string, item: CatalogueItem)
    requires Run(o, calls)
    ensures forall out, id ::
      var st, c := After(o, calls), Call(provider, item, out, id);
      Allowed(o, st, c) ==> Explains(o, st, Next(o, st, c), provider, item, out)
  {
    ReachableInv(o, calls);
    forall out, id | Allowed(o, After(o, calls), Call(provider, item, out, id))
      ensures Explains(o, After(o, calls), Next(o, After(o, calls), Call(provider, item, out, id)), provider, item, out)
    {
      CallExplained(o, After(o, calls), Call(provider, item, out, id));
    }
  }

  lemma CallExplained(o: Options, st: State, c: Call)
    requires Inv(o, st) && Allowed(o, st, c)
    ensures Explains(o, st, Next(o, st, c), c.provider, c.item, c.out)
  {
    c.item.ValidMeaning();
    if c.out.Resolved? && c.out.status != Unchanged {
      WorkPlaces(o, st, c);
      WorkRepoints(o, st, c);
    }
  }

  lemma LastStepOnEntry(o: Options, front: seq<Call>, last: Call, entry: string)
    requires Run(o, front + [last])
    ensures var before, post := After(o, front).entries, After(o, front + [last]).entries;
      && (Brings(last, entry) && entry in before ==> entry in post && Absorbs(before[entry], post[entry], last.item))
      && (Brings(last, entry) && entry !in before ==> last.out.status == Created && entry in post && Founds(post[entry], last.item))
      && (!Brings(last, entry) ==> (entry in post <==> entry in before) && (entry in post ==> post[entry] == before[entry]))
  {
    Extend(o, front, last);
    ReachableInv(o, front);
    StepOnEntry(o, After(o, front), last, entry);
  }

  /** Every entry was created by the first call ever settled on it, and its kind,
      title and year are for good those of that call's item. */
  lemma {:induction false} FoundedByFirst(o: Options, calls: seq<Call>, entry: string) returns (k: nat)
    requires Run(o, calls) && entry in After(o, calls).entries
    ensures k < |calls| && SettledOn(calls[k], entry) && calls[k].out.status == Created
    ensures forall j :: 0 <= j < k ==> !SettledOn(calls[j], entry)
    ensures var e, item := After(o, calls).entries[entry], calls[k].item;
      e.kind == item.kind && e.metadata.title == item.metadata.title && e.metadata.year == item.metadata.year
  {
    var front, last := calls[..|calls| - 1], calls[|calls| - 1];
    assert calls == front + [last];
    Extend(o, front, last);
    LastStepOnEntry(o, front, last, entry);
    if entry in After(o, front).entries {
      k := FoundedByFirst(o, front, entry);
    } else {
      k := |front|;
      forall j | 0 <= j < k ensures !SettledOn(calls[j], entry) {
        if SettledOn(front[j], entry) {
          SettledEntriesExist(o, front, front[j]);
        }
      }
    }
  }

  ghost function DirectorsOf(entries: map<string, Entry>, entry: string): seq<string>
  {
    if entry in entries then entries[entry].metadata.directors else []
  }

  ghost function CastOf(entries: map<string, Entry>, entry: string): seq<string>
  {
    if entry in entries then entries[entry].metadata.cast else []
  }

  /** An entry's people are exactly those the calls that brought it material
      named: none lost, none invented. */
  lemma {:induction false} PeopleExact(o: Options, calls: seq<Call>, entry: string, person: string)
    requires Run(o, calls)
    ensures person in DirectorsOf(After(o, calls).entries, entry)
       <==> exists c :: c in calls && Brings(c, entry) && person in c.item.metadata.directors
    ensures person in CastOf(After(o, calls).entries, entry)
       <==> exists c :: c in calls && Brings(c, entry) && person in c.item.metadata.cast
  {
    if calls != [] {
      var front, last := calls[..|calls| - 1], calls[|calls| - 1];
      assert calls == front + [last];
      Extend(o, front, last);
      PeopleExact(o, front, entry, person);
      LastStepOnEntry(o, front, last, entry);
      assert forall c :: c in calls <==> c in front || c == last;
    }
  }

  /** No person, claim or supplier of an entry is listed twice. */
  ghost predicate ListedOnce(entries: map<string, Entry>)
  {
    forall id :: id in entries ==> OnceEach(entries[id])
  }

  ghost predicate OnceEach(e: Entry)
  {
    NoDuplicates(e.metadata.directors) && NoDuplicates(e.metadata.cast) && Tidy(e.claims)
  }

  lemma PlacedOnceEach(o: Options, st: State, id: string, item: CatalogueItem, provider: string)
    requires ListedOnce(st.entries)
    ensures ListedOnce(Placed(o, st, id, item, provider).entries)
  {
    var e := if id in st.entries then st.entries[id] else Entry(id, item.kind, item.metadata.(directors := [], cast := []), []);
    UnionStringsDistinct(e.metadata.directors, item.metadata.directors);
    UnionStringsDistinct(e.metadata.cast, item.metadata.cast);
    UnionClaimsTidy(e.claims, item.ids, provider);
  }

  lemma {:induction false} EntriesListOnce(o: Options, calls: seq<Call>)
    requires Run(o, calls)
    ensures ListedOnce(After(o, calls).entries)
  {
    if calls != [] {
      var front, last := calls[..|calls| - 1], calls[|calls| - 1];
      RunOfFront(o, calls);
      EntriesListOnce(o, front);
      if last.out.Resolved? && last.out.status != Unchanged {
        PlacedOnceEach(o, After(o, front), last.out.entry, last.item, last.provider);
      }
    }
  }

  /** `held` is the first known value the bringing calls read, `blank` if none. */
  ghost predicate FirstKnown<T>(calls: seq<Call>, entry: string, read: Metadata -> T, blank: T, held: T)
  {
    if held == blank then forall c :: c in calls && Brings(c, entry) ==> read(c.item.metadata) == blank
    else
      exists k :: 0 <= k < |calls| && Brings(calls[k], entry) && read(calls[k].item.metadata) == held
        && forall j :: 0 <= j < k && Brings(calls[j], entry) ==> read(calls[j].item.metadata) == blank
  }

  lemma FirstKnownStep<T>(front: seq<Call>, last: Call, entry: string, read: Metadata -> T, blank: T, held: T, next: T)
    requires FirstKnown(front, entry, read, blank, held)
    requires next == if Brings(last, entry) && held == blank then read(last.item.metadata) else held
    ensures FirstKnown(front + [last], entry, read, blank, next)
  {
    var calls := front + [last];
    if held != blank {
      var k :| 0 <= k < |front| && Brings(front[k], entry) && read(front[k].item.metadata) == held
        && forall j :: 0 <= j < k && Brings(front[j], entry) ==> read(front[j].item.metadata) == blank;
      assert calls[k] == front[k] && forall j :: 0 <= j < k ==> calls[j] == front[j];
    } else {
      assert forall j :: 0 <= j < |front| ==> calls[j] == front[j] && front[j] in front;
      assert calls[|front|] == last;
      assert forall c :: c in calls ==> c in front || c == last;
    }
  }

  ghost function LanguageOf(entries: map<string, Entry>, entry: string): string
  {
    if entry in entries then entries[entry].metadata.language else ""
  }

  ghost function RuntimeOf(entries: map<string, Entry>, entry: string): nat
  {
    if entry in entries then entries[entry].metadata.runtime else 0
  }

  /** An entry's original language and runtime are the first known ones among the
      calls that brought it material. */
  lemma {:induction false} SignalsAreFirstKnown(o: Options, calls: seq<Call>, entry: string)
    requires Run(o, calls)
    ensures FirstKnown(calls, entry, (m: Metadata) => m.language, "", LanguageOf(After(o, calls).entries, entry))
    ensures FirstKnown(calls, entry, (m: Metadata) => m.runtime, 0, RuntimeOf(After(o, calls).entries, entry))
  {
    if calls != [] {
      var front, last := calls[..|calls| - 1], calls[|calls| - 1];
      assert calls == front + [last];
      Extend(o, front, last);
      SignalsAreFirstKnown(o, front, entry);
      LastStepOnEntry(o, front, last, entry);
      var a, b := After(o, front).entries, After(o, calls).entries;
      FirstKnownStep(front, last, entry, (m: Metadata) => m.language, "", LanguageOf(a, entry), LanguageOf(b, entry));
      FirstKnownStep(front, last, entry, (m: Metadata) => m.runtime, 0, RuntimeOf(a, entry), RuntimeOf(b, entry));
    }
  }

  // --- provenance

  /** The call asserted an id under this key and landed on this entry. */
  predicate Asserts(c: Call, entry: string, key: string, supplier: string)
  {
    c.out.Resolved? && c.out.entry == entry && c.provider == supplier && key in IdKeys(c.item.ids)
  }

  ghost predicate Recorded(entries: map<string, Entry>, entry: string, key: string, supplier: string)
  {
    entry in entries && Listed(entries[entry].claims, key, supplier)
  }

  ghost predicate Listed(claims: seq<Claim>, key: string, supplier: string)
  {
    exists i :: 0 <= i < |claims| && IdKey(claims[i].id) == key && supplier in claims[i].suppliers
  }

  lemma SettledIsRecorded(o: Options, st: State, c: Call, key: string)
    requires MappingInv(st) && Settled(o, st, c) && key in IdKeys(c.item.ids)
    ensures Recorded(st.entries, st.mappings[c.ItemSlot()].entry, key, c.provider)
  {
    var m := st.mappings[c.ItemSlot()];
    assert MappingOk(st, c.ItemSlot());
    assert key in multiset(IdKeys(c.item.ids)) && key in multiset(IdKeys(m.proof.ids));
    KeysOf(m.proof.ids, key);
    var id :| id in m.proof.ids && id.Asserted() && IdKey(id) == key;
    assert Supplied(st.entries[m.entry].claims, id, c.provider);
  }

  lemma UnionLists(base: seq<Claim>, ids: seq<ExternalId>, provider: string, key: string, supplier: string)
    requires forall i :: 0 <= i < |ids| ==> ids[i].Asserted()
    ensures Listed(UnionClaims(base, ids, provider), key, supplier)
       <==> Listed(base, key, supplier) || (provider == supplier && key in IdKeys(ids))
  {
    var r := UnionClaims(base, ids, provider);
    UnionClaimsGuarantee(base, ids, provider);
    KeysOf(ids, key);
    if Listed(base, key, supplier) {
      var i :| 0 <= i < |base| && IdKey(base[i].id) == key && supplier in base[i].suppliers;
      assert r[i].id == base[i].id && supplier in r[i].suppliers;
    }
    if provider == supplier && key in IdKeys(ids) {
      var x :| x in ids && x.Asserted() && IdKey(x) == key;
      assert Supplied(r, x, supplier);
    }
    if Listed(r, key, supplier) {
      var i :| 0 <= i < |r| && IdKey(r[i].id) == key && supplier in r[i].suppliers;
      if i < |base| && supplier in base[i].suppliers {
        assert IdKey(base[i].id) == key;
      } else {
        var x :| x in ids && IdKey(x) == IdKey(r[i].id);
        assert x.Asserted();
      }
    }
  }

  lemma PlacedRecords(o: Options, st: State, id: string, item: CatalogueItem, provider: string, entry: string,
                      key: string, supplier: string)
    requires item.Valid() && (id in st.entries ==> st.entries[id].id == id)
    ensures Recorded(Placed(o, st, id, item, provider).entries, entry, key, supplier)
       <==> Recorded(st.entries, entry, key, supplier) || (entry == id && provider == supplier && key in IdKeys(item.ids))
  {
    UnionLists(if id in st.entries then st.entries[id].claims else [], item.ids, provider, key, supplier);
  }

  lemma StepRecords(o: Options, st: State, c: Call, entry: string, key: string, supplier: string)
    requires IndexInv(o, st) && MappingInv(st) && Allowed(o, st, c)
    ensures Recorded(Next(o, st, c).entries, entry, key, supplier)
       <==> Recorded(st.entries, entry, key, supplier) || Asserts(c, entry, key, supplier)
  {
    if Accepted(c) && Settled(o, st, c) {
      if Asserts(c, entry, key, supplier) {
        SettledIsRecorded(o, st, c, key);
      }
    } else if Accepted(c) {
      assert c.out.entry in st.entries ==> EntryOk(o, c.out.entry, st.entries[c.out.entry]);
      PlacedRecords(o, st, c.out.entry, c.item, c.provider, entry, key, supplier);
    }
  }

  /** Some call of the run asserted the key on the entry for the supplier. */
  ghost predicate AssertedBy(calls: seq<Call>, entry: string, key: string, supplier: string)
  {
    exists c :: c in calls && Asserts(c, entry, key, supplier)
  }

  lemma AssertedInFrontOrLast(front: seq<Call>, last: Call, entry: string, key: string, supplier: string)
    ensures AssertedBy(front + [last], entry, key, supplier)
       <==> AssertedBy(front, entry, key, supplier) || Asserts(last, entry, key, supplier)
  {
    assert last in front + [last];
  }

  lemma LastStepRecords(o: Options, front: seq<Call>, last: Call, entry: string, key: string, supplier: string)
    requires Run(o, front + [last])
    ensures Recorded(After(o, front + [last]).entries, entry, key, supplier)
       <==> Recorded(After(o, front).entries, entry, key, supplier) || Asserts(last, entry, key, supplier)
  {
    Extend(o, front, last);
    ReachableInv(o, front);
    StepRecords(o, After(o, front), last, entry, key, supplier);
  }

  lemma ProvenanceStep(o: Options, front: seq<Call>, last: Call, entry: string, key: string, supplier: string)
    requires Run(o, front + [last])
    requires Recorded(After(o, front).entries, entry, key, supplier)
       <==> AssertedBy(front, entry, key, supplier)
    ensures Recorded(After(o, front + [last]).entries, entry, key, supplier)
       <==> AssertedBy(front + [last], entry, key, supplier)
  {
    LastStepRecords(o, front, last, entry, key, supplier);
    AssertedInFrontOrLast(front, last, entry, key, supplier);
  }

  /** Provenance is exact: a provider is listed under an assertion of an entry
      if and only if one of its items asserted that id and landed there. */
  lemma {:induction false} ProvenanceExact(o: Options, calls: seq<Call>, entry: string, key: string, supplier: string)
    requires Run(o, calls)
    ensures Recorded(After(o, calls).entries, entry, key, supplier)
       <==> AssertedBy(calls, entry, key, supplier)
  {
    if calls != [] {
      var front, last := calls[..|calls| - 1], calls[|calls| - 1];
      assert calls == front + [last];
      Extend(o, front, last);
      ProvenanceExact(o, front, entry, key, supplier);
      ProvenanceStep(o, front, last, entry, key, supplier);
    }
  }

  predicate NulFree(c: Call)
  {
    forall x :: x in c.item.ids ==> '\0' !in x.namespace
  }

  ghost predicate NulFreeClaims(entries: map<string, Entry>)
  {
    forall id, i :: id in entries && 0 <= i < |entries[id].claims| ==> '\0' !in entries[id].claims[i].id.namespace
  }

  lemma PlacedNulFree(o: Options, st: State, c: Call)
    requires NulFreeClaims(st.entries) && NulFree(c) && c.out.Resolved?
    requires c.out.entry in st.entries ==> st.entries[c.out.entry].id == c.out.entry
    ensures NulFreeClaims(Placed(o, st, c.out.entry, c.item, c.provider).entries)
  {
    var base := if c.out.entry in st.entries then st.entries[c.out.entry].claims else [];
    var r := UnionClaims(base, c.item.ids, c.provider);
    forall i | 0 <= i < |r| ensures '\0' !in r[i].id.namespace {
      ClaimIsInvolved(base, c.item.ids, c.provider, i);
    }
  }

  ghost predicate NulFreeProofs(st: State)
  {
    forall slot, x :: slot in st.mappings && x in st.mappings[slot].proof.ids ==> '\0' !in x.namespace
  }

  lemma StepNulFreeClaims(o: Options, st: State, c: Call)
    requires NulFreeClaims(st.entries) && NulFree(c) && IndexInv(o, st)
    ensures NulFreeClaims(Next(o, st, c).entries)
  {
    if c.out.Resolved? && c.out.status != Unchanged {
      assert c.out.entry in st.entries ==> EntryOk(o, c.out.entry, st.entries[c.out.entry]);
      PlacedNulFree(o, st, c);
    }
  }

  lemma StepNulFreeProofs(o: Options, st: State, c: Call)
    requires NulFreeProofs(st) && NulFree(c)
    ensures NulFreeProofs(Next(o, st, c))
  {
    if c.out.Resolved? && c.out.status != Unchanged {
      var post := Next(o, st, c);
      forall slot, x | slot in post.mappings && x in post.mappings[slot].proof.ids ensures '\0' !in x.namespace {
        if slot != c.ItemSlot() {
          assert post.mappings[slot] == st.mappings[slot];
        }
      }
    }
  }

  lemma LastStepNulFree(o: Options, front: seq<Call>, last: Call)
    requires Run(o, front + [last]) && NulFree(last)
    requires NulFreeClaims(After(o, front).entries) && NulFreeProofs(After(o, front))
    ensures NulFreeClaims(After(o, front + [last]).entries) && NulFreeProofs(After(o, front + [last]))
  {
    Extend(o, front, last);
    ReachableInv(o, front);
    StepNulFreeClaims(o, After(o, front), last);
    StepNulFreeProofs(o, After(o, front), last);
  }

  lemma {:induction false} ReachableNulFree(o: Options, calls: seq<Call>)
    requires Run(o, calls) && forall c :: c in calls ==> NulFree(c)
    ensures NulFreeClaims(After(o, calls).entries) && NulFreeProofs(After(o, calls))
  {
    if calls != [] {
      var front, last := calls[..|calls| - 1], calls[|calls| - 1];
      assert calls == front + [last];
      Extend(o, front, last);
      ReachableNulFree(o, front);
      LastStepNulFree(o, front, last);
    }
  }

  /** With NUL-free namespaces every id of a mapping's proof is literally a
      claim of the entry it maps to, listing the mapping's provider. */
  lemma ProofIdsAreClaims(o: Options, calls: seq<Call>, slot: Slot, id: ExternalId)
    requires Run(o, calls) && forall c :: c in calls ==> NulFree(c)
    requires slot in After(o, calls).mappings && id in After(o, calls).mappings[slot].proof.ids
    ensures var st := After(o, calls);
      st.mappings[slot].entry in st.entries && HasClaim(st.entries[st.mappings[slot].entry].claims, id)
      && Listed(st.entries[st.mappings[slot].entry].claims, IdKey(id), slot.provider)
  {
    ReachableNulFree(o, calls);
    ReachableInv(o, calls);
    var st := After(o, calls);
    assert MappingOk(st, slot);
    var claims := st.entries[st.mappings[slot].entry].claims;
    assert Supplied(claims, id, slot.provider);
    var i :| 0 <= i < |claims| && IdKey(claims[i].id) == IdKey(id) && slot.provider in claims[i].suppliers;
    IdKeyInjective(claims[i].id, id);
  }

  // --- the history of one item

  /** The entries the item was placed on, in order: one per resolution of it
      that did identity work. */
  function Placements(calls: seq<Call>, slot: Slot): seq<string>
  {
    if calls == [] then []
    else
      var front, last := Placements(calls[..|calls| - 1], slot), calls[|calls| - 1];
      if last.out.Resolved? && last.out.status != Unchanged && last.ItemSlot() == slot
      then front + [last.out.entry] else front
  }

  /** The entries the alias table holds for generations 1..n. */
  function Past(aliases: map<AliasAt, string>, slot: Slot, n: nat): seq<string>
  {
    seq(n, i requires 0 <= i < n => if AliasAt(slot, i + 1) in aliases then aliases[AliasAt(slot, i + 1)] else "")
  }

  /** What the alias table and the current mapping say the item had. */
  function History(st: State, slot: Slot): seq<string>
  {
    if slot !in st.mappings || st.mappings[slot].generation == 0 then []
    else Past(st.aliases, slot, st.mappings[slot].generation - 1) + [st.mappings[slot].entry]
  }

  lemma GenerationsStartAtOne(st: State, slot: Slot)
    requires MappingInv(st)
    ensures slot in st.mappings ==> st.mappings[slot].generation >= 1
  {
    assert slot in st.mappings ==> MappingOk(st, slot);
  }

  lemma RemappedHistory(st: State, at: Slot, entry: string, proof: Proof, conflictId: string, slot: Slot)
    requires at in st.mappings ==> st.mappings[at].generation >= 1
    ensures History(Remapped(st, at, entry, proof, conflictId), slot)
         == History(st, slot) + (if slot == at then [entry] else [])
  {
    var post := Remapped(st, at, entry, proof, conflictId);
    if slot == at && at in st.mappings {
      var g := st.mappings[at].generation;
      var before := Past(st.aliases, at, g - 1) + [st.mappings[at].entry];
      assert Past(post.aliases, at, g) == before;
    } else if slot != at && slot in st.mappings && st.mappings[slot].generation > 0 {
      var n := st.mappings[slot].generation - 1;
      assert Past(post.aliases, slot, n) == Past(st.aliases, slot, n);
    }
  }

  lemma HistoryReads(a: State, b: State, slot: Slot)
    requires a.mappings == b.mappings && a.aliases == b.aliases
    ensures History(a, slot) == History(b, slot)
  {
  }

  lemma StepHistory(o: Options, st: State, c: Call, slot: Slot)
    requires c.ItemSlot() in st.mappings ==> st.mappings[c.ItemSlot()].generation >= 1
    ensures History(Next(o, st, c), slot) == History(st, slot) +
      (if c.out.Resolved? && c.out.status != Unchanged && c.ItemSlot() == slot then [c.out.entry] else [])
  {
    if c.out.Resolved? && c.out.status != Unchanged {
      var mid := Placed(o, st, c.out.entry, c.item, c.provider);
      PlacingLeavesMappings(o, st, c);
      HistoryReads(mid, st, slot);
      RemappedHistory(mid, c.ItemSlot(), c.out.entry, c.ItemProof(), c.conflictId, slot);
    }
  }

  /** Mapping history is conserved: generations 1..g-1 in the alias table
      followed by the current mapping are exactly the entries the item was ever
      placed on, none lost, repeated or reordered. */
  lemma {:induction false} HistoryConserved(o: Options, calls: seq<Call>, slot: Slot)
    requires Run(o, calls)
    ensures History(After(o, calls), slot) == Placements(calls, slot)
  {
    if calls != [] {
      var front := calls[..|calls| - 1];
      assert calls == front + [calls[|calls| - 1]];
      Extend(o, front, calls[|calls| - 1]);
      HistoryConserved(o, front, slot);
      ReachableInv(o, front);
      GenerationsStartAtOne(After(o, front), calls[|calls| - 1].ItemSlot());
      StepHistory(o, After(o, front), calls[|calls| - 1], slot);
    }
  }

  /** The alias table holds exactly the superseded generations. */
  lemma AliasesAreSuperseded(o: Options, calls: seq<Call>, slot: Slot, g: nat)
    requires Run(o, calls)
    ensures AliasAt(slot, g) in After(o, calls).aliases <==> 1 <= g < |Placements(calls, slot)|
  {
    ReachableInv(o, calls);
    HistoryConserved(o, calls, slot);
    AliasesUpTo(After(o, calls), slot, g);
  }

  /** And each says where that generation was placed. */
  lemma AliasIsPlacement(o: Options, calls: seq<Call>, slot: Slot, g: nat)
    requires Run(o, calls)
    ensures var placed, aliases := Placements(calls, slot), After(o, calls).aliases;
      && (AliasAt(slot, g) in aliases <==> 1 <= g < |placed|)
      && (1 <= g < |placed| ==> aliases[AliasAt(slot, g)] == placed[g - 1])
  {
    AliasesAreSuperseded(o, calls, slot, g);
    HistoryConserved(o, calls, slot);
    if 1 <= g < |Placements(calls, slot)| {
      HistoryAt(After(o, calls), slot, g);
    }
  }

  lemma HistoryAt(st: State, slot: Slot, g: nat)
    requires 1 <= g < |History(st, slot)| && AliasAt(slot, g) in st.aliases
    ensures History(st, slot)[g - 1] == st.aliases[AliasAt(slot, g)]
  {
    assert History(st, slot)[g - 1] == Past(st.aliases, slot, st.mappings[slot].generation - 1)[g - 1];
  }

  lemma AliasesUpTo(st: State, slot: Slot, g: nat)
    requires MappingInv(st) && AliasInv(st)
    ensures AliasAt(slot, g) in st.aliases <==> 1 <= g < |History(st, slot)|
  {
    assert AliasOk(st, AliasAt(slot, g));
    assert slot in st.mappings ==> MappingOk(st, slot);
  }

  lemma StepKeepsAliases(o: Options, st: State, c: Call, a: AliasAt)
    requires AliasInv(st) && a in st.aliases
    ensures a in Next(o, st, c).aliases && Next(o, st, c).aliases[a] == st.aliases[a]
  {
    if c.out.Resolved? && c.out.status != Unchanged && c.ItemSlot() in st.mappings {
      assert AliasOk(st, AliasAt(c.ItemSlot(), st.mappings[c.ItemSlot()].generation));
    }
  }

  /** Once written, an alias never changes. */
  lemma {:induction false} AliasesArePermanent(o: Options, calls: seq<Call>, k: nat, a: AliasAt)
    requires Run(o, calls) && k <= |calls| && a in After(o, calls[..k]).aliases
    ensures a in After(o, calls).aliases && After(o, calls).aliases[a] == After(o, calls[..k]).aliases[a]
  {
    if k == |calls| {
      assert calls[..k] == calls;
    } else {
      var front := calls[..|calls| - 1];
      assert front[..k] == calls[..k];
      RunOfFront(o, calls);
      AliasesArePermanent(o, front, k, a);
      LastStepKeepsAliases(o, calls, a);
    }
  }

  lemma RunOfFront(o: Options, calls: seq<Call>)
    requires Run(o, calls) && calls != []
    ensures Run(o, calls[..|calls| - 1])
  {
    assert calls == calls[..|calls| - 1] + [calls[|calls| - 1]];
    Extend(o, calls[..|calls| - 1], calls[|calls| - 1]);
  }

  lemma LastStepKeepsAliases(o: Options, calls: seq<Call>, a: AliasAt)
    requires calls != [] && Run(o, calls[..|calls| - 1]) && a in After(o, calls[..|calls| - 1]).aliases
    ensures a in After(o, calls).aliases && After(o, calls).aliases[a] == After(o, calls[..|calls| - 1]).aliases[a]
  {
    ReachableInv(o, calls[..|calls| - 1]);
    StepKeepsAliases(o, After(o, calls[..|calls| - 1]), calls[|calls| - 1], a);
  }

  // --- conflict records

  ghost function ConflictsOf(conflicts: map<string, Conflict>, slot: Slot): set<string>
  {
    set id | id in conflicts && conflicts[id].slot == slot
  }

  /** How often consecutive entries of a history differ. */
  function Changes(history: seq<string>): nat
  {
    if |history| < 2 then 0
    else Changes(history[..|history| - 1]) + (if history[|history| - 2] == history[|history| - 1] then 0 else 1)
  }

  lemma RemappedConflicts(st: State, at: Slot, entry: string, proof: Proof, conflictId: string, slot: Slot)
    requires conflictId !in st.conflicts
    ensures var moved := at in st.mappings && st.mappings[at].entry != entry;
      |ConflictsOf(Remapped(st, at, entry, proof, conflictId).conflicts, slot)|
        == |ConflictsOf(st.conflicts, slot)| + (if at == slot && moved then 1 else 0)
  {
    var post := Remapped(st, at, entry, proof, conflictId).conflicts;
    if at in st.mappings && st.mappings[at].entry != entry && at == slot {
      assert ConflictsOf(post, slot) == ConflictsOf(st.conflicts, slot) + {conflictId};
    } else {
      assert ConflictsOf(post, slot) == ConflictsOf(st.conflicts, slot);
    }
  }

  lemma StepConflicts(o: Options, st: State, c: Call, slot: Slot)
    requires c.out.Resolved? && Moves(st, c) ==> c.out.status != Unchanged && c.conflictId !in st.conflicts
    ensures |ConflictsOf(Next(o, st, c).conflicts, slot)|
         == |ConflictsOf(st.conflicts, slot)| + (if c.ItemSlot() == slot && Moves(st, c) then 1 else 0)
  {
    if Moves(st, c) {
      RemappedConflicts(Placed(o, st, c.out.entry, c.item, c.provider), c.ItemSlot(), c.out.entry, c.ItemProof(), c.conflictId, slot);
    }
  }

  lemma StepChanges(st: State, c: Call, slot: Slot)
    requires slot in st.mappings ==> st.mappings[slot].generation >= 1
    requires c.out.Resolved? && c.ItemSlot() == slot
    ensures Changes(History(st, slot) + [c.out.entry]) == Changes(History(st, slot)) + (if Moves(st, c) then 1 else 0)
  {
    assert (History(st, slot) + [c.out.entry])[..|History(st, slot)|] == History(st, slot);
  }

  lemma AllowedMove(o: Options, st: State, c: Call)
    requires Allowed(o, st, c) && Moves(st, c)
    ensures c.out.status != Unchanged && c.conflictId !in st.conflicts
  {
  }

  lemma StepCount(o: Options, st: State, c: Call, slot: Slot)
    requires MappingInv(st)
    requires Moves(st, c) ==> c.out.status != Unchanged && c.conflictId !in st.conflicts
    requires |ConflictsOf(st.conflicts, slot)| == Changes(History(st, slot))
    ensures |ConflictsOf(Next(o, st, c).conflicts, slot)| == Changes(History(Next(o, st, c), slot))
  {
    GenerationsStartAtOne(st, c.ItemSlot());
    StepHistory(o, st, c, slot);
    StepConflicts(o, st, c, slot);
    if c.out.Resolved? && c.out.status != Unchanged && c.ItemSlot() == slot {
      assert slot in st.mappings ==> MappingOk(st, slot);
      StepChanges(st, c, slot);
    } else {
      assert History(Next(o, st, c), slot) == History(st, slot);
    }
  }

  lemma ConflictsStep(o: Options, front: seq<Call>, last: Call, slot: Slot)
    requires Run(o, front + [last])
    requires |ConflictsOf(After(o, front).conflicts, slot)| == Changes(History(After(o, front), slot))
    ensures |ConflictsOf(After(o, front + [last]).conflicts, slot)| == Changes(History(After(o, front + [last]), slot))
  {
    Extend(o, front, last);
    ReachableInv(o, front);
    if Moves(After(o, front), last) {
      AllowedMove(o, After(o, front), last);
    }
    StepCount(o, After(o, front), last, slot);
  }

  lemma {:induction false} ConflictsCountHistory(o: Options, calls: seq<Call>, slot: Slot)
    requires Run(o, calls)
    ensures |ConflictsOf(After(o, calls).conflicts, slot)| == Changes(History(After(o, calls), slot))
  {
    if calls == [] {
      assert ConflictsOf(EMPTY.conflicts, slot) == {};
    } else {
      var front, last := calls[..|calls| - 1], calls[|calls| - 1];
      assert calls == front + [last];
      Extend(o, front, last);
      ConflictsCountHistory(o, front, slot);
      ConflictsStep(o, front, last, slot);
    }
  }

  /** An item has one conflict record for each time it changed entry. */
  lemma ConflictsCountChanges(o: Options, calls: seq<Call>, slot: Slot)
    requires Run(o, calls)
    ensures |ConflictsOf(After(o, calls).conflicts, slot)| == Changes(Placements(calls, slot))
  {
    ConflictsCountHistory(o, calls, slot);
    HistoryConserved(o, calls, slot);
  }

  // --- stability

  /** Resolving other items never moves an item's mapping. */
  lemma {:induction false} OthersLeaveItAlone(o: Options, before: seq<Call>, others: seq<Call>, slot: Slot)
    requires forall c :: c in others ==> c.ItemSlot() != slot
    ensures var a, b := After(o, before), After(o, before + others);
      (slot in a.mappings <==> slot in b.mappings) && (slot in a.mappings ==> a.mappings[slot] == b.mappings[slot])
  {
    if others == [] {
      assert before + others == before;
    } else {
      var front, last := others[..|others| - 1], others[|others| - 1];
      assert before + others == (before + front) + [last];
      Extend(o, before + front, last);
      OthersLeaveItAlone(o, before, front, slot);
    }
  }

  /** After any interleaving of other items' resolutions, resolving an item
      again with the same identity material is a pure lookup: same entry,
      nothing stored. */
  lemma ResolveAgain(o: Options, before: seq<Call>, c: Call, others: seq<Call>, again: Call)
    requires Run(o, before + [c]) && Run(o, before + [c] + others + [again])
    requires c.out.Resolved?
    requires forall other :: other in others ==> other.ItemSlot() != c.ItemSlot()
    requires again.ItemSlot() == c.ItemSlot() && again.item.Valid() && o.SameProof(c.ItemProof(), again.ItemProof())
    ensures again.out == Resolved(c.out.entry, Unchanged, false, "")
    ensures After(o, before + [c] + others + [again]) == After(o, before + [c] + others)
  {
    Extend(o, before, c);
    OthersLeaveItAlone(o, before + [c], others, c.ItemSlot());
    Extend(o, before + [c] + others, again);
    var st := After(o, before + [c]);
    SameProofIsEquivalence(o, st.mappings[c.ItemSlot()].proof, c.ItemProof(), again.ItemProof());
  }

  // --- what a stretch of calls changes

  function Generation(st: State, slot: Slot): nat
  {
    if slot in st.mappings then st.mappings[slot].generation else 0
  }

  predicate Quiet(c: Call)
  {
    c.out == Rejected || c.out.status == Unchanged
  }

  lemma StepGeneration(o: Options, st: State, c: Call, slot: Slot)
    ensures Generation(Next(o, st, c), slot) ==
      Generation(st, slot) + (if !Quiet(c) && c.ItemSlot() == slot then 1 else 0)
  {
    if !Quiet(c) {
      PlacingLeavesMappings(o, st, c);
    }
  }

  lemma {:induction false} GenerationsGrow(o: Options, earlier: seq<Call>, later: seq<Call>, slot: Slot)
    requires earlier <= later
    ensures Generation(After(o, earlier), slot) <= Generation(After(o, later), slot)
  {
    if |earlier| < |later| {
      var front := later[..|later| - 1];
      GenerationsGrow(o, earlier, front, slot);
      StepGeneration(o, After(o, front), later[|later| - 1], slot);
    } else {
      assert later == earlier;
    }
  }

  lemma RunOfPrefix(o: Options, calls: seq<Call>, k: nat)
    requires Run(o, calls) && k <= |calls|
    ensures Run(o, calls[..k])
    ensures k < |calls| ==> Allowed(o, After(o, calls[..k]), calls[k])
  {
    forall i | 0 <= i < k ensures Legal(o, calls[..k], i) {
      assert Legal(o, calls, i) && calls[..k][..i] == calls[..i];
    }
    assert k < |calls| ==> Legal(o, calls, k);
  }

  lemma CallBumpsGeneration(o: Options, front: seq<Call>, c: Call)
    requires !Quiet(c)
    ensures Generation(After(o, front + [c]), c.ItemSlot()) == Generation(After(o, front), c.ItemSlot()) + 1
  {
    Extend(o, front, c);
    StepGeneration(o, After(o, front), c, c.ItemSlot());
  }

  /** A call that was not quiet shows in every later state. */
  lemma ChangeShows(o: Options, earlier: seq<Call>, later: seq<Call>, k: nat)
    requires earlier <= later && |earlier| <= k < |later| && !Quiet(later[k])
    ensures After(o, later) != After(o, earlier)
  {
    var slot, front, next := later[k].ItemSlot(), later[..k], later[..k + 1];
    assert next == front + [later[k]];
    GenerationsGrow(o, earlier, front, slot);
    CallBumpsGeneration(o, front, later[k]);
    GenerationsGrow(o, next, later, slot);
  }

  lemma {:induction false} QuietCallsChangeNothing(o: Options, earlier: seq<Call>, later: seq<Call>)
    requires earlier <= later && forall k :: |earlier| <= k < |later| ==> Quiet(later[k])
    ensures After(o, later) == After(o, earlier)
  {
    if |earlier| < |later| {
      QuietCallsChangeNothing(o, earlier, later[..|later| - 1]);
    } else {
      assert later == earlier;
    }
  }

  lemma QuietIffSettled(o: Options, st: State, c: Call)
    requires Allowed(o, st, c)
    ensures Quiet(c) <==> (Accepted(c) ==> Settled(o, st, c))
  {
  }

  /** A stretch of calls leaves the registry as it was exactly when every
      accepted call was settled before any of them. */
  lemma UnchangedIffSettled(o: Options, earlier: seq<Call>, later: seq<Call>)
    requires Run(o, later) && earlier <= later
    ensures After(o, later) == After(o, earlier)
       <==> forall k :: |earlier| <= k < |later| && Accepted(later[k]) ==> Settled(o, After(o, earlier), later[k])
  {
    if After(o, later) == After(o, earlier) {
      forall k | |earlier| <= k < |later| && Accepted(later[k]) ensures Settled(o, After(o, earlier), later[k]) {
        AllQuiet(o, earlier, later);
        QuietCallsChangeNothing(o, earlier, later[..k]);
        RunOfPrefix(o, later, k);
        QuietIffSettled(o, After(o, later[..k]), later[k]);
      }
    } else if forall k :: |earlier| <= k < |later| && Accepted(later[k]) ==> Settled(o, After(o, earlier), later[k]) {
      SettledIsQuiet(o, earlier, later, |later|);
      QuietCallsChangeNothing(o, earlier, later);
    }
  }

  lemma AllQuiet(o: Options, earlier: seq<Call>, later: seq<Call>)
    requires earlier <= later && After(o, later) == After(o, earlier)
    ensures forall k :: |earlier| <= k < |later| ==> Quiet(later[k])
  {
    forall k | |earlier| <= k < |later| ensures Quiet(later[k]) {
      if !Quiet(later[k]) {
        ChangeShows(o, earlier, later, k);
      }
    }
  }

  lemma {:induction false} SettledIsQuiet(o: Options, earlier: seq<Call>, later: seq<Call>, n: nat)
    requires Run(o, later) && earlier <= later && n <= |later|
    requires forall k :: |earlier| <= k < |later| && Accepted(later[k]) ==> Settled(o, After(o, earlier), later[k])
    ensures forall k :: |earlier| <= k < n ==> Quiet(later[k])
  {
    if n > |earlier| {
      SettledIsQuiet(o, earlier, later, n - 1);
      SettledNext(o, earlier, later, n - 1);
    }
  }

  lemma SettledNext(o: Options, earlier: seq<Call>, later: seq<Call>, k: nat)
    requires Run(o, later) && earlier <= later && |earlier| <= k < |later|
    requires forall i :: |earlier| <= i < k ==> Quiet(later[i])
    requires Accepted(later[k]) ==> Settled(o, After(o, earlier), later[k])
    ensures Quiet(later[k])
  {
    QuietCallsChangeNothing(o, earlier, later[..k]);
    RunOfPrefix(o, later, k);
    QuietIffSettled(o, After(o, later[..k]), later[k]);
  }

  /** After an accepted call its slot is mapped to the entry it answered. */
  lemma MappedAsAnswered(o: Options, front: seq<Call>, c: Call)
    requires Run(o, front + [c]) && Accepted(c)
    ensures var m := After(o, front + [c]).mappings;
      c.out.Resolved? && c.ItemSlot() in m && m[c.ItemSlot()].entry == c.out.entry
  {
    Extend(o, front, c);
    if !Quiet(c) {
      PlacingLeavesMappings(o, After(o, front), c);
    }
  }
}
