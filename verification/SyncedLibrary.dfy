/** The source cache and the library together: what a sync of one account does to
    the cached libraries, which hear of it through availability events alone. */
module SyncedLibrary {
  import opened Optional
  import opened Strings
  import opened Keys
  import Identity
  import opened RegistrySpec
  import opened RegistryRuns
  import opened SourceCache
  import opened Derivation
  import opened Library

  function RowsAt(w: World, source: Source): map<string, CatalogueItem>
  {
    if source in w.rows then w.rows[source] else map[]
  }

  ghost predicate KeyedRows(items: map<string, CatalogueItem>)
  {
    forall id :: id in items ==> items[id].nativeId == id
  }

  // --- what a change in the world does to cached libraries

  /** Some user whose library is cached sees a different verdict. */
  ghost predicate VerdictFlips(cache: Cached, a: World, b: World, reaches: Reaches)
  {
    exists user :: IsBytes(user) && UserKey(user) in cache && !VerdictsStay(a, b, Derivable(reaches, user))
  }

  /** Some user whose library is cached sees a different face of an entry. */
  ghost predicate FaceChanges(cache: Cached, a: World, b: World, reaches: Reaches)
  {
    exists user :: IsBytes(user) && UserKey(user) in cache && !FacesStay(a, b, Derivable(reaches, user))
  }

  /** Some user whose library is cached sees an item come, go or move to another
      entry. */
  ghost predicate ShelvesChange(cache: Cached, a: World, b: World, reaches: Reaches)
  {
    exists user :: IsBytes(user) && UserKey(user) in cache && !SameShelves(a, b, Derivable(reaches, user))
  }

  /** Coherence survives a change of the world exactly when no cached library shows
      an item that came, went or moved, a changed face or a flipped verdict. */
  lemma CoherenceIff(cache: Cached, a: World, b: World, reaches: Reaches)
    requires CoherentWith(cache, a, reaches)
    ensures CoherentWith(cache, b, reaches) <==>
      && !ShelvesChange(cache, a, b, reaches)
      && !FaceChanges(cache, a, b, reaches)
      && !VerdictFlips(cache, a, b, reaches)
  {
    forall user | IsBytes(user) && UserKey(user) in cache
      ensures var derivable := Derivable(reaches, user);
        cache[UserKey(user)] == Fresh(b, reaches, user) <==>
        SameShelves(a, b, derivable) && FacesStay(a, b, derivable) && VerdictsStay(a, b, derivable)
    {
      SameLibraryIff(a, b, Derivable(reaches, user));
    }
  }

  lemma SameEntriesSameFaces(cache: Cached, a: World, b: World, reaches: Reaches)
    requires a.entries == b.entries && a.meta == b.meta
    ensures !FaceChanges(cache, a, b, reaches)
  {
    forall user | IsBytes(user) && UserKey(user) in cache ensures FacesStay(a, b, Derivable(reaches, user)) {
      forall entry | entry in Appearing(a, Derivable(reaches, user)) ensures SameFace(a, b, entry) {
      }
    }
  }

  lemma SameIdsAlike(w: World, source: Source, items: map<string, CatalogueItem>, reaches: seq<Reach>)
    requires Keyed(w) && KeyedRows(items) && items.Keys == RowsAt(w, source).Keys
    ensures Alike(w, WithRows(w, source, items), reaches)
  {
    forall r | r in reaches ensures SameSight(w, WithRows(w, source, items), r) {
    }
  }

  /** When an account's native ids stay, coherence survives the unannounced change
      of its rows exactly when no cached library shows a verdict that flips. */
  lemma UnannouncedIff(cache: Cached, w: World, reaches: Reaches, source: Source, items: map<string, CatalogueItem>)
    requires Keyed(w) && KeyedRows(items) && items.Keys == RowsAt(w, source).Keys
    requires CoherentWith(cache, w, reaches)
    ensures CoherentWith(cache, WithRows(w, source, items), reaches) <==> !VerdictFlips(cache, w, WithRows(w, source, items), reaches)
  {
    var after := WithRows(w, source, items);
    forall user | IsBytes(user) && UserKey(user) in cache ensures SameShelves(w, after, Derivable(reaches, user)) {
      SameIdsAlike(w, source, items, Derivable(reaches, user));
      AlikeShelves(w, after, Derivable(reaches, user));
    }
    SameEntriesSameFaces(cache, w, after, reaches);
    CoherenceIff(cache, w, after, reaches);
  }

  // --- an item that drops its corroborating id

  lemma FirstOfOne(w: World, r: Reach, entry: string, key: string)
    ensures FirstCovering(w, [r], entry, key) == if Covers(w, r, entry, key) then Some(r) else None
  {
    assert [r][..0] == [];
  }

  /** The verdict of an account's only item is what that item asserts. */
  lemma OnlyVerdict(w: World, r: Reach, native: string, item: CatalogueItem, entry: string)
    requires Items(w, r) == map[native := item] && EntryOf(w, Obs(r, item)) == Some(entry)
    ensures var key := r.provider + ":" + native;
      && entry in Appearing(w, [r]) && key in CoverKeys(w, [r], entry)
      && FirstVerdict(w, [r], entry, key) == Corroborated(w, Obs(r, item), entry)
  {
    var key := r.provider + ":" + native;
    assert key[|r.provider| + 1..] == native;
    assert r in [r] && native in Items(w, r) && Observes(w, r, native, entry);
    FirstOfOne(w, r, entry, key);
    assert Covers(w, r, entry, key) && Carried(w, r, entry, key) == Obs(r, item);
  }

  /** An item that asserts no id corroborates nothing. */
  lemma PlainVerdict(w: World, r: Reach, native: string, item: CatalogueItem, entry: string)
    requires Items(w, r) == map[native := item] && item.ids == []
    ensures !FirstVerdict(w, [r], entry, r.provider + ":" + native)
  {
    FirstOfOne(w, r, entry, r.provider + ":" + native);
  }

  /** An account's only item that stays and drops every id it asserted changes
      the library, wherever it is mapped now. */
  lemma DroppedIdsShow(a: World, b: World, r: Reach, native: string, x: CatalogueItem, y: CatalogueItem, entry: string)
    requires Items(a, r) == map[native := x] && Items(b, r) == map[native := y]
    requires EntryOf(a, Obs(r, x)) == Some(entry) && Corroborated(a, Obs(r, x), entry) && y.ids == []
    ensures Declared(a, [r]) != Declared(b, [r])
  {
    OnlyVerdict(a, r, native, x, entry);
    PlainVerdict(b, r, native, y, entry);
    assert !SameVerdicts(a, b, [r], entry);
    SameLibraryIff(a, b, [r]);
  }

  lemma OnlyReach(r: Reach, user: string)
    requires r.Authorized(user)
    ensures Derivable(map[r.account := r], user) == [r]
  {
    var reaches: Reaches := map[r.account := r];
    SortIsListing([r.account], reaches.Keys);
    assert Sort([]) == [];
    assert Listing(reaches.Keys) == [r.account];
    assert [r.account][..0] == [];
    assert Authorized(reaches, [], user) == [];
  }

  // --- a sync and what the library hears of it

  /** The library reads the registry and the provider's rows where they are. */
  ghost predicate Mirrored(svc: Service, s: Synchronizer)
    reads svc, s, s.reg
  {
    && svc.world.mappings == s.reg.mappings && svc.world.entries == s.reg.entries
    && forall account :: RowsAt(svc.world, Source(s.provider, account)) == Of(s.rows, account)
  }

  lemma {:induction false} LandedKeyed(items: seq<CatalogueItem>)
    ensures KeyedRows(Landed(items))
  {
    if items != [] {
      LandedKeyed(items[..|items| - 1]);
    }
  }

  lemma CatalogueKeyed(base: map<string, CatalogueItem>, client: Client, n: nat)
    requires KeyedRows(base)
    ensures KeyedRows(Catalogue(client, n)) && KeyedRows(base + Catalogue(client, n))
  {
    PagesLand(client, n);
    LandedKeyed(PageItems(client, n));
  }

  lemma {:induction false} AnnouncedOn(mappings: map<Slot, Mapping>, provider: string, account: string, ids: seq<string>,
                                       present: bool)
    ensures forall e :: e in Announced(mappings, provider, account, ids, present) ==> e.account == account
  {
    if ids != [] {
      AnnouncedOn(mappings, provider, account, ids[..|ids| - 1], present);
    }
  }

  lemma SweptTwice(cache: Cached, invalidate: string -> bool)
    ensures Swept(Swept(cache, invalidate), invalidate) == Swept(cache, invalidate)
  {
  }

  /** A sync of an orderly cache, with what its events add up to. */
  method SyncCache(s: Synchronizer, account: string, client: Client) returns (ok: bool, ghost told: seq<Event>)
    requires s.resolves && s.notifies && account != "" && Orderly(s) && ByteClient(client)
    requires KeyedRows(Of(s.rows, account))
    modifies s, s.reg
    ensures Orderly(s) && KeyedRows(Of(s.rows, account)) && (ok <==> Completable(client))
    ensures forall other :: other != account ==> Of(s.rows, other) == Of(old(s.rows), other)
    ensures ok ==> exists n :: Completes(client, n) && Of(s.rows, account) == Catalogue(client, n)
    ensures s.events == old(s.events) + told && forall e :: e in told ==> e.account == account
    ensures ok ==> (told == [] <==> Of(s.rows, account).Keys == Of(old(s.rows), account).Keys)
    ensures old(s.reg.history) <= s.reg.history
    ensures MovesOnly(old(s.reg.mappings), s.reg.mappings, s.provider, Of(s.rows, account).Keys)
  {
    ghost var before, rows, mappings := s.events, s.rows, s.reg.mappings;
    var stats;
    ghost var departed, arrived;
    ok, stats, departed, arrived := s.SyncAccount(account, client);
    told := s.events[|before|..];
    StaysMapped(s.provider, rows, mappings, s.rows, s.reg.mappings);
    CatalogueKeyed(Of(rows, account), client, stats.pages);
    AnnouncedOn(s.reg.mappings, s.provider, account, departed, false);
    AnnouncedOn(s.reg.mappings, s.provider, account, arrived, true);
    if ok {
      SilentIff(before, s.events, s.reg.mappings, s.provider, account, departed, arrived,
                Of(rows, account).Keys, Of(s.rows, account).Keys);
    }
  }

  /** A sync announces nothing exactly when it changed no one's presence. */
  lemma SilentIff(before: seq<Event>, after: seq<Event>, mappings: map<Slot, Mapping>, provider: string, account: string,
                  departed: seq<string>, arrived: seq<string>, prev: set<string>, now: set<string>)
    requires OneEventPerChange(before, after, mappings, provider, account, departed, arrived)
    requires Lists(departed, prev - now) && Lists(arrived, now - prev)
    ensures before <= after && (after[|before|..] == [] <==> prev == now)
  {
    assert |after| == |before| + |departed| + |arrived|;
    if departed == [] && arrived == [] {
      forall id ensures id in prev <==> id in now {
        assert id in departed <==> id in prev - now;
        assert id in arrived <==> id in now - prev;
      }
    }
    if prev == now {
      HasMember(departed);
      HasMember(arrived);
    }
  }

  lemma HasMember(s: seq<string>)
    ensures s == [] || exists x :: x in s
  {
    assert s == [] || s[0] in s;
  }

  /** Syncs an account of the cache; its events reach the library one by one. */
  method SyncAndPublish(s: Synchronizer, svc: Service, account: string, client: Client)
    returns (ok: bool, ghost told: seq<Event>)
    requires s.resolves && s.notifies && account != "" && Orderly(s) && ByteClient(client)
    requires svc.Valid() && Mirrored(svc, s)
    modifies s, s.reg, svc`world, svc`cache
    ensures Orderly(s) && svc.Valid() && Mirrored(svc, s) && (ok <==> Completable(client))
    ensures svc.world == WithRows(old(svc.world), Source(s.provider, account), Of(s.rows, account))
                           .(mappings := s.reg.mappings, entries := s.reg.entries)
    ensures s.events == old(s.events) + told
    ensures svc.cache == if told == [] then old(svc.cache)
                         else Swept(old(svc.cache), Concerned(svc.reaches, Source(s.provider, account)))
    ensures ok ==> exists n :: Completes(client, n) && Of(s.rows, account) == Catalogue(client, n)
    ensures ok ==> (told == [] <==> Of(s.rows, account).Keys == Of(old(s.rows), account).Keys)
    ensures old(s.reg.history) <= s.reg.history
    ensures MovesOnly(old(s.reg.mappings), s.reg.mappings, s.provider, Of(s.rows, account).Keys)
  {
    var source, n := Source(s.provider, account), |s.events|;
    ghost var world := svc.world;
    assert KeyedRows(Of(s.rows, account)) by {
      assert RowsAt(svc.world, source) == Of(s.rows, account);
    }
    ok, told := SyncCache(s, account, client);
    assert told == s.events[n..];
    svc.Observe(WithRows(svc.world, source, Of(s.rows, account)).(mappings := s.reg.mappings, entries := s.reg.entries));
    assert Mirrored(svc, s) by {
      forall other ensures RowsAt(svc.world, Source(s.provider, other)) == Of(s.rows, other) {
        assert other != account ==> RowsAt(svc.world, Source(s.provider, other)) == RowsAt(world, Source(s.provider, other));
      }
    }
    PublishAll(s, svc, account, n);
  }

  method PublishAll(s: Synchronizer, svc: Service, account: string, n: nat)
    requires svc.Valid() && n <= |s.events| && forall e :: e in s.events[n..] ==> e.account == account
    modifies svc`cache
    ensures svc.Valid()
    ensures svc.cache == if n == |s.events| then old(svc.cache)
                         else Swept(old(svc.cache), Concerned(svc.reaches, Source(s.provider, account)))
  {
    ghost var concerned := Concerned(svc.reaches, Source(s.provider, account));
    SweptTwice(svc.cache, concerned);
    for k := n to |s.events|
      invariant svc.Valid()
      invariant svc.cache == if k == n then old(svc.cache) else Swept(old(svc.cache), concerned)
    {
      assert s.events[k] == s.events[n..][k - n];
      svc.Publish(s.provider, s.events[k].account);
    }
  }

  /** No mapped item moved to another entry. */
  ghost predicate KeepsTargets(m0: map<Slot, Mapping>, m1: map<Slot, Mapping>)
  {
    forall slot :: slot in m0 ==> slot in m1 && m1[slot].entry == m0[slot].entry
  }

  /** A registry and the provider's rows as the library sees them. */
  ghost predicate Grounded(w: World, provider: string)
  {
    && Keyed(w)
    && (forall slot :: slot in w.mappings ==> w.mappings[slot].entry in w.entries)
    && forall account, id :: id in RowsAt(w, Source(provider, account)) ==> Slot(provider, id) in w.mappings
  }

  /** From one world to the next, a sync of the source changed its rows, moved no
      item and mapped nothing but items of its provider. */
  ghost predicate Synced(a: World, b: World, source: Source)
  {
    && (forall other :: other != source ==> RowsAt(a, other) == RowsAt(b, other))
    && KeepsTargets(a.mappings, b.mappings) && a.entries.Keys <= b.entries.Keys
    && forall slot :: slot in b.mappings && slot !in a.mappings ==> slot.provider == source.provider
  }

  /** A reach shows the same items on the same entries unless it is the synced
      account and its native ids changed. */
  lemma SyncedSight(a: World, b: World, source: Source, r: Reach)
    requires Grounded(a, source.provider) && Keyed(b) && Synced(a, b, source)
    requires Source(r.provider, r.account) == source ==> RowsAt(a, source).Keys == RowsAt(b, source).Keys
    ensures SameSight(a, b, r)
  {
    assert Items(a, r) == RowsAt(a, Source(r.provider, r.account)) && Items(b, r) == RowsAt(b, Source(r.provider, r.account));
    forall native | native in Items(a, r)
      ensures EntryOf(a, Obs(r, Items(a, r)[native])) == EntryOf(b, Obs(r, Items(b, r)[native]))
    {
      var slot := Slot(r.provider, native);
      assert slot in a.mappings <==> slot in b.mappings;
    }
  }

  /** Everyone whose library is still cached is shown the same items on the same
      entries: after an announcement only those who may not derive the account. */
  lemma SurvivorsAlike(cache: Cached, a: World, b: World, reaches: Reaches, source: Source, silent: bool)
    requires Grounded(a, source.provider) && Keyed(b) && Synced(a, b, source) && Filed(reaches)
    requires silent ==> RowsAt(a, source).Keys == RowsAt(b, source).Keys
    ensures !ShelvesChange(if silent then cache else Swept(cache, Concerned(reaches, source)), a, b, reaches)
  {
    var left := if silent then cache else Swept(cache, Concerned(reaches, source));
    forall user | IsBytes(user) && UserKey(user) in left ensures SameShelves(a, b, Derivable(reaches, user)) {
      forall r | r in Derivable(reaches, user) ensures SameSight(a, b, r) {
        if !silent {
          SweptUsers(cache, Concerned(reaches, source), user);
          NotConcerned(reaches, source, user, r);
        }
        SyncedSight(a, b, source, r);
      }
      AlikeShelves(a, b, Derivable(reaches, user));
    }
  }

  lemma NotConcerned(reaches: Reaches, source: Source, user: string, r: Reach)
    requires Filed(reaches) && !Concerned(reaches, source)(user) && r in Derivable(reaches, user)
    ensures Source(r.provider, r.account) != source
  {
    AuthorizedMembers(reaches, Listing(reaches.Keys), user, r);
  }

  lemma SweptStaysCoherent(cache: Cached, w: World, reaches: Reaches, invalidate: string -> bool)
    requires CoherentWith(cache, w, reaches)
    ensures CoherentWith(Swept(cache, invalidate), w, reaches)
  {
    SweepRestores(cache, w, reaches, w, reaches, invalidate);
  }

  /** With no entry changed, those who may not derive the account derive the same
      library. */
  lemma OthersAgree(cache: Cached, a: World, b: World, reaches: Reaches, source: Source)
    requires Grounded(a, source.provider) && Keyed(b) && Synced(a, b, source) && Filed(reaches)
    requires a.entries == b.entries && a.meta == b.meta && CoherentWith(cache, a, reaches)
    ensures CoherentWith(Swept(cache, Concerned(reaches, source)), b, reaches)
  {
    var invalidate := Concerned(reaches, source);
    forall user | IsBytes(user) && !invalidate(user) ensures Fresh(b, reaches, user) == Fresh(a, reaches, user) {
      var derivable := Derivable(reaches, user);
      forall r | r in derivable ensures Items(a, r) == Items(b, r) && SameSight(a, b, r) {
        NotConcerned(reaches, source, user, r);
        assert RowsAt(a, Source(r.provider, r.account)) == RowsAt(b, Source(r.provider, r.account));
        SyncedSight(a, b, source, r);
      }
      DeclaredReadsOwnRows(a, b, derivable);
    }
    SweepRestores(cache, a, reaches, b, reaches, invalidate);
  }

  lemma RegistryGrounds(o: Identity.Options, history: seq<Call>)
    requires Run(o, history)
    ensures forall slot :: slot in After(o, history).mappings ==> After(o, history).mappings[slot].entry in After(o, history).entries
  {
    ReachableInv(o, history);
    var st := After(o, history);
    forall slot | slot in st.mappings ensures st.mappings[slot].entry in st.entries {
      assert MappingOk(st, slot);
    }
  }

  lemma EntriesStay(o: Identity.Options, earlier: seq<Call>, later: seq<Call>)
    requires Run(o, later) && earlier <= later
    ensures After(o, earlier).entries.Keys <= After(o, later).entries.Keys
  {
    assert later[..|earlier|] == earlier;
    EntriesOnlyGrow(o, later, |earlier|);
  }

  /** A sync keeps the cached libraries correct exactly when none of those left
      shows an item that came, went or moved, an entry whose face changed, or a
      verdict that flipped. No item comes, goes or moves there when the sync maps
      no item to another entry, and announces a change or changes no one's presence,
      as every successful one does; then, while no entry changes, the libraries stay
      correct exactly when it announces a change or flips no shown verdict. */
  method SyncKeepsLibraries(s: Synchronizer, svc: Service, account: string, client: Client)
    returns (ok: bool, ghost told: seq<Event>)
    requires s.resolves && s.notifies && account != "" && Orderly(s) && ByteClient(client)
    requires svc.Valid() && Mirrored(svc, s) && svc.Coherent()
    modifies s, s.reg, svc`world, svc`cache
    ensures s.events == old(s.events) + told
    ensures ok ==> (told == [] <==> Of(s.rows, account).Keys == Of(old(s.rows), account).Keys)
    ensures svc.Coherent() <==>
      && !ShelvesChange(svc.cache, old(svc.world), svc.world, svc.reaches)
      && !FaceChanges(svc.cache, old(svc.world), svc.world, svc.reaches)
      && !VerdictFlips(svc.cache, old(svc.world), svc.world, svc.reaches)
    ensures
      KeepsTargets(old(s.reg.mappings), s.reg.mappings)
      && (told != [] || Of(s.rows, account).Keys == Of(old(s.rows), account).Keys) ==>
        && !ShelvesChange(svc.cache, old(svc.world), svc.world, svc.reaches)
        && (s.reg.entries == old(s.reg.entries) ==>
              (svc.Coherent() <==> told != [] || !VerdictFlips(svc.cache, old(svc.world), svc.world, svc.reaches)))
  {
    var source := Source(s.provider, account);
    ghost var a, cache, heard := svc.world, svc.cache, s.reg.history;
    GroundedWorld(svc, s);
    assert RowsAt(a, source) == Of(s.rows, account);
    ok, told := SyncAndPublish(s, svc, account, client);
    EntriesStay(s.reg.opts, heard, s.reg.history);
    SyncOutcome(cache, svc.cache, a, svc.world, svc.reaches, source, Of(s.rows, account), told == []);
  }

  lemma GroundedWorld(svc: Service, s: Synchronizer)
    requires svc.Valid() && Orderly(s) && Mirrored(svc, s)
    ensures Grounded(svc.world, s.provider)
  {
    RegistryGrounds(s.reg.opts, s.reg.history);
  }

  /** A sync's change of the world: the account's rows are replaced, and nothing but
      its items is mapped anew or moved. */
  ghost predicate Replaced(a: World, b: World, source: Source, items: map<string, CatalogueItem>)
  {
    && b == WithRows(a, source, items).(mappings := b.mappings, entries := b.entries)
    && MovesOnly(a.mappings, b.mappings, source.provider, items.Keys) && a.entries.Keys <= b.entries.Keys
  }

  lemma ReplacedSynced(a: World, b: World, source: Source, items: map<string, CatalogueItem>)
    requires Replaced(a, b, source, items) && KeepsTargets(a.mappings, b.mappings)
    ensures Synced(a, b, source) && a.meta == b.meta && RowsAt(b, source) == items
  {
  }

  /** Those still cached after a sync were coherent with the world before it. */
  lemma LeftCoherent(cache: Cached, left: Cached, a: World, b: World, reaches: Reaches, source: Source, silent: bool)
    requires CoherentWith(cache, a, reaches)
    requires left == if silent then cache else Swept(cache, Concerned(reaches, source))
    ensures CoherentWith(left, b, reaches) <==>
      && !ShelvesChange(left, a, b, reaches) && !FaceChanges(left, a, b, reaches) && !VerdictFlips(left, a, b, reaches)
  {
    if !silent {
      SweptStaysCoherent(cache, a, reaches, Concerned(reaches, source));
    }
    CoherenceIff(left, a, b, reaches);
  }

  lemma SyncOutcome(cache: Cached, left: Cached, a: World, b: World, reaches: Reaches, source: Source,
                    items: map<string, CatalogueItem>, silent: bool)
    requires Grounded(a, source.provider) && Keyed(b) && Filed(reaches) && CoherentWith(cache, a, reaches)
    requires Replaced(a, b, source, items)
    requires left == if silent then cache else Swept(cache, Concerned(reaches, source))
    ensures CoherentWith(left, b, reaches) <==>
      && !ShelvesChange(left, a, b, reaches) && !FaceChanges(left, a, b, reaches) && !VerdictFlips(left, a, b, reaches)
    ensures KeepsTargets(a.mappings, b.mappings) && (silent ==> RowsAt(a, source).Keys == items.Keys) ==>
      && !ShelvesChange(left, a, b, reaches)
      && (a.entries == b.entries ==> (CoherentWith(left, b, reaches) <==> !silent || !VerdictFlips(left, a, b, reaches)))
  {
    LeftCoherent(cache, left, a, b, reaches, source, silent);
    if KeepsTargets(a.mappings, b.mappings) && (silent ==> RowsAt(a, source).Keys == items.Keys) {
      ReplacedSynced(a, b, source, items);
      SyncVerdict(cache, left, a, b, reaches, source, silent);
    }
  }

  lemma SyncVerdict(cache: Cached, left: Cached, a: World, b: World, reaches: Reaches, source: Source, silent: bool)
    requires Grounded(a, source.provider) && Keyed(b) && Synced(a, b, source) && Filed(reaches) && a.meta == b.meta
    requires CoherentWith(cache, a, reaches) && (silent ==> RowsAt(a, source).Keys == RowsAt(b, source).Keys)
    requires left == if silent then cache else Swept(cache, Concerned(reaches, source))
    ensures !ShelvesChange(left, a, b, reaches)
    ensures a.entries == b.entries ==>
      (CoherentWith(left, b, reaches) <==> !silent || !VerdictFlips(left, a, b, reaches))
  {
    SurvivorsAlike(cache, a, b, reaches, source, silent);
    if a.entries == b.entries {
      if silent {
        CoherenceIff(left, a, b, reaches);
        SameEntriesSameFaces(left, a, b, reaches);
      } else {
        OthersAgree(cache, a, b, reaches, source);
      }
    }
  }

  /** The user's library is cached, the reach is theirs, and its only item has an
      id that corroborates it on the entry it is shown on. */
  ghost predicate ShowsOnly(cache: Cached, w: World, r: Reach, user: string, item: CatalogueItem)
  {
    && IsBytes(user) && UserKey(user) in cache && r.Authorized(user) && Items(w, r) == map[item.nativeId := item]
    && EntryOf(w, Obs(r, item)).Some? && Corroborated(w, Obs(r, item), EntryOf(w, Obs(r, item)).value)
  }

  lemma StaleAfterDrop(cache: Cached, a: World, b: World, reaches: Reaches, r: Reach, user: string, item: CatalogueItem)
    requires reaches == map[r.account := r] && ShowsOnly(cache, a, r, user, item) && CoherentWith(cache, a, reaches)
    requires Items(b, r) == map[item.nativeId := item.(ids := [])]
    ensures !CoherentWith(cache, b, reaches)
  {
    var entry := EntryOf(a, Obs(r, item)).value;
    OnlyReach(r, user);
    DroppedIdsShow(a, b, r, item.nativeId, item, item.(ids := []), entry);
  }

  lemma PlainItem(cache: Cached, w: World, r: Reach, user: string, item: CatalogueItem)
    requires ShowsOnly(cache, w, r, user, item) && item.Valid() && item.Bytes()
    ensures var plain := item.(ids := []); plain.Valid() && plain.Bytes() && Items(w, r).Keys == {plain.nativeId}
  {
  }

  /** A sync that finds the account's only item again announces nothing. */
  method SyncOneItem(s: Synchronizer, svc: Service, r: Reach, item: CatalogueItem) returns (ok: bool, ghost told: seq<Event>)
    requires s.resolves && s.notifies && r.account != "" && r.provider == s.provider && Orderly(s)
    requires svc.Valid() && Mirrored(svc, s)
    requires item.Valid() && item.Bytes() && Items(svc.world, r).Keys == {item.nativeId}
    modifies s, s.reg, svc`world, svc`cache
    ensures s.events == old(s.events) + told && ok && told == [] && svc.cache == old(svc.cache)
    ensures Items(svc.world, r) == map[item.nativeId := item]
  {
    var client: Client := n => Page([item], "");
    OnePage(client, item);
    assert Items(svc.world, r) == RowsAt(svc.world, Source(s.provider, r.account));
    ok, told := SyncAndPublish(s, svc, r.account, client);
    assert Items(svc.world, r) == RowsAt(svc.world, Source(s.provider, r.account));
  }

  /** A silent sync at work: the account's only item stays and drops the ids that
      corroborated it, nothing is announced, and the cached library is stale. */
  method SilentSyncGoesStale(s: Synchronizer, svc: Service, r: Reach, user: string, item: CatalogueItem)
    returns (ok: bool, ghost told: seq<Event>)
    requires s.resolves && s.notifies && r.account != "" && r.provider == s.provider && Orderly(s)
    requires svc.Valid() && Mirrored(svc, s) && svc.Coherent() && svc.reaches == map[r.account := r]
    requires ShowsOnly(svc.cache, svc.world, r, user, item) && item.Valid() && item.Bytes()
    modifies s, s.reg, svc`world, svc`cache
    ensures s.events == old(s.events) + told
    ensures ok && told == [] && !svc.Coherent()
  {
    ghost var a := svc.world;
    PlainItem(svc.cache, a, r, user, item);
    ok, told := SyncOneItem(s, svc, r, item.(ids := []));
    StaleAfterDrop(svc.cache, a, svc.world, svc.reaches, r, user, item);
  }

  lemma {:induction false} StopsAtOnce(client: Client, n: nat)
    requires client(0).Page? && client(0).next == ""
    ensures Continues(client, n) ==> n == 0
  {
    if n > 1 {
      StopsAtOnce(client, n - 1);
    }
  }

  lemma OnePage(client: Client, item: CatalogueItem)
    requires item.Valid() && forall n :: client(n) == Page([item], "")
    ensures Completable(client)
    ensures forall n :: Completes(client, n) ==> Catalogue(client, n) == map[item.nativeId := item]
  {
    assert Completes(client, 1);
    assert [item][..0] == [];
    assert Landed([]) == map[];
    assert Landed([item]) == map[item.nativeId := item];
    assert Catalogue(client, 0) == map[];
    forall n: nat ensures Completes(client, n) ==> n == 1 {
      if n > 0 {
        StopsAtOnce(client, n - 1);
      }
    }
  }
}
