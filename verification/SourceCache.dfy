/** The account source cache: a paged sync with reconciliation behind its
    success boundary, and the lazy refresh and ingest paths. */
module SourceCache {
  import Identity
  import opened Optional
  import opened Strings
  import opened RegistrySpec
  import opened RegistryRuns
  import opened ItemRegistry

  const MAX_PAGES := 10000

  /** What the provider answers to one page request; the n-th answer may depend
      on everything before it, so a client is a function of n alone. */
  datatype Response = Unavailable | Page(items: seq<CatalogueItem>, next: string)

  type Client = nat -> Response

  type Account = map<string, CatalogueItem>
  type Rows = map<string, Account>

  datatype Stats = Stats(items: nat, pages: nat, removed: nat)

  datatype Event = Event(account: string, entry: string, present: bool)

  /** The cached items of one account. */
  function Of(rows: Rows, account: string): Account
  {
    if account in rows then rows[account] else map[]
  }

  /** Nothing differs but one account, which now holds `items`. */
  ghost predicate Only(before: Rows, after: Rows, account: string, items: Account)
  {
    Of(after, account) == items && forall other :: other != account ==> Of(after, other) == Of(before, other)
  }

  lemma OnlyTwice(a: Rows, b: Rows, c: Rows, account: string, x: Account, y: Account)
    requires Only(a, b, account, x) && Only(b, c, account, y)
    ensures Only(a, c, account, y)
  {
  }

  // --- what a run of pages says

  predicate ValidItems(items: seq<CatalogueItem>)
  {
    forall i :: 0 <= i < |items| ==> items[i].Valid()
  }

  predicate Distinct(items: seq<CatalogueItem>)
  {
    forall i, j :: 0 <= i < j < |items| ==> items[i].nativeId != items[j].nativeId
  }

  predicate ValidPage(items: seq<CatalogueItem>)
  {
    ValidItems(items) && Distinct(items)
  }

  predicate Good(client: Client, n: nat)
  {
    client(n).Page? && ValidPage(client(n).items)
  }

  /** Items by native id, a later report replacing an earlier one. */
  function Landed(items: seq<CatalogueItem>): Account
  {
    if items == [] then map[]
    else Landed(items[..|items| - 1])[items[|items| - 1].nativeId := items[|items| - 1]]
  }

  /** What the first n pages report. */
  function Catalogue(client: Client, n: nat): Account
  {
    if n == 0 then map[]
    else if client(n - 1).Page? then Catalogue(client, n - 1) + Landed(client(n - 1).items)
    else Catalogue(client, n - 1)
  }

  /** The items of the first n pages, in order. */
  function PageItems(client: Client, n: nat): seq<CatalogueItem>
  {
    if n == 0 then []
    else if client(n - 1).Page? then PageItems(client, n - 1) + client(n - 1).items
    else PageItems(client, n - 1)
  }

  function ItemCount(client: Client, n: nat): nat
  {
    if n == 0 then 0
    else ItemCount(client, n - 1) + (if client(n - 1).Page? then |client(n - 1).items| else 0)
  }

  /** The first n pages are valid and none of them is the last. */
  predicate Continues(client: Client, n: nat)
  {
    n == 0 || (Continues(client, n - 1) && Good(client, n - 1) && client(n - 1).next != "")
  }

  /** The first n pages are valid and exactly the n-th is the last. */
  predicate Completes(client: Client, n: nat)
  {
    n >= 1 && Continues(client, n - 1) && Good(client, n - 1) && client(n - 1).next == ""
  }

  /** Some completion lies within the page bound. */
  ghost predicate Completable(client: Client)
  {
    exists n: nat :: n <= MAX_PAGES && Completes(client, n)
  }

  ghost predicate ByteClient(client: Client)
  {
    forall n: nat, i :: client(n).Page? && 0 <= i < |client(n).items| ==> client(n).items[i].Bytes()
  }

  lemma LandOneMore(base: Account, items: seq<CatalogueItem>, k: nat)
    requires k < |items|
    ensures base + Landed(items[..k + 1]) == (base + Landed(items[..k]))[items[k].nativeId := items[k]]
    ensures Landed(items[..k + 1]).Keys == Landed(items[..k]).Keys + {items[k].nativeId}
  {
    assert items[..k + 1][..k] == items[..k];
  }

  lemma LandedKeys(items: seq<CatalogueItem>)
    ensures forall id :: id in Landed(items) <==> exists i :: 0 <= i < |items| && items[i].nativeId == id
  {
    if items != [] {
      var front, last := items[..|items| - 1], items[|items| - 1];
      LandedKeys(front);
      forall id ensures id in Landed(items) <==> exists i :: 0 <= i < |items| && items[i].nativeId == id {
        if id in Landed(front) {
          var i :| 0 <= i < |front| && front[i].nativeId == id;
          assert items[i].nativeId == id;
        }
        if i :| 0 <= i < |items| && items[i].nativeId == id {
          assert i < |front| ==> front[i].nativeId == id;
        }
      }
    }
  }

  // --- events

  /** The availability events for these ids, in order: one for each id with a
      registry mapping. */
  function Announced(mappings: map<Slot, Mapping>, provider: string, account: string, ids: seq<string>,
                     present: bool): seq<Event>
  {
    if ids == [] then []
    else
      var front, slot := Announced(mappings, provider, account, ids[..|ids| - 1], present), Slot(provider, ids[|ids| - 1]);
      if account != "" && slot in mappings then front + [Event(account, mappings[slot].entry, present)] else front
  }

  /** Announcing goes id by id: nothing without an account or a mapping, else one
      event that names account, entry and direction. */
  lemma {:induction false} AnnouncedMeaning(mappings: map<Slot, Mapping>, provider: string, account: string,
                                            ids: seq<string>, id: string, present: bool)
    ensures account == "" ==> Announced(mappings, provider, account, ids, present) == []
    ensures Announced(mappings, provider, account, ids + [id], present) ==
      Announced(mappings, provider, account, ids, present)
        + (if account == "" || Slot(provider, id) !in mappings then []
           else [Event(account, mappings[Slot(provider, id)].entry, present)])
  {
    assert (ids + [id])[..|ids|] == ids;
    if ids != [] {
      AnnouncedMeaning(mappings, provider, account, ids[..|ids| - 1], id, present);
    }
  }

  /** When every id is mapped, announcing yields exactly one event per id. */
  lemma {:induction false} OneEventEach(mappings: map<Slot, Mapping>, provider: string, account: string,
                                        ids: seq<string>, present: bool)
    requires account != "" && Mapped(mappings, provider, ids)
    ensures Announced(mappings, provider, account, ids, present) == EachOne(mappings, provider, account, ids, present)
  {
    if ids != [] {
      var front := ids[..|ids| - 1];
      assert ids == front + [ids[|ids| - 1]];
      OneEventEach(mappings, provider, account, front, present);
    }
  }

  ghost predicate Mapped(mappings: map<Slot, Mapping>, provider: string, ids: seq<string>)
  {
    forall id :: id in ids ==> Slot(provider, id) in mappings
  }

  /** One event for every id, in order, naming the entry it is mapped to. */
  function EachOne(mappings: map<Slot, Mapping>, provider: string, account: string, ids: seq<string>,
                   present: bool): seq<Event>
    requires Mapped(mappings, provider, ids)
  {
    seq(|ids|, i requires 0 <= i < |ids| => Event(account, mappings[Slot(provider, ids[i])].entry, present))
  }

  /** Departures then arrivals, one event for each id that changed. */
  ghost predicate OneEventPerChange(before: seq<Event>, after: seq<Event>, mappings: map<Slot, Mapping>,
                                    provider: string,
                                    account: string, departed: seq<string>, arrived: seq<string>)
  {
    && Mapped(mappings, provider, departed) && Mapped(mappings, provider, arrived)
    && after == before + EachOne(mappings, provider, account, departed, false) + EachOne(mappings, provider, account, arrived, true)
  }

  /** A duplicate-free listing of a set of native ids. */
  ghost predicate Lists(ids: seq<string>, elements: set<string>)
  {
    NoDuplicates(ids) && forall id :: id in ids <==> id in elements
  }

  lemma ListsSize(ids: seq<string>, elements: set<string>)
    requires Lists(ids, elements)
    ensures |ids| == |elements|
  {
    if ids == [] {
      assert elements == {};
    } else {
      var last := ids[|ids| - 1];
      assert ids == ids[..|ids| - 1] + [last];
      ListsSize(ids[..|ids| - 1], elements - {last});
    }
  }

  /** Every cached item of the provider has a registry mapping. */
  ghost predicate AllMapped(rows: Rows, mappings: map<Slot, Mapping>, provider: string)
  {
    forall account, id :: id in Of(rows, account) ==> Slot(provider, id) in mappings
  }

  /** No mapping is lost, and none outside these items of the provider moves. */
  ghost predicate MovesOnly(m0: map<Slot, Mapping>, m1: map<Slot, Mapping>, provider: string, ids: set<string>)
  {
    && m0.Keys <= m1.Keys
    && forall s :: s in m1 && !(s.provider == provider && s.nativeId in ids) ==> s in m0 && m0[s] == m1[s]
  }

  ghost predicate AllIn(m: map<Slot, Mapping>, provider: string, ids: set<string>)
  {
    forall id :: id in ids ==> Slot(provider, id) in m
  }

  /** What landing items does to the registry's mappings: with resolution wired
      each is mapped and nothing else moves, without it nothing moves. */
  ghost predicate Identified(resolves: bool, m0: map<Slot, Mapping>, m1: map<Slot, Mapping>, provider: string, ids: set<string>)
  {
    if resolves then MovesOnly(m0, m1, provider, ids) && AllIn(m1, provider, ids) else m0 == m1
  }

  lemma IdentifiedTwice(resolves: bool, a: map<Slot, Mapping>, b: map<Slot, Mapping>, c: map<Slot, Mapping>, provider: string,
                        xs: set<string>, ys: set<string>, all: set<string>)
    requires Identified(resolves, a, b, provider, xs) && Identified(resolves, b, c, provider, ys) && all == xs + ys
    ensures Identified(resolves, a, c, provider, all)
  {
  }

  /** The registry heard of exactly these items, in this order, when resolution
      is wired, and of nothing otherwise. */
  ghost predicate Resolutions(resolves: bool, earlier: seq<Call>, later: seq<Call>, provider: string, items: seq<CatalogueItem>)
  {
    if !resolves then later == earlier
    else
      && |later| == |earlier| + |items| && earlier <= later
      && forall k :: |earlier| <= k < |later| ==> later[k].provider == provider && later[k].item == items[k - |earlier|]
  }

  lemma ResolutionsTwice(resolves: bool, a: seq<Call>, b: seq<Call>, c: seq<Call>, provider: string,
                         xs: seq<CatalogueItem>, ys: seq<CatalogueItem>)
    requires Resolutions(resolves, a, b, provider, xs) && Resolutions(resolves, b, c, provider, ys)
    ensures Resolutions(resolves, a, c, provider, xs + ys)
  {
    if resolves {
      forall k | |a| <= k < |c| ensures c[k].provider == provider && c[k].item == (xs + ys)[k - |a|] {
        if k < |b| {
          assert c[k] == b[k];
        }
      }
    }
  }

  lemma ResolutionsNext(resolves: bool, a: seq<Call>, b: seq<Call>, c: seq<Call>, provider: string, items: seq<CatalogueItem>, k: nat)
    requires k < |items|
    requires Resolutions(resolves, a, b, provider, items[..k]) && Resolutions(resolves, b, c, provider, [items[k]])
    ensures Resolutions(resolves, a, c, provider, items[..k + 1])
  {
    ResolutionsTwice(resolves, a, b, c, provider, items[..k], [items[k]]);
    assert items[..k + 1] == items[..k] + [items[k]];
  }

  /** Hearing of valid items maps each of them and moves nothing else. */
  lemma {:induction false} ResolutionsIdentify(o: Identity.Options, resolves: bool, earlier: seq<Call>, later: seq<Call>,
                                               provider: string, items: seq<CatalogueItem>)
    requires Run(o, later) && Resolutions(resolves, earlier, later, provider, items)
    requires provider != "" && ValidItems(items)
    ensures Identified(resolves, After(o, earlier).mappings, After(o, later).mappings, provider, Landed(items).Keys)
  {
    if resolves {
      if items == [] {
        assert later == earlier;
      } else {
        var n, front, last := |items| - 1, later[..|later| - 1], later[|later| - 1];
        assert later == front + [last];
        Extend(o, front, last);
        ResolutionsIdentify(o, resolves, earlier, front, provider, items[..n]);
        CallIdentifies(o, front, last);
        OneMoreIdentified(After(o, earlier).mappings, After(o, front).mappings, After(o, later).mappings, provider, items);
      }
    }
  }

  lemma OneMoreIdentified(m0: map<Slot, Mapping>, m1: map<Slot, Mapping>, m2: map<Slot, Mapping>, provider: string,
                          items: seq<CatalogueItem>)
    requires items != [] && Identified(true, m0, m1, provider, Landed(items[..|items| - 1]).Keys)
    requires Identified(true, m1, m2, provider, {items[|items| - 1].nativeId})
    ensures Identified(true, m0, m2, provider, Landed(items).Keys)
  {
    var n := |items| - 1;
    IdentifiedTwice(true, m0, m1, m2, provider, Landed(items[..n]).Keys, {items[n].nativeId}, Landed(items).Keys);
  }

  /** What landing valid items does to the registry. */
  lemma LandedIdentify(o: Identity.Options, resolves: bool, earlier: seq<Call>, later: seq<Call>, provider: string,
                       items: seq<CatalogueItem>)
    requires Run(o, later) && Resolutions(resolves, earlier, later, provider, items)
    requires provider != "" && ValidItems(items)
    ensures Identified(resolves, After(o, earlier).mappings, After(o, later).mappings, provider, Landed(items).Keys)
    ensures After(o, later) == After(o, earlier) <==> !resolves || AllSettled(o, After(o, earlier), provider, items)
  {
    ResolutionsIdentify(o, resolves, earlier, later, provider, items);
    IdentityUnchangedIff(o, resolves, earlier, later, provider, items);
  }

  lemma CallIdentifies(o: Identity.Options, front: seq<Call>, c: Call)
    requires Run(o, front + [c]) && Accepted(c)
    ensures Identified(true, After(o, front).mappings, After(o, front + [c]).mappings, c.provider, {c.item.nativeId})
  {
    Extend(o, front, c);
    NextKeepsMapped(o, After(o, front), c);
    MappedAsAnswered(o, front, c);
  }

  /** Every one of these items' proofs is the stored one. */
  ghost predicate AllSettled(o: Identity.Options, st: State, provider: string, items: seq<CatalogueItem>)
  {
    forall i :: 0 <= i < |items| ==>
      var slot := Slot(provider, items[i].nativeId);
      slot in st.mappings && o.SameProof(st.mappings[slot].proof, Identity.ProofOf(items[i].Live()))
  }

  /** Landing valid items changes nothing in the registry exactly when all of
      them were settled there before. */
  lemma IdentityUnchangedIff(o: Identity.Options, resolves: bool, earlier: seq<Call>, later: seq<Call>, provider: string,
                             items: seq<CatalogueItem>)
    requires Run(o, later) && Resolutions(resolves, earlier, later, provider, items)
    requires provider != "" && ValidItems(items)
    ensures resolves ==>
      (After(o, later) == After(o, earlier) <==> AllSettled(o, After(o, earlier), provider, items))
  {
    if resolves {
      var st := After(o, earlier);
      UnchangedIffSettled(o, earlier, later);
      if forall k :: |earlier| <= k < |later| && Accepted(later[k]) ==> Settled(o, st, later[k]) {
        forall i | 0 <= i < |items|
          ensures Slot(provider, items[i].nativeId) in st.mappings
          ensures o.SameProof(st.mappings[Slot(provider, items[i].nativeId)].proof, Identity.ProofOf(items[i].Live()))
        {
          var c := later[|earlier| + i];
          assert c.item == items[i] && Accepted(c) && Settled(o, st, c);
        }
      }
      if AllSettled(o, st, provider, items) {
        forall k | |earlier| <= k < |later| ensures Settled(o, st, later[k]) {
          assert later[k].item == items[k - |earlier|];
        }
      }
    }
  }

  /** What the write paths do to rows and mappings together: no mapping is lost,
      and an item newly cached on any account is mapped. */
  ghost predicate KeepsMapped(provider: string, rows0: Rows, m0: map<Slot, Mapping>, rows1: Rows, m1: map<Slot, Mapping>)
  {
    && m0.Keys <= m1.Keys
    && forall account, id :: id in Of(rows1, account) ==> id in Of(rows0, account) || Slot(provider, id) in m1
  }

  lemma LandingKeepsMapped(resolves: bool, provider: string, rows0: Rows, m0: map<Slot, Mapping>, rows1: Rows,
                           m1: map<Slot, Mapping>, account: string, items: Account, ids: set<string>)
    requires Only(rows0, rows1, account, items) && items.Keys <= Of(rows0, account).Keys + ids
    requires Identified(resolves, m0, m1, provider, ids)
    ensures resolves ==> KeepsMapped(provider, rows0, m0, rows1, m1)
  {
  }

  /** With every cached item mapped, a reconciliation that mapped what it saw
      announces each change exactly once. */
  lemma ChangesAnnounced(rows: Rows, account: string, departed: seq<string>, arrived: seq<string>, seen: set<string>,
                         m0: map<Slot, Mapping>, m1: map<Slot, Mapping>, provider: string, before: seq<Event>, after: seq<Event>)
    requires MovesOnly(m0, m1, provider, seen) && AllIn(m1, provider, seen)
    requires Lists(departed, Of(rows, account).Keys - seen) && Lists(arrived, seen - Of(rows, account).Keys)
    requires after == before + (Announced(m1, provider, account, departed, false) + Announced(m1, provider, account, arrived, true))
    ensures account != "" && AllMapped(rows, m0, provider) ==>
      OneEventPerChange(before, after, m1, provider, account, departed, arrived)
  {
    if account != "" && AllMapped(rows, m0, provider) {
      OneEventEach(m1, provider, account, departed, false);
      OneEventEach(m1, provider, account, arrived, true);
    }
  }

  lemma {:induction false} AnnouncedStable(m0: map<Slot, Mapping>, m1: map<Slot, Mapping>, provider: string, id: string,
                                           account: string, ids: seq<string>, present: bool)
    requires MovesOnly(m0, m1, provider, {id}) && id !in ids
    ensures Announced(m0, provider, account, ids, present) == Announced(m1, provider, account, ids, present)
  {
    if ids != [] {
      AnnouncedStable(m0, m1, provider, id, account, ids[..|ids| - 1], present);
    }
  }

  lemma RemappedMovesOnly(st: State, slot: Slot, entry: string, proof: Identity.Proof, conflictId: string)
    ensures var m := Remapped(st, slot, entry, proof, conflictId).mappings;
      MovesOnly(st.mappings, m, slot.provider, {slot.nativeId}) && slot in m
  {
  }

  lemma NextKeepsMapped(o: Identity.Options, st: State, c: Call)
    ensures MovesOnly(st.mappings, Next(o, st, c).mappings, c.provider, {c.item.nativeId})
    ensures c.out.Resolved? && c.out.status != Unchanged ==> c.ItemSlot() in Next(o, st, c).mappings
  {
    if c.out.Resolved? && c.out.status != Unchanged {
      var mid := Placed(o, st, c.out.entry, c.item, c.provider);
      PlacingLeavesMappings(o, st, c);
      RemappedMovesOnly(mid, c.ItemSlot(), c.out.entry, c.ItemProof(), c.conflictId);
    }
  }

  class Synchronizer {
    const provider: string
    const reg: Registry
    /** Whether identity resolution is wired into the write path. */
    const resolves: bool
    /** Whether an event sink and an entry lookup are wired. */
    const notifies: bool
    /** Whether a refresh client is wired. */
    const refreshes: bool
    var rows: Rows
    var manifests: map<string, nat>
    var events: seq<Event>

    ghost predicate Valid()
      reads reg
    {
      provider != "" && reg.Valid()
    }

    constructor (provider: string, reg: Registry, resolves: bool, notifies: bool, refreshes: bool)
      requires provider != "" && reg.Valid()
      ensures Valid() && this.provider == provider && this.reg == reg
      ensures this.resolves == resolves && this.notifies == notifies && this.refreshes == refreshes
      ensures rows == map[] && manifests == map[] && events == []
      ensures AllMapped(rows, reg.mappings, provider)
    {
      this.provider, this.reg := provider, reg;
      this.resolves, this.notifies, this.refreshes := resolves, notifies, refreshes;
      rows, manifests, events := map[], map[], [];
    }

    /** Identity work for one item, when wired: afterwards it is mapped. */
    method ResolveItem(item: CatalogueItem)
      requires Valid() && item.Valid() && item.Bytes()
      modifies reg
      ensures Valid()
      ensures Resolutions(resolves, old(reg.history), reg.history, provider, [item])
    {
      if resolves {
        ghost var conflictId;
        var out;
        out, conflictId := reg.Resolve(provider, item);
      }
    }

    /** Upserts one item and resolves it. */
    method PutItem(account: string, item: CatalogueItem)
      requires Valid() && item.Valid() && item.Bytes()
      modifies this`rows, reg
      ensures Valid()
      ensures Only(old(rows), rows, account, Of(old(rows), account)[item.nativeId := item])
      ensures Resolutions(resolves, old(reg.history), reg.history, provider, [item])
    {
      rows := rows[account := Of(rows, account)[item.nativeId := item]];
      ResolveItem(item);
    }

    method DeleteItem(account: string, id: string)
      modifies this`rows
      ensures Only(old(rows), rows, account, Of(old(rows), account) - {id})
    {
      if account in rows {
        rows := rows[account := rows[account] - {id}];
      }
    }

    /** Publishes one availability event; an unmapped item is skipped, and an
        envelope without an account is refused. */
    method Notify(account: string, id: string, present: bool)
      requires NamedSlots(reg.mappings)
      modifies this`events
      ensures events == old(events) + (if notifies then Announced(reg.mappings, provider, account, [id], present) else [])
    {
      assert [id][..0] == [];
      if !notifies {
        return;
      }
      var ok, entry := reg.Lookup(provider, id);
      if entry.Some? && account != "" {
        events := events + [Event(account, entry.value, present)];
      }
    }

    /** PutItem, seen from an earlier state of the rows. */
    method PutTracked(account: string, item: CatalogueItem, ghost before: Rows, ghost held: Account)
      requires Valid() && item.Valid() && item.Bytes() && Only(before, rows, account, held)
      modifies this`rows, reg
      ensures Valid() && Only(before, rows, account, held[item.nativeId := item])
      ensures Resolutions(resolves, old(reg.history), reg.history, provider, [item])
    {
      ghost var mid := rows;
      PutItem(account, item);
      OnlyTwice(before, mid, rows, account, held, held[item.nativeId := item]);
    }

    /** PutTracked for the next of several items. */
    method PutNext(account: string, items: seq<CatalogueItem>, k: nat, ghost before: Rows, ghost base: Account, ghost start: seq<Call>)
      requires Valid() && k < |items| && items[k].Valid() && items[k].Bytes()
      requires Only(before, rows, account, base + Landed(items[..k]))
      requires Resolutions(resolves, start, reg.history, provider, items[..k])
      modifies this`rows, reg
      ensures Valid()
      ensures Only(before, rows, account, base + Landed(items[..k + 1]))
      ensures Resolutions(resolves, start, reg.history, provider, items[..k + 1])
    {
      ghost var mid, held := reg.history, base + Landed(items[..k]);
      PutTracked(account, items[k], before, held);
      assert Only(before, rows, account, base + Landed(items[..k + 1])) by {
        LandOneMore(base, items, k);
      }
      assert Resolutions(resolves, start, reg.history, provider, items[..k + 1]) by {
        ResolutionsNext(resolves, start, mid, reg.history, provider, items, k);
      }
    }

    /** Lands one validated page, item by item. */
    method LandPage(account: string, items: seq<CatalogueItem>) returns (ids: set<string>)
      requires Valid() && ValidItems(items) && forall i :: 0 <= i < |items| ==> items[i].Bytes()
      modifies this`rows, reg
      ensures Valid()
      ensures Only(old(rows), rows, account, Of(old(rows), account) + Landed(items))
      ensures ids == Landed(items).Keys
      ensures Resolutions(resolves, old(reg.history), reg.history, provider, items)
    {
      ids := {};
      ghost var before, base := rows, Of(rows, account);
      assert base + Landed(items[..0]) == base;
      for k := 0 to |items|
        invariant Valid()
        invariant Only(before, rows, account, base + Landed(items[..k]))
        invariant ids == Landed(items[..k]).Keys
        invariant Resolutions(resolves, old(reg.history), reg.history, provider, items[..k])
      {
        PutNext(account, items, k, before, base, old(reg.history));
        LandOneMore(base, items, k);
        ids := ids + {items[k].nativeId};
      }
      assert items[..|items|] == items;
    }

    /** Pages the provider until its last page, landing each valid one. */
    method PullPages(account: string, client: Client) returns (ok: bool, pages: nat, items: nat, seen: set<string>)
      requires Valid() && ByteClient(client)
      modifies this`rows, reg
      ensures Valid()
      ensures ok ==> pages <= MAX_PAGES && Completes(client, pages)
      ensures !ok ==> Continues(client, pages) && (pages >= MAX_PAGES || !Good(client, pages))
      ensures Only(old(rows), rows, account, Of(old(rows), account) + Catalogue(client, pages))
      ensures seen == Catalogue(client, pages).Keys && items == ItemCount(client, pages)
      ensures Resolutions(resolves, old(reg.history), reg.history, provider, PageItems(client, pages))
    {
      ghost var before, base := rows, Of(rows, account);
      pages, items, seen := 0, 0, {};
      assert base + Catalogue(client, 0) == base;
      while true
        invariant Valid() && pages <= MAX_PAGES && Continues(client, pages)
        invariant Only(before, rows, account, base + Catalogue(client, pages))
        invariant seen == Catalogue(client, pages).Keys && items == ItemCount(client, pages)
        invariant Resolutions(resolves, old(reg.history), reg.history, provider, PageItems(client, pages))
        decreases MAX_PAGES - pages
      {
        if pages >= MAX_PAGES {
          return false, pages, items, seen;
        }
        var good, response := Fetch(client, pages);
        if !good {
          return false, pages, items, seen;
        }
        seen := AcceptPage(account, client, pages, seen, before, base, old(reg.history));
        items, pages := items + |response.items|, pages + 1;
        if response.next == "" {
          return true, pages, items, seen;
        }
      }
    }

    /** Requests and validates one page before any of it lands. */
    method Fetch(client: Client, n: nat) returns (good: bool, response: Response)
      ensures response == client(n) && (good <==> Good(client, n))
    {
      response := client(n);
      good := response.Page? && ValidPage(response.items);
    }

    /** Lands a fetched page on top of the pages before it. */
    method AcceptPage(account: string, client: Client, n: nat, seen: set<string>, ghost before: Rows,
                      ghost base: Account, ghost start: seq<Call>)
      returns (now: set<string>)
      requires Valid() && ByteClient(client) && Good(client, n)
      requires Only(before, rows, account, base + Catalogue(client, n)) && seen == Catalogue(client, n).Keys
      requires Resolutions(resolves, start, reg.history, provider, PageItems(client, n))
      modifies this`rows, reg
      ensures Valid()
      ensures Only(before, rows, account, base + Catalogue(client, n + 1)) && now == Catalogue(client, n + 1).Keys
      ensures Resolutions(resolves, start, reg.history, provider, PageItems(client, n + 1))
    {
      ghost var mid, heard := rows, reg.history;
      var ids := LandPage(account, client(n).items);
      now := seen + ids;
      CatalogueOneMore(base, client, n);
      OnlyTwice(before, mid, rows, account, base + Catalogue(client, n), base + Catalogue(client, n + 1));
      ResolutionsTwice(resolves, start, heard, reg.history, provider, PageItems(client, n), client(n).items);
    }

    /** Drops the departed rows and announces departures, then arrivals. */
    method Reconcile(account: string, prev: set<string>, seen: set<string>)
      returns (removed: nat, ghost departed: seq<string>, ghost arrived: seq<string>)
      requires Valid()
      modifies this`rows, this`events
      ensures Lists(departed, prev - seen) && Lists(arrived, seen - prev) && removed == |prev - seen|
      ensures Only(old(rows), rows, account, Of(old(rows), account) - (prev - seen))
      ensures events == old(events) + (if notifies
        then Announced(reg.mappings, provider, account, departed, false) + Announced(reg.mappings, provider, account, arrived, true)
        else [])
    {
      reg.Reached();
      MappedSlotsAreNamed(reg.View());
      removed, departed := DropDeparted(account, prev, seen);
      arrived := AnnounceArrivals(account, prev, seen);
      ListsSize(departed, prev - seen);
    }

    method DropDeparted(account: string, prev: set<string>, seen: set<string>)
      returns (removed: nat, ghost departed: seq<string>)
      requires NamedSlots(reg.mappings)
      modifies this`rows, this`events
      ensures Lists(departed, prev - seen) && removed == |departed|
      ensures Only(old(rows), rows, account, Of(old(rows), account) - (prev - seen))
      ensures events == old(events) + (if notifies then Announced(reg.mappings, provider, account, departed, false) else [])
    {
      ghost var before, base := rows, Of(rows, account);
      removed, departed := 0, [];
      var rest := prev;
      assert base - Members([]) == base;
      while rest != {}
        invariant rest <= prev && Lists(departed, (prev - rest) - seen) && removed == |departed|
        invariant Only(before, rows, account, base - Members(departed))
        invariant events == old(events) + (if notifies then Announced(reg.mappings, provider, account, departed, false) else [])
        decreases rest
      {
        var id :| id in rest;
        ghost var gone := (prev - rest) - seen;
        rest := rest - {id};
        assert (prev - rest) - seen == if id in seen then gone else gone + {id};
        if id !in seen {
          DropOne(account, id, before, base, departed, old(events));
          removed, departed := removed + 1, departed + [id];
        }
      }
      assert Members(departed) == prev - seen;
    }

    method AnnounceArrivals(account: string, prev: set<string>, seen: set<string>) returns (ghost arrived: seq<string>)
      requires NamedSlots(reg.mappings)
      modifies this`events
      ensures Lists(arrived, seen - prev)
      ensures events == old(events) + (if notifies then Announced(reg.mappings, provider, account, arrived, true) else [])
    {
      arrived := [];
      var rest := seen;
      while rest != {}
        invariant rest <= seen && Lists(arrived, (seen - rest) - prev)
        invariant events == old(events) + (if notifies then Announced(reg.mappings, provider, account, arrived, true) else [])
        decreases rest
      {
        var id :| id in rest;
        rest := rest - {id};
        if id !in prev {
          assert id !in arrived;
          Notify(account, id, true);
          AnnouncedOneMore(reg.mappings, provider, account, arrived, id, true);
          arrived := arrived + [id];
        }
      }
    }

    /** Syncs one account. It succeeds exactly when the provider completes a
        valid catalogue within the page bound; then the account's rows are that
        catalogue and nothing else, the departed are counted, and departures
        and arrivals are announced once each. A failed run deletes no row, keeps
        the manifest and announces nothing. */
    method SyncAccount(account: string, client: Client)
      returns (ok: bool, stats: Stats, ghost departed: seq<string>, ghost arrived: seq<string>)
      requires Valid() && ByteClient(client)
      modifies this, reg
      ensures Valid()
      ensures ok <==> Completable(client)
      ensures ok ==>
        && Completes(client, stats.pages)
        && Only(old(rows), rows, account, Catalogue(client, stats.pages))
        && manifests == old(manifests)[account := stats.items]
      ensures ok ==>
        var prev, now := Of(old(rows), account).Keys, Catalogue(client, stats.pages).Keys;
        && stats.removed == |prev - now|
        && Lists(departed, prev - now) && Lists(arrived, now - prev)
        && events == old(events) + (if notifies
             then Announced(reg.mappings, provider, account, departed, false) + Announced(reg.mappings, provider, account, arrived, true)
             else [])
      ensures ok && resolves && notifies && account != "" && old(AllMapped(rows, reg.mappings, provider)) ==>
        OneEventPerChange(old(events), events, reg.mappings, provider, account, departed, arrived)
      ensures !ok ==> Continues(client, stats.pages) && (stats.pages >= MAX_PAGES || !Good(client, stats.pages))
      ensures !ok ==>
        && Only(old(rows), rows, account, Of(old(rows), account) + Catalogue(client, stats.pages))
        && manifests == old(manifests) && events == old(events) && stats.removed == 0
      ensures stats.items == ItemCount(client, stats.pages)
      ensures Identified(resolves, old(reg.mappings), reg.mappings, provider, Catalogue(client, stats.pages).Keys)
      ensures Resolutions(resolves, old(reg.history), reg.history, provider, PageItems(client, stats.pages))
      ensures reg.View() == old(reg.View()) <==>
        !resolves || AllSettled(reg.opts, old(reg.View()), provider, PageItems(client, stats.pages))
      ensures resolves ==> KeepsMapped(provider, old(rows), old(reg.mappings), rows, reg.mappings)
    {
      ghost var before := rows;
      var prev := Of(rows, account).Keys;
      departed, arrived := [], [];
      var pages, items, seen;
      ok, pages, items, seen := PullPages(account, client);
      PagesIdentify(reg.opts, resolves, old(reg.history), reg.history, provider, client, pages);
      if !ok {
        NeverCompletes(client, pages);
        stats := Stats(items, pages, 0);
        LandingKeepsMapped(resolves, provider, before, old(reg.mappings), rows, reg.mappings, account,
                           Of(before, account) + Catalogue(client, pages), seen);
        return;
      }
      ghost var mid := rows;
      var removed;
      removed, departed, arrived := Reconcile(account, prev, seen);
      ReconciledRows(Of(before, account), Catalogue(client, pages));
      OnlyTwice(before, mid, rows, account, Of(before, account) + Catalogue(client, pages), Catalogue(client, pages));
      LandingKeepsMapped(resolves, provider, before, old(reg.mappings), rows, reg.mappings, account, Catalogue(client, pages), seen);
      if resolves && notifies {
        ChangesAnnounced(before, account, departed, arrived, seen, old(reg.mappings), reg.mappings, provider, old(events), events);
      }
      manifests := manifests[account := items];
      stats := Stats(items, pages, removed);
    }

    /** Lands provider search results. A single invalid item rejects the whole
        batch before anything is written; nothing is ever removed. */
    method IngestItems(account: string, items: seq<CatalogueItem>) returns (ok: bool, ghost arrived: seq<string>)
      requires Valid() && forall i :: 0 <= i < |items| ==> items[i].Bytes()
      modifies this`rows, this`events, reg
      ensures Valid()
      ensures ok <==> ValidItems(items)
      ensures !ok ==> rows == old(rows) && events == old(events) && reg.history == old(reg.history)
      ensures ok ==> Only(old(rows), rows, account, Of(old(rows), account) + Landed(items))
      ensures ok ==> Lists(arrived, Landed(items).Keys - Of(old(rows), account).Keys)
      ensures ok ==> Resolutions(resolves, old(reg.history), reg.history, provider, items)
      ensures ok ==>
        Added(old(events), events, notifies,
              Arrivals(resolves, old(reg.mappings), reg.history, |old(reg.history)|, provider, account, Of(old(rows), account).Keys, items))
      ensures ok && resolves ==> ArrivalEvents(old(events), events, account, if notifies && account != "" then |arrived| else 0)
      ensures ok && Distinct(items) ==> Announces(old(events), events, notifies, reg.mappings, provider, account, arrived)
      ensures Identified(resolves, old(reg.mappings), reg.mappings, provider, if ok then Landed(items).Keys else {})
      ensures ok ==>
        (reg.View() == old(reg.View()) <==> !resolves || AllSettled(reg.opts, old(reg.View()), provider, items))
      ensures resolves ==> KeepsMapped(provider, old(rows), old(reg.mappings), rows, reg.mappings)
    {
      arrived := [];
      if !ValidItems(items) {
        return false, arrived;
      }
      ghost var before, mapped, heard, base := rows, reg.mappings, reg.history, Of(rows, account);
      LandBatch(account, items);
      arrived := NewIds(base.Keys, items);
      NewIdsAreArrivals(base.Keys, items);
      ResolutionsAnswer(reg.opts, resolves, heard, reg.history, provider, items);
      ArrivalsCounted(resolves, mapped, reg.history, |heard|, provider, account, base.Keys, items);
      if Distinct(items) {
        DistinctArrivals(reg.opts, resolves, heard, reg.history, provider, account, base.Keys, items);
      }
      LandedIdentify(reg.opts, resolves, heard, reg.history, provider, items);
      LandingKeepsMapped(resolves, provider, before, mapped, rows, reg.mappings, account, base + Landed(items),
                         Landed(items).Keys);
      return true, arrived;
    }

    /** Lands valid items one by one, announcing each that is new by then. */
    method LandBatch(account: string, items: seq<CatalogueItem>)
      requires Valid() && ValidItems(items) && forall i :: 0 <= i < |items| ==> items[i].Bytes()
      modifies this`rows, this`events, reg
      ensures Valid()
      ensures Only(old(rows), rows, account, Of(old(rows), account) + Landed(items))
      ensures Resolutions(resolves, old(reg.history), reg.history, provider, items)
      ensures Added(old(events), events, notifies,
        Arrivals(resolves, old(reg.mappings), reg.history, |old(reg.history)|, provider, account, Of(old(rows), account).Keys, items))
    {
      ghost var before, base := rows, Of(rows, account);
      assert base + Landed(items[..0]) == base;
      for k := 0 to |items|
        invariant Valid()
        invariant Only(before, rows, account, base + Landed(items[..k]))
        invariant Resolutions(resolves, old(reg.history), reg.history, provider, items[..k])
        invariant Added(old(events), events, notifies,
          Arrivals(resolves, old(reg.mappings), reg.history, |old(reg.history)|, provider, account, base.Keys, items[..k]))
      {
        IngestNext(account, items, k, before, base, old(reg.mappings), old(reg.history), old(events));
      }
      assert items[..|items|] == items;
    }

    /** The next item of a batch, on top of those landed before it. */
    method IngestNext(account: string, items: seq<CatalogueItem>, k: nat, ghost before: Rows, ghost base: Account,
                      ghost m0: map<Slot, Mapping>, ghost heard: seq<Call>, ghost start: seq<Event>)
      requires Valid() && k < |items| && items[k].Valid() && items[k].Bytes()
      requires Only(before, rows, account, base + Landed(items[..k]))
      requires Resolutions(resolves, heard, reg.history, provider, items[..k]) && m0 == After(reg.opts, heard).mappings
      requires Added(start, events, notifies, Arrivals(resolves, m0, reg.history, |heard|, provider, account, base.Keys, items[..k]))
      modifies this`rows, this`events, reg
      ensures Valid()
      ensures Only(before, rows, account, base + Landed(items[..k + 1]))
      ensures Resolutions(resolves, heard, reg.history, provider, items[..k + 1])
      ensures Added(start, events, notifies,
        Arrivals(resolves, m0, reg.history, |heard|, provider, account, base.Keys, items[..k + 1]))
    {
      ghost var mid, told, mapped, held := reg.history, events, reg.mappings, base + Landed(items[..k]);
      ghost var more := IngestOne(account, items[k], before, held);
      assert Only(before, rows, account, base + Landed(items[..k + 1])) by {
        LandOneMore(base, items, k);
      }
      assert Resolutions(resolves, heard, reg.history, provider, items[..k + 1])
          && Added(start, events, notifies,
               Arrivals(resolves, m0, reg.history, |heard|, provider, account, base.Keys, items[..k + 1])) by {
        BatchNext(resolves, m0, mapped, heard, mid, reg.history, provider, account, base.Keys, items, k, start, told, events, notifies);
      }
    }

    /** Lands one item and announces it when it was not cached before, on the
        entry its resolution answered. */
    method IngestOne(account: string, item: CatalogueItem, ghost before: Rows, ghost held: Account)
      returns (ghost more: seq<Event>)
      requires Valid() && item.Valid() && item.Bytes() && Only(before, rows, account, held)
      modifies this`rows, this`events, reg
      ensures Valid()
      ensures Only(before, rows, account, held[item.nativeId := item])
      ensures Resolutions(resolves, old(reg.history), reg.history, provider, [item])
      ensures more == if item.nativeId in held then []
                      else Arrival(resolves, old(reg.mappings), reg.history, |old(reg.history)|, provider, account, item.nativeId)
      ensures Added(old(events), events, notifies, more)
    {
      more := [];
      var known := item.nativeId in Of(rows, account);
      ghost var heard := reg.history;
      PutTracked(account, item, before, held);
      if !known {
        reg.Reached();
        MappedSlotsAreNamed(reg.View());
        Notify(account, item.nativeId, true);
        more := Arrival(resolves, old(reg.mappings), reg.history, |heard|, provider, account, item.nativeId);
        ArrivalIsMapping(reg.opts, resolves, heard, reg.history, provider, account, item);
      }
    }

    /** Applies one availability answer: lands what the provider still carries,
        drops every requested item it did not name, then announces departures
        and arrivals. Items are validated one at a time as they land, so a
        contract violation at item k leaves the k items before it written. */
    method RefreshItems(account: string, requested: seq<string>, answer: Option<seq<CatalogueItem>>)
      returns (ok: bool, removed: nat, ghost landed: nat)
      requires Valid() && (answer.Some? ==> forall i :: 0 <= i < |answer.value| ==> answer.value[i].Bytes())
      modifies this`rows, this`events, reg
      ensures Valid()
      ensures ok <==> refreshes && (requested == [] || (answer.Some? && ValidItems(answer.value)))
      ensures ok && requested != [] ==> landed == |answer.value|
      ensures refreshes && !ok && answer.Some? ==> landed < |answer.value|
      ensures !ok ==> events == old(events) && removed == 0
      ensures !refreshes || requested == [] || answer.None? ==> rows == old(rows) && events == old(events) && removed == landed == 0
      ensures Identified(resolves, old(reg.mappings), reg.mappings, provider, Landed(Applied(requested, answer, landed)).Keys)
      ensures Resolutions(resolves, old(reg.history), reg.history, provider, Applied(requested, answer, landed))
      ensures reg.View() == old(reg.View()) <==>
        !resolves || AllSettled(reg.opts, old(reg.View()), provider, Applied(requested, answer, landed))
      ensures resolves ==> KeepsMapped(provider, old(rows), old(reg.mappings), rows, reg.mappings)
      ensures refreshes && !ok && answer.Some? ==>
        (Of(rows, account) == Of(old(rows), account) <==> Held(Of(old(rows), account), answer.value[..landed]))
      ensures refreshes && !ok && answer.Some? ==>
        && ValidItems(answer.value[..landed]) && !answer.value[landed].Valid()
        && Only(old(rows), rows, account, Of(old(rows), account) + Landed(answer.value[..landed]))
      ensures ok && requested != [] ==>
        var items, base := answer.value, Of(old(rows), account);
        var missing := Missing(requested, Landed(items).Keys);
        && Only(old(rows), rows, account, (base + Landed(items)) - Members(missing))
        && removed == |missing|
        && events == old(events) + (if notifies
             then Announced(reg.mappings, provider, account, missing, false)
                + Announced(reg.mappings, provider, account, Flagged(items, NewFlags(base.Keys, items)), true)
             else [])
    {
      removed, landed := 0, 0;
      if !refreshes {
        return false, 0, 0;
      }
      if requested == [] {
        return true, 0, 0;
      }
      if answer.None? {
        return false, 0, 0;
      }
      var items := answer.value;
      ghost var before, base := rows, Of(rows, account);
      var flags, reached := LandAnswer(account, items);
      landed := reached;
      LandedIdentify(reg.opts, resolves, old(reg.history), reg.history, provider, items[..landed]);
      if reached < |items| {
        UnchangedIff(base, items[..landed]);
        LandingKeepsMapped(resolves, provider, before, old(reg.mappings), rows, reg.mappings, account,
                           base + Landed(items[..landed]), Landed(items[..landed]).Keys);
        return false, 0, landed;
      }
      assert items[..|items|] == items;
      removed := Settle(account, requested, items, flags, before, base + Landed(items));
      LandingKeepsMapped(resolves, provider, before, old(reg.mappings), rows, reg.mappings, account,
                         (base + Landed(items)) - Members(Missing(requested, Landed(items).Keys)), Landed(items).Keys);
      return true, removed, landed;
    }

    /** The refresh after every item landed: departures, then arrivals. */
    method Settle(account: string, requested: seq<string>, items: seq<CatalogueItem>, flags: map<string, bool>,
                  ghost before: Rows, ghost held: Account) returns (removed: nat)
      requires Valid()
      requires Only(before, rows, account, held)
      modifies this`rows, this`events
      ensures var missing := Missing(requested, flags.Keys);
        && Only(before, rows, account, held - Members(missing)) && removed == |missing|
        && events == old(events) + (if notifies
             then Announced(reg.mappings, provider, account, missing, false)
                + Announced(reg.mappings, provider, account, Flagged(items, flags), true)
             else [])
    {
      reg.Reached();
      MappedSlotsAreNamed(reg.View());
      removed := DropMissing(account, requested, flags.Keys, before, held);
      AnnounceFlagged(account, items, flags);
    }

    /** Lands items until the first invalid one, noting which were new. */
    method LandAnswer(account: string, items: seq<CatalogueItem>) returns (flags: map<string, bool>, landed: nat)
      requires Valid() && forall i :: 0 <= i < |items| ==> items[i].Bytes()
      modifies this`rows, reg
      ensures Valid()
      ensures landed <= |items| && ValidItems(items[..landed]) && (landed < |items| ==> !items[landed].Valid())
      ensures Only(old(rows), rows, account, Of(old(rows), account) + Landed(items[..landed]))
      ensures flags == NewFlags(Of(old(rows), account).Keys, items[..landed])
      ensures Resolutions(resolves, old(reg.history), reg.history, provider, items[..landed])
    {
      ghost var before, base := rows, Of(rows, account);
      flags, landed := map[], 0;
      assert base + Landed(items[..0]) == base;
      while landed < |items| && items[landed].Valid()
        invariant Valid() && landed <= |items| && ValidItems(items[..landed])
        invariant Only(before, rows, account, base + Landed(items[..landed]))
        invariant flags == NewFlags(base.Keys, items[..landed])
        invariant Resolutions(resolves, old(reg.history), reg.history, provider, items[..landed])
      {
        flags := LandNext(account, items, landed, flags, before, base, old(reg.history));
        landed := landed + 1;
      }
    }

    method LandNext(account: string, items: seq<CatalogueItem>, k: nat, flags: map<string, bool>,
                    ghost before: Rows, ghost base: Account, ghost start: seq<Call>)
      returns (now: map<string, bool>)
      requires Valid() && k < |items| && items[k].Valid() && items[k].Bytes() && ValidItems(items[..k])
      requires Only(before, rows, account, base + Landed(items[..k])) && flags == NewFlags(base.Keys, items[..k])
      requires Resolutions(resolves, start, reg.history, provider, items[..k])
      modifies this`rows, reg
      ensures Valid() && ValidItems(items[..k + 1])
      ensures Only(before, rows, account, base + Landed(items[..k + 1])) && now == NewFlags(base.Keys, items[..k + 1])
      ensures Resolutions(resolves, start, reg.history, provider, items[..k + 1])
    {
      assert items[..k + 1] == items[..k] + [items[k]];
      var id := items[k].nativeId;
      now := flags[id := id !in Of(rows, account)];
      FlagOneMore(base, items, k, id);
      PutNext(account, items, k, before, base, start);
    }

    /** Drops one unnamed item and announces its departure. */
    method DropOne(account: string, id: string, ghost before: Rows, ghost held: Account,
                   ghost gone: seq<string>, ghost start: seq<Event>)
      requires NamedSlots(reg.mappings)
      requires Only(before, rows, account, held - Members(gone))
      requires events == start + (if notifies then Announced(reg.mappings, provider, account, gone, false) else [])
      modifies this`rows, this`events
      ensures Only(before, rows, account, held - Members(gone + [id]))
      ensures events == start + (if notifies then Announced(reg.mappings, provider, account, gone + [id], false) else [])
    {
      ghost var mid := rows;
      DeleteItem(account, id);
      assert Members(gone + [id]) == Members(gone) + {id};
      assert (held - Members(gone)) - {id} == held - Members(gone + [id]);
      OnlyTwice(before, mid, rows, account, held - Members(gone), held - Members(gone + [id]));
      Notify(account, id, false);
      AnnouncedOneMore(reg.mappings, provider, account, gone, id, false);
    }

    method DropMissing(account: string, requested: seq<string>, present: set<string>, ghost before: Rows,
                       ghost held: Account)
      returns (removed: nat)
      requires NamedSlots(reg.mappings)
      requires Only(before, rows, account, held)
      modifies this`rows, this`events
      ensures var missing := Missing(requested, present);
        && Only(before, rows, account, held - Members(missing)) && removed == |missing|
        && events == old(events) + (if notifies then Announced(reg.mappings, provider, account, missing, false) else [])
    {
      removed := 0;
      assert held - Members([]) == held;
      for k := 0 to |requested|
        invariant Only(before, rows, account, held - Members(Missing(requested[..k], present)))
        invariant removed == |Missing(requested[..k], present)|
        invariant events == old(events) + (if notifies
          then Announced(reg.mappings, provider, account, Missing(requested[..k], present), false) else [])
      {
        assert requested[..k + 1][..k] == requested[..k];
        if requested[k] !in present {
          DropOne(account, requested[k], before, held, Missing(requested[..k], present), old(events));
          removed := removed + 1;
        }
      }
      assert requested[..|requested|] == requested;
    }

    method AnnounceIfFlagged(account: string, items: seq<CatalogueItem>, k: nat, flags: map<string, bool>, ghost start: seq<Event>)
      requires NamedSlots(reg.mappings)
      requires k < |items|
      requires Announces(start, events, notifies, reg.mappings, provider, account, Flagged(items[..k], flags))
      modifies this`events
      ensures Announces(start, events, notifies, reg.mappings, provider, account, Flagged(items[..k + 1], flags))
    {
      assert items[..k + 1][..k] == items[..k];
      var id := items[k].nativeId;
      if id in flags && flags[id] {
        Notify(account, id, true);
        AnnouncedOneMore(reg.mappings, provider, account, Flagged(items[..k], flags), id, true);
      }
    }

    method AnnounceFlagged(account: string, items: seq<CatalogueItem>, flags: map<string, bool>)
      requires NamedSlots(reg.mappings)
      modifies this`events
      ensures Announces(old(events), events, notifies, reg.mappings, provider, account, Flagged(items, flags))
    {
      for k := 0 to |items|
        invariant Announces(old(events), events, notifies, reg.mappings, provider, account, Flagged(items[..k], flags))
      {
        AnnounceIfFlagged(account, items, k, flags, old(events));
      }
      assert items[..|items|] == items;
    }
  }

  /** These events were added, when notifying. */
  ghost predicate Added(before: seq<Event>, after: seq<Event>, notifies: bool, more: seq<Event>)
  {
    after == before + (if notifies then more else [])
  }

  lemma AddedTwice(a: seq<Event>, b: seq<Event>, c: seq<Event>, notifies: bool, x: seq<Event>, y: seq<Event>)
    requires Added(a, b, notifies, x) && Added(b, c, notifies, y)
    ensures Added(a, c, notifies, x + y)
  {
  }

  /** The events added are the arrivals of these ids, when notifying. */
  ghost predicate Announces(before: seq<Event>, after: seq<Event>, notifies: bool, mappings: map<Slot, Mapping>,
                            provider: string, account: string, ids: seq<string>)
  {
    Added(before, after, notifies, Announced(mappings, provider, account, ids, true))
  }

  /** The arrival of one item: with resolution wired, on the entry the n-th call
      answered; otherwise on whatever the item was mapped to, if anything. */
  function Arrival(resolves: bool, m0: map<Slot, Mapping>, history: seq<Call>, n: nat, provider: string, account: string,
                   id: string): seq<Event>
    requires resolves ==> n < |history|
  {
    if !resolves then Announced(m0, provider, account, [id], true)
    else if account != "" && history[n].out.Resolved? then [Event(account, history[n].out.entry, true)]
    else []
  }

  /** The arrival of an item behind others: none when it was cached or landed. */
  function ArrivalOf(resolves: bool, m0: map<Slot, Mapping>, history: seq<Call>, n: nat, provider: string, account: string,
                     base: set<string>, front: seq<CatalogueItem>, item: CatalogueItem): seq<Event>
    requires resolves ==> n < |history|
  {
    if item.nativeId in base || item.nativeId in Landed(front) then []
    else Arrival(resolves, m0, history, n, provider, account, item.nativeId)
  }

  /** The arrivals of a batch: one for each item neither cached nor landed before
      it, on the entry its own resolution answered. */
  function Arrivals(resolves: bool, m0: map<Slot, Mapping>, history: seq<Call>, from: nat, provider: string, account: string,
                    base: set<string>, items: seq<CatalogueItem>): seq<Event>
    requires resolves ==> from + |items| <= |history|
    decreases |items|
  {
    if items == [] then []
    else
      var n := |items| - 1;
      Arrivals(resolves, m0, history, from, provider, account, base, items[..n])
        + ArrivalOf(resolves, m0, history, from + n, provider, account, base, items[..n], items[n])
  }

  /** What an item's own resolution answered is what it is mapped to then. */
  lemma ArrivalIsMapping(o: Identity.Options, resolves: bool, earlier: seq<Call>, later: seq<Call>, provider: string,
                         account: string, item: CatalogueItem)
    requires Run(o, later) && Resolutions(resolves, earlier, later, provider, [item]) && provider != "" && item.Valid()
    ensures Arrival(resolves, After(o, earlier).mappings, later, |earlier|, provider, account, item.nativeId)
         == Announced(After(o, later).mappings, provider, account, [item.nativeId], true)
  {
    if resolves {
      OneResolution(earlier, later, provider, item);
      AnswerIsMapping(o, earlier, later[|earlier|], account);
    }
  }

  lemma OneResolution(earlier: seq<Call>, later: seq<Call>, provider: string, item: CatalogueItem)
    requires Resolutions(true, earlier, later, provider, [item])
    ensures later == earlier + [later[|earlier|]]
    ensures later[|earlier|].provider == provider && later[|earlier|].item == item
  {
  }

  lemma AnswerIsMapping(o: Identity.Options, front: seq<Call>, c: Call, account: string)
    requires Run(o, front + [c]) && Accepted(c)
    ensures c.out.Resolved?
    ensures Announced(After(o, front + [c]).mappings, c.provider, account, [c.item.nativeId], true)
         == if account != "" then [Event(account, c.out.entry, true)] else []
  {
    MappedAsAnswered(o, front, c);
    AnnouncedAlone(After(o, front + [c]).mappings, c.provider, account, c.item.nativeId, true);
  }

  /** Every valid item gets an answer. */
  lemma ResolutionsAnswer(o: Identity.Options, resolves: bool, earlier: seq<Call>, later: seq<Call>, provider: string,
                          items: seq<CatalogueItem>)
    requires Run(o, later) && Resolutions(resolves, earlier, later, provider, items)
    requires provider != "" && ValidItems(items)
    ensures resolves ==> forall k :: |earlier| <= k < |later| ==> later[k].out.Resolved?
  {
    if resolves {
      forall k | |earlier| <= k < |later| ensures later[k].out.Resolved? {
        RunOfPrefix(o, later, k);
        assert later[k].item == items[k - |earlier|];
      }
    }
  }

  /** Later calls do not change what the earlier ones answered. */
  lemma {:induction false} ArrivalsStay(resolves: bool, m0: map<Slot, Mapping>, history: seq<Call>, longer: seq<Call>,
                                        from: nat, provider: string, account: string, base: set<string>,
                                        items: seq<CatalogueItem>)
    requires history <= longer && (resolves ==> from + |items| <= |history|)
    ensures Arrivals(resolves, m0, longer, from, provider, account, base, items)
         == Arrivals(resolves, m0, history, from, provider, account, base, items)
  {
    if items != [] {
      ArrivalsStay(resolves, m0, history, longer, from, provider, account, base, items[..|items| - 1]);
    }
  }

  lemma ArrivalsOneMore(resolves: bool, m0: map<Slot, Mapping>, history: seq<Call>, longer: seq<Call>, from: nat,
                        provider: string, account: string, base: set<string>, front: seq<CatalogueItem>, item: CatalogueItem)
    requires history <= longer
    requires resolves ==> |history| == from + |front| && |longer| == |history| + 1
    ensures Arrivals(resolves, m0, longer, from, provider, account, base, front + [item])
         == Arrivals(resolves, m0, history, from, provider, account, base, front)
          + (if item.nativeId in base || item.nativeId in Landed(front) then []
             else Arrival(resolves, m0, longer, from + |front|, provider, account, item.nativeId))
  {
    assert (front + [item])[..|front|] == front;
    ArrivalsStay(resolves, m0, history, longer, from, provider, account, base, front);
  }

  lemma SameArrival(resolves: bool, m0: map<Slot, Mapping>, m1: map<Slot, Mapping>, history: seq<Call>, n0: nat, n1: nat,
                    provider: string, account: string, id: string)
    requires if resolves then n0 == n1 < |history| else m0 == m1
    ensures Arrival(resolves, m0, history, n0, provider, account, id) == Arrival(resolves, m1, history, n1, provider, account, id)
  {
  }

  /** The bookkeeping of one more item of a batch. */
  lemma BatchOneMore(resolves: bool, m0: map<Slot, Mapping>, heard: seq<Call>, mid: seq<Call>, now: seq<Call>,
                     provider: string, account: string, base: set<string>, front: seq<CatalogueItem>, item: CatalogueItem,
                     start: seq<Event>, told: seq<Event>, events: seq<Event>, notifies: bool)
    requires Resolutions(resolves, heard, mid, provider, front) && Resolutions(resolves, mid, now, provider, [item])
    requires Added(start, told, notifies, Arrivals(resolves, m0, mid, |heard|, provider, account, base, front))
    requires Added(told, events, notifies, ArrivalOf(resolves, m0, now, |heard| + |front|, provider, account, base, front, item))
    ensures Resolutions(resolves, heard, now, provider, front + [item])
    ensures Added(start, events, notifies, Arrivals(resolves, m0, now, |heard|, provider, account, base, front + [item]))
  {
    ResolutionsTwice(resolves, heard, mid, now, provider, front, [item]);
    ArrivalsOneMore(resolves, m0, mid, now, |heard|, provider, account, base, front, item);
    AddedTwice(start, told, events, notifies, Arrivals(resolves, m0, mid, |heard|, provider, account, base, front),
      if item.nativeId in base || item.nativeId in Landed(front) then []
      else Arrival(resolves, m0, now, |heard| + |front|, provider, account, item.nativeId));
  }

  lemma BatchAt(resolves: bool, m0: map<Slot, Mapping>, heard: seq<Call>, mid: seq<Call>, now: seq<Call>,
                provider: string, account: string, base: set<string>, items: seq<CatalogueItem>, k: nat,
                start: seq<Event>, told: seq<Event>, events: seq<Event>, notifies: bool)
    requires k < |items| && Resolutions(resolves, heard, mid, provider, items[..k])
    requires Resolutions(resolves, mid, now, provider, [items[k]])
    requires Added(start, told, notifies, Arrivals(resolves, m0, mid, |heard|, provider, account, base, items[..k]))
    requires Added(told, events, notifies, ArrivalOf(resolves, m0, now, |heard| + k, provider, account, base, items[..k], items[k]))
    ensures Resolutions(resolves, heard, now, provider, items[..k + 1])
    ensures Added(start, events, notifies, Arrivals(resolves, m0, now, |heard|, provider, account, base, items[..k + 1]))
  {
    BatchOneMore(resolves, m0, heard, mid, now, provider, account, base, items[..k], items[k], start, told, events, notifies);
    assert items[..k + 1] == items[..k] + [items[k]];
  }

  /** The same, with the arrival as the registry stood before the item. */
  lemma BatchNext(resolves: bool, m0: map<Slot, Mapping>, m1: map<Slot, Mapping>, heard: seq<Call>, mid: seq<Call>, now: seq<Call>,
                  provider: string, account: string, base: set<string>, items: seq<CatalogueItem>, k: nat,
                  start: seq<Event>, told: seq<Event>, events: seq<Event>, notifies: bool)
    requires k < |items| && Resolutions(resolves, heard, mid, provider, items[..k]) && (!resolves ==> m0 == m1)
    requires Resolutions(resolves, mid, now, provider, [items[k]])
    requires Added(start, told, notifies, Arrivals(resolves, m0, mid, |heard|, provider, account, base, items[..k]))
    requires Added(told, events, notifies, ArrivalOf(resolves, m1, now, |mid|, provider, account, base, items[..k], items[k]))
    ensures Resolutions(resolves, heard, now, provider, items[..k + 1])
    ensures Added(start, events, notifies, Arrivals(resolves, m0, now, |heard|, provider, account, base, items[..k + 1]))
  {
    assert ArrivalOf(resolves, m1, now, |mid|, provider, account, base, items[..k], items[k])
        == ArrivalOf(resolves, m0, now, |heard| + k, provider, account, base, items[..k], items[k]) by {
      SameArrival(resolves, m0, m1, now, |heard| + k, |mid|, provider, account, items[k].nativeId);
    }
    BatchAt(resolves, m0, heard, mid, now, provider, account, base, items, k, start, told, events, notifies);
  }

  /** The ids neither cached nor landed before, in order. */
  function NewIds(base: set<string>, items: seq<CatalogueItem>): seq<string>
  {
    if items == [] then []
    else
      var n := |items| - 1;
      var front, id := NewIds(base, items[..n]), items[n].nativeId;
      if id in base || id in Landed(items[..n]) then front else front + [id]
  }

  lemma {:induction false} NewIdsAreArrivals(base: set<string>, items: seq<CatalogueItem>)
    ensures Lists(NewIds(base, items), Landed(items).Keys - base)
  {
    if items != [] {
      var n := |items| - 1;
      var id, front := items[n].nativeId, NewIds(base, items[..n]);
      NewIdsAreArrivals(base, items[..n]);
      assert Landed(items).Keys == Landed(items[..n]).Keys + {id};
      assert id !in base && id !in Landed(items[..n]) ==> id !in front;
    }
  }

  /** With resolution wired every new id is announced, for this account. */
  lemma {:induction false} ArrivalsCounted(resolves: bool, m0: map<Slot, Mapping>, history: seq<Call>, from: nat,
                                           provider: string, account: string, base: set<string>, items: seq<CatalogueItem>)
    requires resolves ==> from + |items| <= |history| && forall k :: from <= k < from + |items| ==> history[k].out.Resolved?
    ensures resolves ==>
      |Arrivals(resolves, m0, history, from, provider, account, base, items)| == if account != "" then |NewIds(base, items)| else 0
    ensures forall e :: e in Arrivals(resolves, m0, history, from, provider, account, base, items) ==> e.account == account && e.present
  {
    if items != [] {
      var n := |items| - 1;
      ArrivalsCounted(resolves, m0, history, from, provider, account, base, items[..n]);
      AnnouncedAlone(m0, provider, account, items[n].nativeId, true);
    }
  }

  lemma AnnouncedAlone(mappings: map<Slot, Mapping>, provider: string, account: string, id: string, present: bool)
    ensures Announced(mappings, provider, account, [id], present) ==
      if account != "" && Slot(provider, id) in mappings
      then [Event(account, mappings[Slot(provider, id)].entry, present)] else []
  {
    assert [id][..0] == [];
  }

  lemma NewIdsSkipLast(base: set<string>, items: seq<CatalogueItem>)
    requires Distinct(items) && items != []
    ensures items[|items| - 1].nativeId !in Landed(items[..|items| - 1])
    ensures items[|items| - 1].nativeId !in NewIds(base, items[..|items| - 1])
  {
    NewIdsAreArrivals(base, items[..|items| - 1]);
    LandedKeys(items[..|items| - 1]);
  }

  /** When no item repeats, nothing moves an item after its announcement: every
      arrival names the entry its item is mapped to in the end. */
  lemma {:induction false} DistinctArrivals(o: Identity.Options, resolves: bool, earlier: seq<Call>, later: seq<Call>,
                                            provider: string, account: string, base: set<string>, items: seq<CatalogueItem>)
    requires Run(o, later) && Resolutions(resolves, earlier, later, provider, items)
    requires provider != "" && ValidItems(items) && Distinct(items)
    ensures ArrivalsAreMappings(o, resolves, earlier, later, provider, account, base, items)
  {
    if items != [] {
      var front, item := items[..|items| - 1], items[|items| - 1];
      var mid := if resolves then later[..|later| - 1] else later;
      assert items == front + [item];
      ResolutionsSplit(o, resolves, earlier, later, provider, items);
      DistinctArrivals(o, resolves, earlier, mid, provider, account, base, front);
      NewIdsSkipLast(base, items);
      OneMoreArrival(o, resolves, earlier, mid, later, provider, account, base, front, item);
    }
  }

  /** Every arrival names the entry its item is mapped to after them all. */
  ghost predicate ArrivalsAreMappings(o: Identity.Options, resolves: bool, earlier: seq<Call>, later: seq<Call>, provider: string,
                                      account: string, base: set<string>, items: seq<CatalogueItem>)
    requires resolves ==> |earlier| + |items| <= |later|
  {
    Arrivals(resolves, After(o, earlier).mappings, later, |earlier|, provider, account, base, items)
      == Announced(After(o, later).mappings, provider, account, NewIds(base, items), true)
  }

  /** All but the last resolution, and the last. */
  lemma ResolutionsSplit(o: Identity.Options, resolves: bool, earlier: seq<Call>, later: seq<Call>, provider: string,
                         items: seq<CatalogueItem>)
    requires Run(o, later) && Resolutions(resolves, earlier, later, provider, items) && items != []
    ensures var n, mid := |items| - 1, if resolves then later[..|later| - 1] else later;
      && mid <= later && Run(o, mid) && Resolutions(resolves, earlier, mid, provider, items[..n])
      && Resolutions(resolves, mid, later, provider, [items[n]])
      && (resolves ==> |mid| == |earlier| + n)
  {
    if resolves {
      assert later == later[..|later| - 1] + [later[|later| - 1]];
      Extend(o, later[..|later| - 1], later[|later| - 1]);
    }
  }

  lemma NewIdsOneMore(base: set<string>, front: seq<CatalogueItem>, item: CatalogueItem)
    ensures NewIds(base, front + [item]) == NewIds(base, front)
      + (if item.nativeId in base || item.nativeId in Landed(front) then [] else [item.nativeId])
  {
    assert (front + [item])[..|front|] == front;
  }

  lemma OneMoreArrival(o: Identity.Options, resolves: bool, earlier: seq<Call>, mid: seq<Call>, later: seq<Call>, provider: string,
                       account: string, base: set<string>, front: seq<CatalogueItem>, item: CatalogueItem)
    requires Run(o, later) && Resolutions(resolves, mid, later, provider, [item]) && mid <= later
    requires if resolves then |mid| == |earlier| + |front| else mid == earlier
    requires provider != "" && item.Valid() && item.nativeId !in NewIds(base, front)
    requires ArrivalsAreMappings(o, resolves, earlier, mid, provider, account, base, front)
    ensures ArrivalsAreMappings(o, resolves, earlier, later, provider, account, base, front + [item])
  {
    var m0, from := After(o, earlier).mappings, |earlier| + |front|;
    ArrivalsOneMore(resolves, m0, mid, later, |earlier|, provider, account, base, front, item);
    NewIdsOneMore(base, front, item);
    LastArrival(o, resolves, mid, later, provider, account, NewIds(base, front), item);
    SameArrival(resolves, m0, After(o, mid).mappings, later, from, if resolves then |mid| else from, provider, account, item.nativeId);
  }

  /** One more resolution leaves what was announced of the earlier ones true. */
  lemma LastArrival(o: Identity.Options, resolves: bool, mid: seq<Call>, later: seq<Call>, provider: string, account: string,
                    ids: seq<string>, item: CatalogueItem)
    requires Run(o, later) && Resolutions(resolves, mid, later, provider, [item])
    requires provider != "" && item.Valid() && item.nativeId !in ids
    ensures Announced(After(o, later).mappings, provider, account, ids, true)
         == Announced(After(o, mid).mappings, provider, account, ids, true)
    ensures Announced(After(o, later).mappings, provider, account, ids + [item.nativeId], true)
         == Announced(After(o, mid).mappings, provider, account, ids, true)
          + Arrival(resolves, After(o, mid).mappings, later, |mid|, provider, account, item.nativeId)
  {
    if resolves {
      assert later == mid + [later[|mid|]];
      CallIdentifies(o, mid, later[|mid|]);
      AnnouncedStable(After(o, mid).mappings, After(o, later).mappings, provider, item.nativeId, account, ids, true);
    }
    AnnouncedOneMore(After(o, later).mappings, provider, account, ids, item.nativeId, true);
    ArrivalIsMapping(o, resolves, mid, later, provider, account, item);
  }

  /** The items one refresh landed. */
  function Applied(requested: seq<string>, answer: Option<seq<CatalogueItem>>, landed: nat): seq<CatalogueItem>
  {
    if requested != [] && answer.Some? && landed <= |answer.value| then answer.value[..landed] else []
  }

  /** Everything these items say is cached as it is. */
  ghost predicate Held(base: Account, items: seq<CatalogueItem>)
  {
    forall id :: id in Landed(items) ==> id in base && base[id] == Landed(items)[id]
  }

  /** Landing items changes nothing exactly when they were all cached already,
      whatever the cache exactly when there are none. */
  lemma UnchangedIff(base: Account, items: seq<CatalogueItem>)
    ensures base + Landed(items) == base <==> Held(base, items)
    ensures (forall any: Account :: Held(any, items)) <==> items == []
  {
    if base + Landed(items) == base {
      forall id | id in Landed(items) ensures id in base && base[id] == Landed(items)[id] {
        assert (base + Landed(items))[id] == Landed(items)[id];
      }
    }
    if items != [] {
      assert items[|items| - 1].nativeId in Landed(items);
      assert !Held(map[], items);
    }
  }

  lemma StaysMapped(provider: string, rows0: Rows, m0: map<Slot, Mapping>, rows1: Rows, m1: map<Slot, Mapping>)
    requires AllMapped(rows0, m0, provider) && KeepsMapped(provider, rows0, m0, rows1, m1)
    ensures AllMapped(rows1, m1, provider)
  {
  }

  /** One thing a client of the cache, or another user of its registry, does. */
  datatype Request =
    | Sync(account: string, client: Client)
    | Ingest(account: string, items: seq<CatalogueItem>)
    | Refresh(account: string, requested: seq<string>, answer: Option<seq<CatalogueItem>>)
    | Elsewhere(provider: string, item: CatalogueItem)

  ghost predicate ByteRequest(r: Request)
  {
    match r
    case Sync(_, client) => ByteClient(client)
    case Ingest(_, items) => forall i :: 0 <= i < |items| ==> items[i].Bytes()
    case Refresh(_, _, answer) => answer.Some? ==> forall i :: 0 <= i < |answer.value| ==> answer.value[i].Bytes()
    case Elsewhere(_, item) => item.Bytes()
  }

  ghost predicate Orderly(s: Synchronizer)
    reads s, s.reg
  {
    s.Valid() && AllMapped(s.rows, s.reg.mappings, s.provider)
  }

  // --- a sync, in the fields of pages, rows and events

  predicate Names(items: seq<CatalogueItem>, id: string)
  {
    exists i :: 0 <= i < |items| && items[i].nativeId == id
  }

  /** The item is the last of the list under the id. */
  ghost predicate LastNamed(items: seq<CatalogueItem>, id: string, item: CatalogueItem)
  {
    exists i :: 0 <= i < |items| && items[i] == item && item.nativeId == id && !Names(items[i + 1..], id)
  }

  predicate PageNames(client: Client, p: nat, id: string)
  {
    client(p).Page? && Names(client(p).items, id)
  }

  /** One of the first n pages reports the id. */
  ghost predicate Reported(client: Client, n: nat, id: string)
  {
    exists p: nat :: p < n && PageNames(client, p, id)
  }

  /** This is the item last reported under the id in the first n pages. */
  ghost predicate LastReported(client: Client, n: nat, id: string, item: CatalogueItem)
  {
    exists p: nat :: p < n && PageNames(client, p, id) && LastNamed(client(p).items, id, item)
                     && forall q: nat :: p < q < n ==> !PageNames(client, q, id)
  }

  lemma NamesLanded(items: seq<CatalogueItem>, id: string)
    ensures id in Landed(items) <==> Names(items, id)
  {
    LandedKeys(items);
  }

  lemma {:induction false} LandedMeaning(items: seq<CatalogueItem>, id: string)
    ensures id in Landed(items) <==> Names(items, id)
    ensures id in Landed(items) ==> LastNamed(items, id, Landed(items)[id])
  {
    NamesLanded(items, id);
    if items != [] {
      var n := |items| - 1;
      if items[n].nativeId == id {
        assert items[n + 1..] == [];
      } else if id in Landed(items) {
        LandedMeaning(items[..n], id);
        LastNamedStays(items[..n], items[n], id, Landed(items)[id]);
        assert items == items[..n] + [items[n]];
      }
    }
  }

  lemma LastNamedStays(items: seq<CatalogueItem>, more: CatalogueItem, id: string, item: CatalogueItem)
    requires LastNamed(items, id, item) && more.nativeId != id
    ensures LastNamed(items + [more], id, item)
  {
    var i :| 0 <= i < |items| && items[i] == item && item.nativeId == id && !Names(items[i + 1..], id);
    var rest := items[i + 1..];
    assert (items + [more])[i + 1..] == rest + [more];
    forall k | 0 <= k < |rest + [more]| ensures (rest + [more])[k].nativeId != id {
      assert k < |rest| ==> (rest + [more])[k] == rest[k];
    }
    assert (items + [more])[i] == item;
  }

  /** The catalogue holds exactly the ids reported, each with its last report. */
  lemma {:induction false} CatalogueMeaning(client: Client, n: nat, id: string)
    ensures id in Catalogue(client, n) <==> Reported(client, n, id)
    ensures id in Catalogue(client, n) ==> LastReported(client, n, id, Catalogue(client, n)[id])
  {
    if n > 0 {
      CatalogueMeaning(client, n - 1, id);
      ReportedOneMore(client, n - 1, id);
      if client(n - 1).Page? {
        LandedMeaning(client(n - 1).items, id);
      }
    }
  }

  lemma ReportedOneMore(client: Client, n: nat, id: string)
    ensures Reported(client, n + 1, id) <==> Reported(client, n, id) || PageNames(client, n, id)
    ensures PageNames(client, n, id) ==> forall item :: LastNamed(client(n).items, id, item) ==> LastReported(client, n + 1, id, item)
    ensures !PageNames(client, n, id) ==> forall item :: LastReported(client, n, id, item) ==> LastReported(client, n + 1, id, item)
  {
    if p: nat :| p < n && PageNames(client, p, id) {
      assert p < n + 1;
    }
    forall item | !PageNames(client, n, id) && LastReported(client, n, id, item) ensures LastReported(client, n + 1, id, item) {
      var p: nat :| p < n && PageNames(client, p, id) && LastNamed(client(p).items, id, item)
        && forall q: nat :: p < q < n ==> !PageNames(client, q, id);
      assert p < n + 1;
    }
  }

  /** What a sync counts is what its pages held, repetitions included. */
  lemma {:induction false} ItemCountMeaning(client: Client, n: nat)
    ensures ItemCount(client, n) == |PageItems(client, n)|
    ensures forall item :: item in PageItems(client, n) <==> exists p: nat :: p < n && client(p).Page? && item in client(p).items
  {
    if n > 0 {
      ItemCountMeaning(client, n - 1);
    }
  }

  /** The items a page may hold: each named, of a known kind, titled, its ids whole,
      and no two under one native id. */
  ghost predicate Wellformed(items: seq<CatalogueItem>)
  {
    && (forall i :: 0 <= i < |items| ==>
          && items[i].nativeId != "" && items[i].kind != Identity.UNSPECIFIED && items[i].metadata.title != ""
          && forall x :: x in items[i].ids ==> x.namespace != "" && x.value != "")
    && forall i, j :: 0 <= i < j < |items| ==> items[i].nativeId != items[j].nativeId
  }

  lemma WellformedMeaning(items: seq<CatalogueItem>)
    ensures ValidPage(items) <==> Wellformed(items)
  {
    forall i | 0 <= i < |items|
      ensures items[i].Valid() <==>
        && items[i].nativeId != "" && items[i].kind != Identity.UNSPECIFIED && items[i].metadata.title != ""
        && forall x :: x in items[i].ids ==> x.namespace != "" && x.value != ""
    {
      items[i].ValidMeaning();
    }
  }

  /** The provider answers n good pages, and names no next one at the n-th only. */
  ghost predicate Finishes(client: Client, n: nat)
  {
    n > 0 && forall p: nat :: p < n ==> client(p).Page? && Wellformed(client(p).items) && (client(p).next == "" <==> p == n - 1)
  }

  ghost predicate Runs(client: Client, n: nat)
  {
    forall p: nat :: p < n ==> client(p).Page? && Wellformed(client(p).items) && client(p).next != ""
  }

  lemma {:induction false} ContinuesMeaning(client: Client, n: nat)
    ensures Continues(client, n) <==> Runs(client, n)
  {
    if n > 0 {
      ContinuesMeaning(client, n - 1);
      if client(n - 1).Page? {
        WellformedMeaning(client(n - 1).items);
      }
    }
  }

  lemma CompletesMeaning(client: Client, n: nat)
    ensures Completes(client, n) <==> Finishes(client, n)
  {
    if n > 0 {
      ContinuesMeaning(client, n - 1);
      if client(n - 1).Page? {
        WellformedMeaning(client(n - 1).items);
      }
    }
  }

  function Cached(rows: Rows, account: string, id: string): Option<CatalogueItem>
  {
    if account in rows && id in rows[account] then Some(rows[account][id]) else None
  }

  /** After n pages the account caches exactly what they reported last, and every
      other account what it did before. */
  ghost predicate CachesReports(before: Rows, after: Rows, account: string, client: Client, n: nat)
  {
    && (forall id :: Cached(after, account, id).Some? <==> Reported(client, n, id))
    && (forall id :: Cached(after, account, id).Some? ==> LastReported(client, n, id, Cached(after, account, id).value))
    && forall other, id :: other != account ==> Cached(after, other, id) == Cached(before, other, id)
  }

  lemma SyncedRows(before: Rows, after: Rows, account: string, client: Client, n: nat)
    requires Only(before, after, account, Catalogue(client, n))
    ensures CachesReports(before, after, account, client, n)
  {
    forall id ensures id in Of(after, account) <==> Cached(after, account, id).Some? {
      CatalogueMeaning(client, n, id);
    }
    forall id ensures Cached(after, account, id).Some? <==> Reported(client, n, id)
      ensures Cached(after, account, id).Some? ==> LastReported(client, n, id, Cached(after, account, id).value)
    {
      CatalogueMeaning(client, n, id);
    }
    forall other, id | other != account ensures Cached(after, other, id) == Cached(before, other, id) {
      assert Of(after, other) == Of(before, other);
    }
  }

  /** The new events: first every departure, absent, then every arrival, present,
      each naming account and entry. */
  ghost predicate Told(before: seq<Event>, after: seq<Event>, mappings: map<Slot, Mapping>, provider: string, account: string,
                       departed: seq<string>, arrived: seq<string>)
  {
    && before <= after && |after| == |before| + |departed| + |arrived|
    && (forall i :: 0 <= i < |departed| ==> Says(after[|before| + i], mappings, provider, account, departed[i], false))
    && forall i :: 0 <= i < |arrived| ==> Says(after[|before| + |departed| + i], mappings, provider, account, arrived[i], true)
  }

  predicate Says(e: Event, mappings: map<Slot, Mapping>, provider: string, account: string, id: string, present: bool)
  {
    Slot(provider, id) in mappings && e == Event(account, mappings[Slot(provider, id)].entry, present)
  }

  lemma EventsTold(before: seq<Event>, after: seq<Event>, mappings: map<Slot, Mapping>, provider: string, account: string,
                   departed: seq<string>, arrived: seq<string>)
    requires OneEventPerChange(before, after, mappings, provider, account, departed, arrived)
    ensures Told(before, after, mappings, provider, account, departed, arrived)
  {
    var gone, come := EachOne(mappings, provider, account, departed, false), EachOne(mappings, provider, account, arrived, true);
    assert after == before + gone + come;
    forall i | 0 <= i < |departed| ensures Says(after[|before| + i], mappings, provider, account, departed[i], false) {
      assert after[|before| + i] == gone[i] && departed[i] in departed;
    }
    forall i | 0 <= i < |arrived| ensures Says(after[|before| + |departed| + i], mappings, provider, account, arrived[i], true) {
      assert after[|before| + |departed| + i] == come[i] && arrived[i] in arrived;
    }
  }

  /** A refresh keeps what was answered and what was not asked for. */
  lemma RefreshMeaning(base: Account, items: seq<CatalogueItem>, requested: seq<string>, id: string)
    ensures var after := (base + Landed(items)) - Members(Missing(requested, Landed(items).Keys));
      && (id in after <==> Names(items, id) || (id in base && id !in requested))
      && (id in after && Names(items, id) ==> LastNamed(items, id, after[id]))
      && (id in after && !Names(items, id) ==> after[id] == base[id])
  {
    LandedMeaning(items, id);
    MissingMembers(requested, Landed(items).Keys, id);
  }

  lemma {:induction false} MissingMembers(requested: seq<string>, present: set<string>, id: string)
    ensures id in Missing(requested, present) <==> id in requested && id !in present
  {
    if requested != [] {
      MissingMembers(requested[..|requested| - 1], present, id);
      assert requested == requested[..|requested| - 1] + [requested[|requested| - 1]];
    }
  }

  /** A sync of an orderly cache that resolves and notifies: it succeeds exactly
      when the provider finishes within the bound, the account then caches exactly
      what was reported, every change of it is announced exactly once, and the
      cache stays orderly. */
  method SyncOnce(s: Synchronizer, account: string, client: Client)
    returns (ok: bool, ghost departed: seq<string>, ghost arrived: seq<string>)
    requires s.resolves && s.notifies && account != "" && Orderly(s) && ByteClient(client)
    modifies s, s.reg
    ensures Orderly(s) && (ok <==> Completable(client))
    ensures ok ==>
      && Lists(departed, Of(old(s.rows), account).Keys - Of(s.rows, account).Keys)
      && Lists(arrived, Of(s.rows, account).Keys - Of(old(s.rows), account).Keys)
      && OneEventPerChange(old(s.events), s.events, s.reg.mappings, s.provider, account, departed, arrived)
      && Told(old(s.events), s.events, s.reg.mappings, s.provider, account, departed, arrived)
    ensures ok <==> exists n: nat :: n <= 10000 && Finishes(client, n)
    ensures ok ==> exists n: nat :: Finishes(client, n) && CachesReports(old(s.rows), s.rows, account, client, n)
  {
    ghost var rows, mappings, events := s.rows, s.reg.mappings, s.events;
    var stats;
    ok, stats, departed, arrived := s.SyncAccount(account, client);
    StaysMapped(s.provider, rows, mappings, s.rows, s.reg.mappings);
    forall n: nat ensures Completes(client, n) <==> Finishes(client, n) {
      CompletesMeaning(client, n);
    }
    if ok {
      SyncedRows(rows, s.rows, account, client, stats.pages);
      EventsTold(events, s.events, s.reg.mappings, s.provider, account, departed, arrived);
    }
  }

  method ServeSync(s: Synchronizer, account: string, client: Client) returns (ok: bool)
    requires s.resolves && Orderly(s) && ByteClient(client)
    modifies s, s.reg
    ensures Orderly(s)
  {
    ghost var rows, mappings, departed, arrived := s.rows, s.reg.mappings, [], [];
    var stats;
    ok, stats, departed, arrived := s.SyncAccount(account, client);
    StaysMapped(s.provider, rows, mappings, s.rows, s.reg.mappings);
  }

  method ServeIngest(s: Synchronizer, account: string, items: seq<CatalogueItem>) returns (ok: bool)
    requires s.resolves && Orderly(s) && forall i :: 0 <= i < |items| ==> items[i].Bytes()
    modifies s, s.reg
    ensures Orderly(s)
  {
    ghost var rows, mappings, added := s.rows, s.reg.mappings, [];
    ok, added := s.IngestItems(account, items);
    StaysMapped(s.provider, rows, mappings, s.rows, s.reg.mappings);
  }

  method ServeRefresh(s: Synchronizer, account: string, requested: seq<string>, answer: Option<seq<CatalogueItem>>)
    returns (ok: bool)
    requires s.resolves && Orderly(s)
    requires answer.Some? ==> forall i :: 0 <= i < |answer.value| ==> answer.value[i].Bytes()
    modifies s, s.reg
    ensures Orderly(s)
  {
    ghost var rows, mappings, landed := s.rows, s.reg.mappings, 0;
    var removed;
    ok, removed, landed := s.RefreshItems(account, requested, answer);
    StaysMapped(s.provider, rows, mappings, s.rows, s.reg.mappings);
  }

  method ServeElsewhere(s: Synchronizer, provider: string, item: CatalogueItem)
    requires Orderly(s) && item.Bytes()
    modifies s.reg
    ensures Orderly(s)
  {
    ghost var pre, conflictId := s.reg.View(), "";
    var out;
    out, conflictId := s.reg.Resolve(provider, item);
    NextKeepsMapped(s.reg.opts, pre, RegistrySpec.Call(provider, item, out, conflictId));
  }

  /** Any run of requests keeps every cached item mapped. */
  method Serve(s: Synchronizer, requests: seq<Request>)
    requires s.resolves && Orderly(s) && forall r :: r in requests ==> ByteRequest(r)
    modifies s, s.reg
    ensures Orderly(s)
  {
    for k := 0 to |requests|
      invariant Orderly(s)
    {
      assert ByteRequest(requests[k]);
      match requests[k] {
        case Sync(account, client) =>
          var ok := ServeSync(s, account, client);
        case Ingest(account, items) =>
          var ok := ServeIngest(s, account, items);
        case Refresh(account, requested, answer) =>
          var ok := ServeRefresh(s, account, requested, answer);
        case Elsewhere(provider, item) =>
          ServeElsewhere(s, provider, item);
      }
    }
  }

  /** A failed sync at work: the second page never comes, yet the new item of the
      first one has changed the registry. */
  method FailedSyncResolves(s: Synchronizer, account: string, item: CatalogueItem) returns (ok: bool)
    requires s.Valid() && s.resolves && item.Valid() && item.Bytes()
    requires Slot(s.provider, item.nativeId) !in s.reg.mappings
    modifies s, s.reg
    ensures !ok && s.events == old(s.events) && s.manifests == old(s.manifests)
    ensures Slot(s.provider, item.nativeId) in s.reg.mappings
  {
    var client: Client := n => if n == 0 then Page([item], "more") else Unavailable;
    OnePageOnly(client, item);
    var stats;
    ghost var departed, arrived;
    ok, stats, departed, arrived := s.SyncAccount(account, client);
    StopsAtOne(client, stats.pages);
    assert item.nativeId in Catalogue(client, 1);
  }

  lemma OnePageOnly(client: Client, item: CatalogueItem)
    requires item.Valid() && client(0) == Page([item], "more") && client(1) == Unavailable
    ensures Good(client, 0) && !Good(client, 1) && Continues(client, 1) && !Completable(client)
    ensures Catalogue(client, 1) == map[item.nativeId := item]
  {
    NeverCompletes(client, 1);
    assert [item][..0] == [];
    assert Landed([]) == map[];
    assert Landed([item]) == map[item.nativeId := item];
    assert Catalogue(client, 0) == map[];
  }

  lemma StopsAtOne(client: Client, pages: nat)
    requires Good(client, 0) && !Good(client, 1)
    requires Continues(client, pages) && (pages >= MAX_PAGES || !Good(client, pages))
    ensures pages == 1
  {
    if pages >= 2 {
      ContinuesBelow(client, 2, pages);
    }
  }

  /** A refused refresh at work: the answer violates the contract, yet the good
      item ahead of the violation is now cached. */
  method RefusedRefreshWrites(s: Synchronizer, account: string, requested: seq<string>, good: CatalogueItem, bad: CatalogueItem)
    returns (ok: bool)
    requires s.Valid() && s.refreshes && requested != [] && good.Bytes() && bad.Bytes() && good.Valid() && !bad.Valid()
    requires good.nativeId !in Of(s.rows, account)
    modifies s, s.reg
    ensures !ok && good.nativeId in Of(s.rows, account)
  {
    var removed;
    ghost var landed;
    ok, removed, landed := s.RefreshItems(account, requested, Some([good, bad]));
    assert landed == 1 && [good, bad][..1] == [good];
    assert Landed([good]).Keys == {good.nativeId};
  }

  lemma FlagOneMore(base: Account, items: seq<CatalogueItem>, k: nat, id: string)
    requires k < |items| && id == items[k].nativeId
    ensures NewFlags(base.Keys, items[..k + 1])
         == NewFlags(base.Keys, items[..k])[id := id !in (base + Landed(items[..k]))]
  {
    assert items[..k + 1][..k] == items[..k];
  }

  /** n further events, each an arrival on the account. */
  ghost predicate ArrivalEvents(before: seq<Event>, after: seq<Event>, account: string, n: nat)
  {
    && |after| == |before| + n && after[..|before|] == before
    && forall i :: |before| <= i < |after| ==> after[i].account == account && after[i].present
  }

  function Members(ids: seq<string>): set<string>
  {
    set id | id in ids
  }

  /** The requested ids, with repetitions, the answer did not name. */
  function Missing(requested: seq<string>, present: set<string>): seq<string>
  {
    if requested == [] then []
    else
      var front, last := Missing(requested[..|requested| - 1], present), requested[|requested| - 1];
      if last in present then front else front + [last]
  }

  /** Which answered ids count as arrivals: the last occurrence decides, and it
      is new only if neither the cache nor an earlier occurrence had it. */
  function NewFlags(base: set<string>, items: seq<CatalogueItem>): (flags: map<string, bool>)
    ensures flags.Keys == Landed(items).Keys
  {
    if items == [] then map[]
    else
      var front, id := items[..|items| - 1], items[|items| - 1].nativeId;
      NewFlags(base, front)[id := id !in base && id !in Landed(front)]
  }

  /** The ids announced as arrivals, in answer order. */
  function Flagged(items: seq<CatalogueItem>, flags: map<string, bool>): seq<string>
  {
    if items == [] then []
    else
      var front, id := Flagged(items[..|items| - 1], flags), items[|items| - 1].nativeId;
      if id in flags && flags[id] then front + [id] else front
  }

  function Occurrences(items: seq<CatalogueItem>, id: string): nat
  {
    if items == [] then 0
    else Occurrences(items[..|items| - 1], id) + (if items[|items| - 1].nativeId == id then 1 else 0)
  }

  lemma {:induction false} OccursIffLanded(items: seq<CatalogueItem>, id: string)
    ensures Occurrences(items, id) > 0 <==> id in Landed(items)
  {
    if items != [] {
      OccursIffLanded(items[..|items| - 1], id);
    }
  }

  /** A refreshed item is announced as an arrival exactly when it was not cached
      and the answer names it once: naming a new item twice loses its arrival. */
  lemma {:induction false} ArrivalIffNewAndNamedOnce(base: set<string>, items: seq<CatalogueItem>, id: string)
    requires id in Landed(items)
    ensures NewFlags(base, items)[id] <==> id !in base && Occurrences(items, id) == 1
  {
    var front := items[..|items| - 1];
    OccursIffLanded(front, id);
    if items[|items| - 1].nativeId != id {
      ArrivalIffNewAndNamedOnce(base, front, id);
    }
  }

  /** What is announced as arriving is exactly what is flagged. */
  lemma {:induction false} FlaggedMeaning(items: seq<CatalogueItem>, flags: map<string, bool>, id: string)
    ensures id in Flagged(items, flags) <==> id in Landed(items) && id in flags && flags[id]
  {
    if items != [] {
      FlaggedMeaning(items[..|items| - 1], flags, id);
    }
  }

  lemma AnnouncedOneMore(mappings: map<Slot, Mapping>, provider: string, account: string, ids: seq<string>,
                         id: string, present: bool)
    ensures Announced(mappings, provider, account, ids + [id], present)
         == Announced(mappings, provider, account, ids, present) + Announced(mappings, provider, account, [id], present)
  {
    assert (ids + [id])[..|ids|] == ids && [id][..0] == [];
  }

  lemma {:induction false} LandedConcat(a: seq<CatalogueItem>, b: seq<CatalogueItem>)
    ensures Landed(a + b) == Landed(a) + Landed(b)
  {
    if b == [] {
      assert a + b == a;
    } else {
      assert (a + b)[..|a + b| - 1] == a + b[..|b| - 1];
      LandedConcat(a, b[..|b| - 1]);
    }
  }

  /** A catalogue is what its pages' items add up to. */
  lemma {:induction false} PagesLand(client: Client, n: nat)
    ensures Landed(PageItems(client, n)) == Catalogue(client, n)
  {
    if n > 0 {
      PagesLand(client, n - 1);
      if client(n - 1).Page? {
        LandedConcat(PageItems(client, n - 1), client(n - 1).items);
      }
    }
  }

  lemma {:induction false} PagesValid(client: Client, n: nat)
    requires Continues(client, n) || Completes(client, n)
    ensures ValidItems(PageItems(client, n))
  {
    if n > 0 {
      PagesValid(client, n - 1);
    }
  }

  lemma PagesIdentify(o: Identity.Options, resolves: bool, earlier: seq<Call>, later: seq<Call>, provider: string,
                      client: Client, n: nat)
    requires Run(o, later) && Resolutions(resolves, earlier, later, provider, PageItems(client, n))
    requires provider != "" && (Continues(client, n) || Completes(client, n))
    ensures Identified(resolves, After(o, earlier).mappings, After(o, later).mappings, provider, Catalogue(client, n).Keys)
    ensures After(o, later) == After(o, earlier) <==>
      !resolves || AllSettled(o, After(o, earlier), provider, PageItems(client, n))
  {
    PagesLand(client, n);
    PagesValid(client, n);
    LandedIdentify(o, resolves, earlier, later, provider, PageItems(client, n));
  }

  /** A run that stopped at a bad page, or at the bound, has no completion. */
  lemma NeverCompletes(client: Client, pages: nat)
    requires Continues(client, pages) && (pages >= MAX_PAGES || !Good(client, pages))
    ensures !Completable(client)
  {
    forall n: nat | n <= MAX_PAGES ensures !Completes(client, n) {
      if 1 <= n <= pages {
        ContinuesBelow(client, n, pages);
      } else if n > pages + 1 && Continues(client, n - 1) {
        ContinuesBelow(client, pages + 1, n - 1);
      }
    }
  }

  lemma {:induction false} ContinuesBelow(client: Client, k: nat, n: nat)
    requires k <= n && Continues(client, n)
    ensures Continues(client, k)
  {
    if k < n {
      ContinuesBelow(client, k, n - 1);
    }
  }

  lemma CatalogueOneMore(base: Account, client: Client, n: nat)
    requires client(n).Page?
    ensures (base + Catalogue(client, n)) + Landed(client(n).items) == base + Catalogue(client, n + 1)
    ensures Catalogue(client, n + 1).Keys == Catalogue(client, n).Keys + Landed(client(n).items).Keys
    ensures ItemCount(client, n + 1) == ItemCount(client, n) + |client(n).items|
  {
  }

  lemma ReconciledRows(base: Account, catalogue: Account)
    ensures (base + catalogue) - (base.Keys - catalogue.Keys) == catalogue
  {
  }
}
