/** The library service: per-user derivations cached under escaped keys, and
    targeted invalidation that keeps every surviving cached library correct. */
module Library {
  import opened Optional
  import opened Strings
  import opened Keys
  import Identity
  import opened Claims
  import opened RegistrySpec
  import opened Derivation

  // --- who may derive what

  /** Registered reaches, by account id. */
  type Reaches = map<string, Reach>

  ghost predicate Filed(reaches: Reaches)
  {
    forall a :: a in reaches ==> reaches[a].account == a
  }

  function Authorized(reaches: Reaches, accounts: seq<string>, user: string): seq<Reach>
    requires forall i :: 0 <= i < |accounts| ==> accounts[i] in reaches
  {
    if accounts == [] then []
    else
      var front, last := Authorized(reaches, accounts[..|accounts| - 1], user), reaches[accounts[|accounts| - 1]];
      if last.Authorized(user) then front + [last] else front
  }

  /** The reaches a user may derive from, in account order. */
  ghost function Derivable(reaches: Reaches, user: string): seq<Reach>
  {
    Authorized(reaches, Listing(reaches.Keys), user)
  }

  /** What a user's library should be, in a given world. */
  ghost function Fresh(w: World, reaches: Reaches, user: string): seq<LibraryEntry>
  {
    Declared(w, Derivable(reaches, user))
  }

  // --- what a change cannot affect

  lemma {:induction false} AuthorizedMembers(reaches: Reaches, accounts: seq<string>, user: string, r: Reach)
    requires forall i :: 0 <= i < |accounts| ==> accounts[i] in reaches
    ensures r in Authorized(reaches, accounts, user) ==>
      r.Authorized(user) && exists a :: a in accounts && reaches[a] == r
  {
    if accounts != [] {
      AuthorizedMembers(reaches, accounts[..|accounts| - 1], user, r);
      assert accounts == accounts[..|accounts| - 1] + [accounts[|accounts| - 1]];
    }
  }

  lemma {:induction false} AuthorizedUnaffected(a: Reaches, b: Reaches, accounts: seq<string>, account: string,
                                                user: string)
    requires forall i :: 0 <= i < |accounts| ==> accounts[i] in a && accounts[i] in b
    requires forall x :: x in accounts && x != account ==> a[x] == b[x]
    requires account in accounts ==> !a[account].Authorized(user) && !b[account].Authorized(user)
    ensures Authorized(a, accounts, user) == Authorized(b, accounts, user)
  {
    if accounts != [] {
      assert accounts == accounts[..|accounts| - 1] + [accounts[|accounts| - 1]];
      AuthorizedUnaffected(a, b, accounts[..|accounts| - 1], account, user);
    }
  }

  /** Changing a reach's sharing cannot change the library of a user it admits
      neither before nor after. */
  lemma SharingUnaffected(w: World, reaches: Reaches, account: string, changed: Reach, user: string)
    requires account in reaches && !reaches[account].Authorized(user) && !changed.Authorized(user)
    ensures Fresh(w, reaches[account := changed], user) == Fresh(w, reaches, user)
  {
    assert reaches[account := changed].Keys == reaches.Keys;
    AuthorizedUnaffected(reaches, reaches[account := changed], Listing(reaches.Keys), account, user);
  }

  /** The reach shows the same native ids, on the same entries, in both worlds. */
  ghost predicate SameSight(a: World, b: World, r: Reach)
  {
    && Items(a, r).Keys == Items(b, r).Keys
    && forall native :: native in Items(a, r) ==>
         EntryOf(a, Obs(r, Items(a, r)[native])) == EntryOf(b, Obs(r, Items(b, r)[native]))
  }

  /** Two worlds that differ, for these reaches, only in what items and entries
      say, not in which items are shown on which entries. */
  ghost predicate Alike(a: World, b: World, reaches: seq<Reach>)
  {
    forall r :: r in reaches ==> SameSight(a, b, r)
  }

  lemma AlikeBackwards(a: World, b: World, reaches: seq<Reach>)
    requires Alike(a, b, reaches)
    ensures Alike(b, a, reaches)
  {
    forall r | r in reaches ensures SameSight(b, a, r) {
      assert SameSight(a, b, r);
    }
  }

  lemma AlikeCovers(a: World, b: World, r: Reach, entry: string, key: string)
    requires SameSight(a, b, r)
    ensures Covers(a, r, entry, key) == Covers(b, r, entry, key)
  {
  }

  lemma {:induction false} AlikeFirst(a: World, b: World, reaches: seq<Reach>, entry: string, key: string)
    requires Alike(a, b, reaches)
    ensures FirstCovering(a, reaches, entry, key) == FirstCovering(b, reaches, entry, key)
  {
    if reaches != [] {
      var front, last := reaches[..|reaches| - 1], reaches[|reaches| - 1];
      assert reaches == front + [last];
      AlikeFirst(a, b, front, entry, key);
      AlikeCovers(a, b, last, entry, key);
    }
  }

  lemma AlikeCoverKeys(a: World, b: World, reaches: seq<Reach>, entry: string)
    requires Alike(a, b, reaches)
    ensures CoverKeys(a, reaches, entry) <= CoverKeys(b, reaches, entry)
  {
    forall key | key in CoverKeys(a, reaches, entry) ensures key in CoverKeys(b, reaches, entry) {
      var r, native :| r in reaches && native in Items(a, r) && Observes(a, r, native, entry) && key == r.provider + ":" + native;
      assert SameSight(a, b, r);
      assert native in Items(b, r) && Observes(b, r, native, entry);
    }
  }

  lemma AlikeVias(a: World, b: World, reaches: seq<Reach>, entry: string, key: string)
    requires Alike(a, b, reaches)
    ensures Vias(a, reaches, entry, key) == Vias(b, reaches, entry, key)
  {
    forall r | r in reaches ensures Covers(a, r, entry, key) == Covers(b, r, entry, key) {
      AlikeCovers(a, b, r, entry, key);
    }
  }

  /** The entry is shown under the same items, each by the same accounts. */
  ghost predicate SameShelf(a: World, b: World, reaches: seq<Reach>, entry: string)
  {
    && CoverKeys(a, reaches, entry) == CoverKeys(b, reaches, entry)
    && forall key :: key in CoverKeys(a, reaches, entry) ==> Vias(a, reaches, entry, key) == Vias(b, reaches, entry, key)
  }

  /** What is shown, and on which entry, is the same. */
  ghost predicate SameShelves(a: World, b: World, reaches: seq<Reach>)
  {
    forall entry :: SameShelf(a, b, reaches, entry)
  }

  lemma AlikeShelves(a: World, b: World, reaches: seq<Reach>)
    requires Alike(a, b, reaches)
    ensures SameShelves(a, b, reaches)
  {
    AlikeBackwards(a, b, reaches);
    forall entry ensures SameShelf(a, b, reaches, entry) {
      AlikeCoverKeys(a, b, reaches, entry);
      AlikeCoverKeys(b, a, reaches, entry);
      forall key ensures Vias(a, reaches, entry, key) == Vias(b, reaches, entry, key) {
        AlikeVias(a, b, reaches, entry, key);
      }
    }
  }

  /** No shown verdict of the entry differs. */
  ghost predicate SameVerdicts(a: World, b: World, reaches: seq<Reach>, entry: string)
  {
    forall key :: key in CoverKeys(a, reaches, entry) ==>
      FirstVerdict(a, reaches, entry, key) == FirstVerdict(b, reaches, entry, key)
  }

  lemma SameRowIff(a: World, b: World, reaches: seq<Reach>, entry: string, key: string)
    ensures DeclaredRow(a, reaches, entry, key) == DeclaredRow(b, reaches, entry, key) <==>
      && FirstVerdict(a, reaches, entry, key) == FirstVerdict(b, reaches, entry, key)
      && Vias(a, reaches, entry, key) == Vias(b, reaches, entry, key)
  {
    SameListing(Vias(a, reaches, entry, key), Vias(b, reaches, entry, key));
  }

  lemma SameListing(p: set<string>, q: set<string>)
    ensures Listing(p) == Listing(q) <==> p == q
  {
    if Listing(p) == Listing(q) {
      assert forall x :: x in p <==> x in Listing(q);
    }
  }

  lemma SameMapsIff<K, V>(p: map<K, V>, q: map<K, V>)
    requires p.Keys == q.Keys
    ensures p == q <==> forall k :: k in p.Keys ==> p[k] == q[k]
  {
  }

  lemma SameCoverageIff(a: World, b: World, reaches: seq<Reach>, entry: string)
    ensures DeclaredCoverage(a, reaches, entry) == DeclaredCoverage(b, reaches, entry) <==>
      SameShelf(a, b, reaches, entry) && SameVerdicts(a, b, reaches, entry)
  {
    var p, q := DeclaredCoverage(a, reaches, entry), DeclaredCoverage(b, reaches, entry);
    assert p.Keys == CoverKeys(a, reaches, entry) && q.Keys == CoverKeys(b, reaches, entry);
    if p.Keys == q.Keys {
      SameMapsIff(p, q);
      SameRowsIff(a, b, reaches, entry, p.Keys);
    }
  }

  lemma SameRowsIff(a: World, b: World, reaches: seq<Reach>, entry: string, keys: set<string>)
    ensures (forall key :: key in keys ==> DeclaredRow(a, reaches, entry, key) == DeclaredRow(b, reaches, entry, key)) <==>
      && (forall key :: key in keys ==> FirstVerdict(a, reaches, entry, key) == FirstVerdict(b, reaches, entry, key))
      && forall key :: key in keys ==> Vias(a, reaches, entry, key) == Vias(b, reaches, entry, key)
  {
    forall key | key in keys
      ensures DeclaredRow(a, reaches, entry, key) == DeclaredRow(b, reaches, entry, key) <==>
        && FirstVerdict(a, reaches, entry, key) == FirstVerdict(b, reaches, entry, key)
        && Vias(a, reaches, entry, key) == Vias(b, reaches, entry, key)
    {
      SameRowIff(a, b, reaches, entry, key);
    }
  }

  lemma DeclaredOneMore(w: World, reaches: seq<Reach>, front: seq<string>, last: string)
    requires last in w.entries && forall i :: 0 <= i < |front| ==> front[i] in w.entries
    ensures DeclaredFor(w, reaches, front + [last]) == DeclaredFor(w, reaches, front) + [DeclaredEntry(w, reaches, last)]
  {
    assert (front + [last])[..|front|] == front;
  }

  lemma {:induction false} DeclaredLength(w: World, reaches: seq<Reach>, ids: seq<string>)
    requires forall i :: 0 <= i < |ids| ==> ids[i] in w.entries
    ensures |DeclaredFor(w, reaches, ids)| == |ids|
  {
    if ids != [] {
      DeclaredLength(w, reaches, ids[..|ids| - 1]);
    }
  }

  /** Kind, identities and metadata reference of the entry are the same. */
  ghost predicate SameFace(a: World, b: World, entry: string)
  {
    entry in a.entries && entry in b.entries && Face(a, entry, map[]) == Face(b, entry, map[])
  }

  lemma SameEntryIff(a: World, b: World, reaches: seq<Reach>, entry: string)
    requires entry in a.entries && entry in b.entries
    ensures DeclaredEntry(a, reaches, entry) == DeclaredEntry(b, reaches, entry) <==>
      SameFace(a, b, entry) && SameShelf(a, b, reaches, entry) && SameVerdicts(a, b, reaches, entry)
  {
    SameCoverageIff(a, b, reaches, entry);
    assert DeclaredEntry(a, reaches, entry) == Face(a, entry, map[]).(coverage := DeclaredCoverage(a, reaches, entry));
    assert DeclaredEntry(b, reaches, entry) == Face(b, entry, map[]).(coverage := DeclaredCoverage(b, reaches, entry));
  }

  ghost predicate AllSame(a: World, b: World, reaches: seq<Reach>, ids: seq<string>)
  {
    forall x :: x in ids ==> SameFace(a, b, x) && SameShelf(a, b, reaches, x) && SameVerdicts(a, b, reaches, x)
  }

  lemma AllSameOneMore(a: World, b: World, reaches: seq<Reach>, front: seq<string>, last: string)
    ensures AllSame(a, b, reaches, front + [last]) <==>
      AllSame(a, b, reaches, front) && SameFace(a, b, last) && SameShelf(a, b, reaches, last) && SameVerdicts(a, b, reaches, last)
  {
    assert forall x :: x in front + [last] <==> x in front || x == last;
  }

  lemma {:induction false} SameListIff(a: World, b: World, reaches: seq<Reach>, ids: seq<string>)
    requires forall i :: 0 <= i < |ids| ==> ids[i] in a.entries && ids[i] in b.entries
    ensures DeclaredFor(a, reaches, ids) == DeclaredFor(b, reaches, ids) <==> AllSame(a, b, reaches, ids)
  {
    if ids != [] {
      var front, last := ids[..|ids| - 1], ids[|ids| - 1];
      assert ids == front + [last];
      SameListIff(a, b, reaches, front);
      SameEntryIff(a, b, reaches, last);
      DeclaredOneMore(a, reaches, front, last);
      DeclaredOneMore(b, reaches, front, last);
      DeclaredLength(a, reaches, front);
      DeclaredLength(b, reaches, front);
      SameLastIff(DeclaredFor(a, reaches, front), DeclaredFor(b, reaches, front),
                  DeclaredEntry(a, reaches, last), DeclaredEntry(b, reaches, last));
      AllSameOneMore(a, b, reaches, front, last);
    }
  }

  lemma SameLastIff(a: seq<LibraryEntry>, b: seq<LibraryEntry>, x: LibraryEntry, y: LibraryEntry)
    requires |a| == |b|
    ensures a + [x] == b + [y] <==> a == b && x == y
  {
    if a + [x] == b + [y] {
      assert a == (a + [x])[..|a|] == (b + [y])[..|b|] == b;
      assert x == (a + [x])[|a|] == (b + [y])[|b|] == y;
    }
  }

  /** No shown verdict differs. */
  ghost predicate VerdictsStay(a: World, b: World, reaches: seq<Reach>)
  {
    forall entry :: entry in Appearing(a, reaches) ==> SameVerdicts(a, b, reaches, entry)
  }

  /** No shown entry's face differs. */
  ghost predicate FacesStay(a: World, b: World, reaches: seq<Reach>)
  {
    forall entry :: entry in Appearing(a, reaches) ==> SameFace(a, b, entry)
  }

  /** An entry is shown exactly when it is shown under some item. */
  lemma AppearsIffCovered(w: World, reaches: seq<Reach>, entry: string)
    ensures entry in Appearing(w, reaches) <==> CoverKeys(w, reaches, entry) != {}
  {
    if entry in Appearing(w, reaches) {
      var r, native :| r in reaches && native in Items(w, r) && Observes(w, r, native, entry);
      assert r.provider + ":" + native in CoverKeys(w, reaches, entry);
    }
    if CoverKeys(w, reaches, entry) != {} {
      var key :| key in CoverKeys(w, reaches, entry);
      var r, native :| r in reaches && native in Items(w, r) && Observes(w, r, native, entry) && key == r.provider + ":" + native;
    }
  }

  lemma SameAppearing(a: World, b: World, reaches: seq<Reach>)
    requires SameShelves(a, b, reaches)
    ensures Appearing(a, reaches) == Appearing(b, reaches)
  {
    forall entry ensures entry in Appearing(a, reaches) <==> entry in Appearing(b, reaches) {
      assert SameShelf(a, b, reaches, entry);
      AppearsIffCovered(a, reaches, entry);
      AppearsIffCovered(b, reaches, entry);
    }
  }

  ghost function Ids(listed: seq<LibraryEntry>): seq<string>
  {
    if listed == [] then [] else Ids(listed[..|listed| - 1]) + [listed[|listed| - 1].id]
  }

  lemma IdsOneMore(listed: seq<LibraryEntry>, last: LibraryEntry)
    ensures Ids(listed + [last]) == Ids(listed) + [last.id]
  {
    assert (listed + [last])[..|listed|] == listed;
  }

  /** A list of entries tells which ids it was declared for. */
  lemma {:induction false} DeclaredIds(w: World, reaches: seq<Reach>, ids: seq<string>)
    requires forall i :: 0 <= i < |ids| ==> ids[i] in w.entries
    ensures Ids(DeclaredFor(w, reaches, ids)) == ids
  {
    if ids != [] {
      var front, last := ids[..|ids| - 1], ids[|ids| - 1];
      assert ids == front + [last];
      DeclaredIds(w, reaches, front);
      DeclaredOneMore(w, reaches, front, last);
      IdsOneMore(DeclaredFor(w, reaches, front), DeclaredEntry(w, reaches, last));
    }
  }

  lemma ListedAreKnown(w: World, reaches: seq<Reach>)
    ensures var ids := Listing(Appearing(w, reaches)); forall i :: 0 <= i < |ids| ==> ids[i] in w.entries
  {
    var ids := Listing(Appearing(w, reaches));
    forall i | 0 <= i < |ids| ensures ids[i] in w.entries {
      assert ids[i] in Appearing(w, reaches);
    }
  }

  /** Equal libraries show the same items on the same entries. */
  lemma SameLibrarySameShelves(a: World, b: World, reaches: seq<Reach>)
    requires Declared(a, reaches) == Declared(b, reaches)
    ensures SameShelves(a, b, reaches)
  {
    var ids := Listing(Appearing(a, reaches));
    ListedAreKnown(a, reaches);
    ListedAreKnown(b, reaches);
    DeclaredIds(a, reaches, ids);
    DeclaredIds(b, reaches, Listing(Appearing(b, reaches)));
    SameListIff(a, b, reaches, ids);
    forall entry ensures SameShelf(a, b, reaches, entry) {
      AppearsIffCovered(a, reaches, entry);
      AppearsIffCovered(b, reaches, entry);
      assert entry in Appearing(a, reaches) <==> entry in ids;
      assert entry in Appearing(b, reaches) <==> entry in ids;
    }
  }

  lemma AllSameIff(a: World, b: World, reaches: seq<Reach>, ids: seq<string>)
    requires SameShelves(a, b, reaches) && forall entry :: entry in ids <==> entry in Appearing(a, reaches)
    ensures AllSame(a, b, reaches, ids) <==> FacesStay(a, b, reaches) && VerdictsStay(a, b, reaches)
  {
  }

  /** A derivation stays the same exactly when it shows the same items on the same
      entries, and no shown face or verdict differs. */
  lemma SameLibraryIff(a: World, b: World, reaches: seq<Reach>)
    ensures Declared(a, reaches) == Declared(b, reaches) <==>
      SameShelves(a, b, reaches) && FacesStay(a, b, reaches) && VerdictsStay(a, b, reaches)
  {
    if Declared(a, reaches) == Declared(b, reaches) {
      SameLibrarySameShelves(a, b, reaches);
    }
    if SameShelves(a, b, reaches) {
      SameAppearing(a, b, reaches);
      var ids := Listing(Appearing(a, reaches));
      ListedAreKnown(a, reaches);
      ListedAreKnown(b, reaches);
      SameListIff(a, b, reaches, ids);
      AllSameIff(a, b, reaches, ids);
    }
  }

  /** Two worlds that differ only in what these reaches do not read. */
  ghost predicate Agree(a: World, b: World, reaches: seq<Reach>)
  {
    && Alike(a, b, reaches) && a.entries == b.entries && a.meta == b.meta
    && forall r :: r in reaches ==> Items(a, r) == Items(b, r)
  }

  lemma AgreeOnVerdict(a: World, b: World, reaches: seq<Reach>, entry: string, key: string)
    requires Agree(a, b, reaches)
    ensures FirstVerdict(a, reaches, entry, key) == FirstVerdict(b, reaches, entry, key)
  {
    AlikeFirst(a, b, reaches, entry, key);
    FirstCoveringCovers(a, reaches, entry, key);
    FirstCoveringAmong(a, reaches, entry, key);
  }

  lemma {:induction false} FirstCoveringAmong(w: World, reaches: seq<Reach>, entry: string, key: string)
    ensures FirstCovering(w, reaches, entry, key).Some? ==> FirstCovering(w, reaches, entry, key).value in reaches
  {
    if reaches != [] {
      FirstCoveringAmong(w, reaches[..|reaches| - 1], entry, key);
      assert reaches == reaches[..|reaches| - 1] + [reaches[|reaches| - 1]];
    }
  }

  /** A derivation reads nothing but the rows of its own reaches. */
  lemma DeclaredReadsOwnRows(a: World, b: World, reaches: seq<Reach>)
    requires Agree(a, b, reaches)
    ensures Declared(a, reaches) == Declared(b, reaches)
  {
    AlikeShelves(a, b, reaches);
    SameLibraryIff(a, b, reaches);
    forall entry | entry in Appearing(a, reaches) ensures SameVerdicts(a, b, reaches, entry) {
      forall key | key in CoverKeys(a, reaches, entry)
        ensures FirstVerdict(a, reaches, entry, key) == FirstVerdict(b, reaches, entry, key)
      {
        AgreeOnVerdict(a, b, reaches, entry, key);
      }
    }
  }

  function WithRows(w: World, source: Source, items: map<string, CatalogueItem>): World
  {
    w.(rows := w.rows[source := items])
  }

  /** Changing one account's rows cannot change the library of a user who may
      not derive that account. */
  lemma RowsUnaffected(w: World, reaches: Reaches, source: Source, items: map<string, CatalogueItem>, user: string)
    requires Filed(reaches)
    requires source.account in reaches && reaches[source.account].provider == source.provider ==>
      !reaches[source.account].Authorized(user)
    ensures Fresh(WithRows(w, source, items), reaches, user) == Fresh(w, reaches, user)
  {
    var derivable := Derivable(reaches, user);
    assert Agree(w, WithRows(w, source, items), derivable) by {
      forall r | r in derivable ensures Items(WithRows(w, source, items), r) == Items(w, r) {
        AuthorizedMembers(reaches, Listing(reaches.Keys), user, r);
      }
    }
    DeclaredReadsOwnRows(w, WithRows(w, source, items), derivable);
  }

  // --- what a user's library says, in the fields of reaches, rows and registry

  /** The account is public, the user's own, or shared with the user. */
  ghost predicate MayDerive(r: Reach, user: string)
  {
    r.visibility == Public || (r.owner == user && user != "") || (r.visibility == Shared && user in r.members)
  }

  /** The account caches an item under this native id, mapped to a stored entry. */
  ghost predicate Shows(w: World, r: Reach, native: string, entry: string)
  {
    var source, slot := Source(r.provider, r.account), Slot(r.provider, native);
    && source in w.rows && native in w.rows[source]
    && slot in w.mappings && w.mappings[slot].entry == entry && entry in w.entries
  }

  /** A registered account open to the user shows such an item of the entry, and
      this is the coverage key it goes by. */
  ghost predicate Under(w: World, reaches: Reaches, user: string, account: string, native: string, entry: string, key: string)
  {
    && account in reaches && MayDerive(reaches[account], user) && Shows(w, reaches[account], native, entry)
    && key == reaches[account].provider + ":" + native
  }

  /** The item asserts an id that the entry claims. */
  ghost predicate Vouches(w: World, r: Reach, native: string, entry: string)
    requires Shows(w, r, native, entry)
  {
    exists x, c :: x in w.rows[Source(r.provider, r.account)][native].ids && c in w.entries[entry].claims && Identity.IdKey(c.id) == Identity.IdKey(x)
  }

  /** The accounts behind a row are exactly those the user may derive from that
      show an item under its key; the first of them in byte order gives the verdict. */
  ghost predicate RowTells(w: World, reaches: Reaches, user: string, entry: string, key: string, row: Coverage)
  {
    && (forall i, j :: 0 <= i < j < |row.via| ==> Below(row.via[i], row.via[j]))
    && (forall via :: via in row.via <==> exists account, native :: Behind(w, reaches, user, account, native, entry, key, via))
    && exists account, native :: Judges(w, reaches, user, account, native, entry, key, row.corroborated)
  }

  /** Such an account, and how a row names it. */
  ghost predicate Behind(w: World, reaches: Reaches, user: string, account: string, native: string, entry: string,
                         key: string, via: string)
  {
    Under(w, reaches, user, account, native, entry, key) && via == account + ":" + reaches[account].provider + ":host"
  }

  /** The lowest of the accounts under the key, and what its item says. */
  ghost predicate Judges(w: World, reaches: Reaches, user: string, account: string, native: string, entry: string,
                         key: string, verdict: bool)
  {
    && Under(w, reaches, user, account, native, entry, key)
    && (forall other, n :: Under(w, reaches, user, other, n, entry, key) ==> other == account || Below(account, other))
    && verdict == Vouches(w, reaches[account], native, entry)
  }

  ghost predicate Leads(meta: map<string, string>, c: Claim, ref: string)
  {
    var key := c.id.namespace + ":" + c.id.value;
    key in meta && meta[key] == ref
  }

  /** Kind and identities are the entry's, the reference is the first record one of
      its claims leads to. */
  ghost predicate FaceTells(w: World, e: LibraryEntry)
    requires e.id in w.entries
  {
    var claims := w.entries[e.id].claims;
    && e.series == (w.entries[e.id].kind == Identity.SERIES)
    && |e.identities| == |claims|
    && (forall i :: 0 <= i < |claims| ==>
          e.identities[i] == ExternalIdentity(claims[i].id.namespace, claims[i].id.value, JoinComma(Sort(claims[i].suppliers))))
    && if e.metadataRef == "" then LeadNowhere(w.meta, claims)
       else exists k :: 0 <= k < |claims| && Leads(w.meta, claims[k], e.metadataRef) && LeadNowhere(w.meta, claims[..k])
  }

  ghost predicate LeadNowhere(meta: map<string, string>, claims: seq<Claim>)
  {
    forall i, ref :: 0 <= i < |claims| && Leads(meta, claims[i], ref) ==> ref == ""
  }

  /** The user's library: in byte order of their ids, exactly the entries some
      account open to the user shows an item of, under exactly the keys and with
      exactly the accounts that show them. */
  ghost predicate Tells(w: World, reaches: Reaches, user: string, out: seq<LibraryEntry>)
  {
    && (forall i, j :: 0 <= i < j < |out| ==> Below(out[i].id, out[j].id))
    && (forall entry :: HasEntry(out, entry) <==> Seen(w, reaches, user, entry))
    && forall i :: 0 <= i < |out| ==> EntryTells(w, reaches, user, out[i])
  }

  predicate HasEntry(out: seq<LibraryEntry>, entry: string)
  {
    exists i :: 0 <= i < |out| && out[i].id == entry
  }

  ghost predicate Seen(w: World, reaches: Reaches, user: string, entry: string)
  {
    exists account, native, key :: Under(w, reaches, user, account, native, entry, key)
  }

  ghost predicate EntryTells(w: World, reaches: Reaches, user: string, e: LibraryEntry)
  {
    e.id in w.entries && FaceTells(w, e) && CoverageTells(w, reaches, user, e.id, e.coverage)
  }

  ghost predicate CoverageTells(w: World, reaches: Reaches, user: string, entry: string, coverage: map<string, Coverage>)
  {
    && (forall key :: key in coverage <==> exists account, native :: Under(w, reaches, user, account, native, entry, key))
    && forall key :: key in coverage ==> RowTells(w, reaches, user, entry, key, coverage[key])
  }

  lemma AuthorizedMeaning(r: Reach, user: string)
    ensures r.Authorized(user) <==> MayDerive(r, user)
  {
  }

  lemma {:induction false} AuthorizedAll(reaches: Reaches, accounts: seq<string>, user: string, account: string)
    requires forall i :: 0 <= i < |accounts| ==> accounts[i] in reaches
    requires account in accounts && reaches[account].Authorized(user)
    ensures reaches[account] in Authorized(reaches, accounts, user)
  {
    var front := accounts[..|accounts| - 1];
    assert accounts == front + [accounts[|accounts| - 1]];
    if account in front {
      AuthorizedAll(reaches, front, user, account);
    }
  }

  /** Exactly the reaches open to the user are derived from. */
  lemma DerivableMeaning(reaches: Reaches, user: string, r: Reach)
    ensures r in Derivable(reaches, user) <==> exists account :: account in reaches && reaches[account] == r && MayDerive(r, user)
  {
    var accounts := Listing(reaches.Keys);
    AuthorizedMeaning(r, user);
    AuthorizedMembers(reaches, accounts, user, r);
    if account :| account in reaches && reaches[account] == r && MayDerive(r, user) {
      AuthorizedAll(reaches, accounts, user, account);
    }
  }

  lemma ObservesMeaning(w: World, r: Reach, native: string, entry: string)
    requires Keyed(w)
    ensures Observes(w, r, native, entry) <==> Shows(w, r, native, entry)
  {
    if native in Items(w, r) {
      assert Items(w, r)[native].nativeId == native;
    }
  }

  lemma CoverKeysMeaning(w: World, reaches: Reaches, user: string, entry: string, key: string)
    requires Keyed(w)
    ensures key in CoverKeys(w, Derivable(reaches, user), entry) <==>
      exists account, native :: Under(w, reaches, user, account, native, entry, key)
  {
    var derivable := Derivable(reaches, user);
    if key in CoverKeys(w, derivable, entry) {
      var r, native :| r in derivable && native in Items(w, r) && Observes(w, r, native, entry) && key == r.provider + ":" + native;
      DerivableMeaning(reaches, user, r);
      ObservesMeaning(w, r, native, entry);
      var account :| account in reaches && reaches[account] == r;
      assert Under(w, reaches, user, account, native, entry, key);
    }
    if account, native :| Under(w, reaches, user, account, native, entry, key) {
      DerivableMeaning(reaches, user, reaches[account]);
      ObservesMeaning(w, reaches[account], native, entry);
    }
  }

  lemma AppearingMeaning(w: World, reaches: Reaches, user: string, entry: string)
    requires Keyed(w)
    ensures entry in Appearing(w, Derivable(reaches, user)) <==> Seen(w, reaches, user, entry)
  {
    var keys := CoverKeys(w, Derivable(reaches, user), entry);
    AppearsIffCovered(w, Derivable(reaches, user), entry);
    if key :| key in keys {
      CoverKeysMeaning(w, reaches, user, entry, key);
    }
    if account, native, key :| Under(w, reaches, user, account, native, entry, key) {
      CoverKeysMeaning(w, reaches, user, entry, key);
    }
  }

  lemma CoversMeaning(w: World, r: Reach, entry: string, key: string)
    requires Keyed(w)
    ensures Covers(w, r, entry, key) <==> exists native :: Shows(w, r, native, entry) && key == r.provider + ":" + native
  {
    if Covers(w, r, entry, key) {
      var native := key[|r.provider| + 1..];
      ObservesMeaning(w, r, native, entry);
      assert key == key[..|r.provider| + 1] + native;
    }
    if native :| Shows(w, r, native, entry) && key == r.provider + ":" + native {
      ObservesMeaning(w, r, native, entry);
      assert key[|r.provider| + 1..] == native;
    }
  }

  lemma ViasMeaning(w: World, reaches: Reaches, user: string, entry: string, key: string, via: string)
    requires Keyed(w) && Filed(reaches)
    ensures via in Vias(w, Derivable(reaches, user), entry, key) <==>
      exists account, native :: Behind(w, reaches, user, account, native, entry, key, via)
  {
    var derivable := Derivable(reaches, user);
    if via in Vias(w, derivable, entry, key) {
      var r :| r in derivable && Covers(w, r, entry, key) && via == r.account + ":" + r.provider + ":host";
      DerivableMeaning(reaches, user, r);
      CoversMeaning(w, r, entry, key);
      var account :| account in reaches && reaches[account] == r;
      var native :| Shows(w, r, native, entry) && key == r.provider + ":" + native;
      assert Behind(w, reaches, user, account, native, entry, key, via);
    }
    if account, native :| Behind(w, reaches, user, account, native, entry, key, via) {
      DerivableMeaning(reaches, user, reaches[account]);
      CoversMeaning(w, reaches[account], entry, key);
    }
  }

  predicate OpenAndCovers(w: World, reaches: Reaches, user: string, account: string, entry: string, key: string)
  {
    account in reaches && reaches[account].Authorized(user) && Covers(w, reaches[account], entry, key)
  }

  /** The first covering reach is that of the first account of the list that does. */
  lemma {:induction false} FirstOpen(w: World, reaches: Reaches, accounts: seq<string>, user: string, entry: string, key: string)
    returns (i: nat)
    requires forall k :: 0 <= k < |accounts| ==> accounts[k] in reaches
    ensures i <= |accounts| && forall k :: 0 <= k < i ==> !OpenAndCovers(w, reaches, user, accounts[k], entry, key)
    ensures i < |accounts| ==> OpenAndCovers(w, reaches, user, accounts[i], entry, key)
    ensures FirstCovering(w, Authorized(reaches, accounts, user), entry, key)
         == if i < |accounts| then Some(reaches[accounts[i]]) else None
  {
    if accounts == [] {
      i := 0;
    } else {
      var front, last := accounts[..|accounts| - 1], accounts[|accounts| - 1];
      assert accounts == front + [last];
      i := FirstOpen(w, reaches, front, user, entry, key);
      var list, r := Authorized(reaches, front, user), reaches[last];
      assert (list + [r])[..|list|] == list;
      if i == |front| && !OpenAndCovers(w, reaches, user, last, entry, key) {
        i := |accounts|;
      }
    }
  }

  lemma VerdictOfFirst(w: World, list: seq<Reach>, r: Reach, entry: string, key: string)
    requires FirstCovering(w, list, entry, key) == Some(r)
    ensures Covers(w, r, entry, key) && FirstVerdict(w, list, entry, key) == Corroborated(w, Carried(w, r, entry, key), entry)
  {
    FirstCoveringCovers(w, list, entry, key);
  }

  lemma SomeCovers(w: World, reaches: Reaches, user: string, entry: string, key: string) returns (account: string)
    requires Keyed(w) && key in CoverKeys(w, Derivable(reaches, user), entry)
    ensures account in reaches && OpenAndCovers(w, reaches, user, account, entry, key)
  {
    CoverKeysMeaning(w, reaches, user, entry, key);
    var native;
    account, native :| Under(w, reaches, user, account, native, entry, key);
    UnderCovers(w, reaches, user, account, native, entry, key);
  }

  /** Some account is the lowest under a key, and the first covering reach is its. */
  lemma LowestUnder(w: World, reaches: Reaches, user: string, entry: string, key: string) returns (account: string)
    requires Keyed(w) && key in CoverKeys(w, Derivable(reaches, user), entry)
    ensures account in reaches && OpenAndCovers(w, reaches, user, account, entry, key)
    ensures FirstCovering(w, Derivable(reaches, user), entry, key) == Some(reaches[account])
    ensures Judges(w, reaches, user, account, key[|reaches[account].provider| + 1..], entry, key,
                   Corroborated(w, Carried(w, reaches[account], entry, key), entry))
  {
    var accounts := Listing(reaches.Keys);
    var i := FirstOpen(w, reaches, accounts, user, entry, key);
    var some := SomeCovers(w, reaches, user, entry, key);
    assert some in accounts;
    account := accounts[i];
    ListingRises(reaches.Keys);
    LowestJudges(w, reaches, accounts, i, user, entry, key);
  }

  /** The lowest account's item decides the verdict. */
  lemma VerdictMeaning(w: World, reaches: Reaches, user: string, entry: string, key: string)
    requires Keyed(w) && key in CoverKeys(w, Derivable(reaches, user), entry)
    ensures exists account, native ::
      Judges(w, reaches, user, account, native, entry, key, FirstVerdict(w, Derivable(reaches, user), entry, key))
  {
    var account := LowestUnder(w, reaches, user, entry, key);
    VerdictOfFirst(w, Derivable(reaches, user), reaches[account], entry, key);
  }

  lemma UnderCovers(w: World, reaches: Reaches, user: string, account: string, native: string, entry: string, key: string)
    requires Keyed(w) && Under(w, reaches, user, account, native, entry, key)
    ensures OpenAndCovers(w, reaches, user, account, entry, key)
  {
    CoversMeaning(w, reaches[account], entry, key);
    AuthorizedMeaning(reaches[account], user);
  }

  lemma LowestJudges(w: World, reaches: Reaches, accounts: seq<string>, i: nat, user: string, entry: string, key: string)
    requires Keyed(w) && i < |accounts| && OpenAndCovers(w, reaches, user, accounts[i], entry, key)
    requires forall j, k :: 0 <= j < k < |accounts| ==> Below(accounts[j], accounts[k])
    requires forall k :: 0 <= k < i ==> !OpenAndCovers(w, reaches, user, accounts[k], entry, key)
    requires forall account :: account in reaches ==> account in accounts
    ensures var r := reaches[accounts[i]];
      Judges(w, reaches, user, accounts[i], key[|r.provider| + 1..], entry, key, Corroborated(w, Carried(w, r, entry, key), entry))
  {
    UnderFirst(w, reaches, user, accounts[i], entry, key);
    forall other, n | Under(w, reaches, user, other, n, entry, key) ensures other == accounts[i] || Below(accounts[i], other) {
      UnderCovers(w, reaches, user, other, n, entry, key);
      var k :| 0 <= k < |accounts| && accounts[k] == other;
      assert k >= i;
    }
  }

  lemma UnderFirst(w: World, reaches: Reaches, user: string, account: string, entry: string, key: string)
    requires Keyed(w) && OpenAndCovers(w, reaches, user, account, entry, key)
    ensures var r := reaches[account]; var native := key[|r.provider| + 1..];
      && Under(w, reaches, user, account, native, entry, key)
      && Corroborated(w, Carried(w, r, entry, key), entry) == Vouches(w, r, native, entry)
  {
    var r := reaches[account];
    var native := key[|r.provider| + 1..];
    AuthorizedMeaning(r, user);
    ObservesMeaning(w, r, native, entry);
    assert key == key[..|r.provider| + 1] + native;
    CorroboratedMeaning(w, Carried(w, r, entry, key), entry);
  }

  lemma CorroboratedMeaning(w: World, o: Obs, entry: string)
    requires entry in w.entries
    ensures Corroborated(w, o, entry) <==>
      exists x, c :: x in o.item.ids && c in w.entries[entry].claims && Identity.IdKey(c.id) == Identity.IdKey(x)
  {
    var claims := w.entries[entry].claims;
    if Corroborated(w, o, entry) {
      var x :| x in o.item.ids && Identity.IdKey(x) in ClaimKeys(claims);
      var i :| 0 <= i < |claims| && Identity.IdKey(claims[i].id) == Identity.IdKey(x);
      assert claims[i] in claims;
    }
    if x, c :| x in o.item.ids && c in claims && Identity.IdKey(c.id) == Identity.IdKey(x) {
      var i :| 0 <= i < |claims| && claims[i] == c;
      assert Identity.IdKey(claims[i].id) in ClaimKeys(claims);
    }
  }

  lemma {:induction false} MetadataRefMeaning(meta: map<string, string>, claims: seq<Claim>)
    ensures var ref := MetadataRef(meta, claims);
      if ref == "" then LeadNowhere(meta, claims)
      else exists k :: 0 <= k < |claims| && Leads(meta, claims[k], ref) && LeadNowhere(meta, claims[..k])
  {
    if claims != [] {
      var ref, rest := MetadataRef(meta, claims), claims[1..];
      MetadataRefMeaning(meta, rest);
      if !Leads(meta, claims[0], ref) || ref == "" {
        if ref != "" {
          var k :| 0 <= k < |rest| && Leads(meta, rest[k], ref) && LeadNowhere(meta, rest[..k]);
          assert claims[k + 1] == rest[k];
          assert claims[..k + 1] == [claims[0]] + rest[..k];
        } else {
          assert claims == [claims[0]] + rest;
        }
      } else {
        assert LeadNowhere(meta, claims[..0]);
      }
    }
  }

  lemma RowMeaning(w: World, reaches: Reaches, user: string, entry: string, key: string)
    requires Keyed(w) && Filed(reaches) && key in CoverKeys(w, Derivable(reaches, user), entry)
    ensures RowTells(w, reaches, user, entry, key, DeclaredRow(w, Derivable(reaches, user), entry, key))
  {
    var vias := Vias(w, Derivable(reaches, user), entry, key);
    ListingRises(vias);
    VerdictMeaning(w, reaches, user, entry, key);
    forall via ensures via in Listing(vias) <==> exists account, native :: Behind(w, reaches, user, account, native, entry, key, via) {
      ViasMeaning(w, reaches, user, entry, key, via);
    }
  }

  lemma FaceMeaning(w: World, entry: string, coverage: map<string, Coverage>)
    requires entry in w.entries
    ensures FaceTells(w, Face(w, entry, coverage))
  {
    MetadataRefMeaning(w.meta, w.entries[entry].claims);
  }

  lemma CoverageMeaning(w: World, reaches: Reaches, user: string, entry: string)
    requires Keyed(w) && Filed(reaches)
    ensures CoverageTells(w, reaches, user, entry, DeclaredCoverage(w, Derivable(reaches, user), entry))
  {
    var coverage := DeclaredCoverage(w, Derivable(reaches, user), entry);
    forall key ensures key in coverage <==> exists account, native :: Under(w, reaches, user, account, native, entry, key) {
      CoverKeysMeaning(w, reaches, user, entry, key);
    }
    forall key | key in coverage ensures RowTells(w, reaches, user, entry, key, coverage[key]) {
      RowMeaning(w, reaches, user, entry, key);
    }
  }

  lemma EntryMeaning(w: World, reaches: Reaches, user: string, entry: string)
    requires Keyed(w) && Filed(reaches) && entry in w.entries
    ensures EntryTells(w, reaches, user, DeclaredEntry(w, Derivable(reaches, user), entry))
  {
    FaceMeaning(w, entry, DeclaredCoverage(w, Derivable(reaches, user), entry));
    CoverageMeaning(w, reaches, user, entry);
  }

  /** The entries listed are those of the ids, each saying what it should. */
  ghost predicate ListTells(w: World, reaches: Reaches, user: string, ids: seq<string>, out: seq<LibraryEntry>)
  {
    |out| == |ids| &&
    (ids != [] ==>
      var n := |ids| - 1;
      ListTells(w, reaches, user, ids[..n], out[..n]) && out[n].id == ids[n] && EntryTells(w, reaches, user, out[n]))
  }

  lemma {:induction false} ListTellsAt(w: World, reaches: Reaches, user: string, ids: seq<string>, out: seq<LibraryEntry>, i: nat)
    requires ListTells(w, reaches, user, ids, out) && i < |ids|
    ensures |out| == |ids| && out[i].id == ids[i] && EntryTells(w, reaches, user, out[i])
  {
    if i < |ids| - 1 {
      ListTellsAt(w, reaches, user, ids[..|ids| - 1], out[..|ids| - 1], i);
    }
  }

  lemma {:induction false} DeclaredMeaning(w: World, reaches: Reaches, user: string, ids: seq<string>)
    requires Keyed(w) && Filed(reaches) && forall i :: 0 <= i < |ids| ==> ids[i] in w.entries
    ensures ListTells(w, reaches, user, ids, DeclaredFor(w, Derivable(reaches, user), ids))
  {
    if ids != [] {
      var front, last := ids[..|ids| - 1], ids[|ids| - 1];
      assert ids == front + [last];
      DeclaredMeaning(w, reaches, user, front);
      EntryMeaning(w, reaches, user, last);
      DeclaredOneMore(w, Derivable(reaches, user), front, last);
      ListTellsOneMore(w, reaches, user, front, last, DeclaredFor(w, Derivable(reaches, user), front),
                       DeclaredEntry(w, Derivable(reaches, user), last));
    }
  }

  lemma ListTellsOneMore(w: World, reaches: Reaches, user: string, ids: seq<string>, id: string, out: seq<LibraryEntry>, e: LibraryEntry)
    requires ListTells(w, reaches, user, ids, out) && e.id == id && EntryTells(w, reaches, user, e)
    ensures ListTells(w, reaches, user, ids + [id], out + [e])
  {
    assert (ids + [id])[..|ids|] == ids && (out + [e])[..|ids|] == out;
  }

  /** A fresh derivation says exactly what its inputs' own fields say. */
  lemma FreshTells(w: World, reaches: Reaches, user: string)
    requires Keyed(w) && Filed(reaches)
    ensures Tells(w, reaches, user, Fresh(w, reaches, user))
  {
    var appearing := Appearing(w, Derivable(reaches, user));
    var ids := Listing(appearing);
    ListedAreKnown(w, Derivable(reaches, user));
    ListingRises(appearing);
    DeclaredMeaning(w, reaches, user, ids);
    var out := Fresh(w, reaches, user);
    assert out == DeclaredFor(w, Derivable(reaches, user), ids);
    forall i | 0 <= i < |ids| ensures out[i].id == ids[i] && EntryTells(w, reaches, user, out[i]) {
      ListTellsAt(w, reaches, user, ids, out, i);
    }
    forall entry ensures HasEntry(out, entry) <==> Seen(w, reaches, user, entry) {
      AppearingMeaning(w, reaches, user, entry);
      assert HasEntry(out, entry) <==> entry in ids;
    }
  }

  /** So the rows of an account closed to the user, a private one of another owner
      among them, never change that user's library. */
  lemma ClosedRowsUnseen(w: World, reaches: Reaches, source: Source, items: map<string, CatalogueItem>, user: string)
    requires Filed(reaches) && source.account in reaches
    requires !MayDerive(reaches[source.account], user)
    ensures Fresh(WithRows(w, source, items), reaches, user) == Fresh(w, reaches, user)
  {
    AuthorizedMeaning(reaches[source.account], user);
    RowsUnaffected(w, reaches, source, items, user);
  }

  // --- the cache

  const USER_PREFIX := "lib/u/"

  function UserKey(user: string): string
    requires IsBytes(user)
  {
    USER_PREFIX + PathEscape(user)
  }

  type Cached = map<string, seq<LibraryEntry>>

  ghost predicate IsUserKey(key: string)
  {
    exists user :: IsBytes(user) && key == UserKey(user)
  }

  lemma UserKeyInjective(a: string, b: string)
    requires IsBytes(a) && IsBytes(b) && UserKey(a) == UserKey(b)
    ensures a == b
  {
    assert UserKey(a)[|USER_PREFIX|..] == PathEscape(a) && UserKey(b)[|USER_PREFIX|..] == PathEscape(b);
    EscapeInjective(a, b);
  }

  /** Every cached library is its user's fresh derivation. */
  ghost predicate CoherentWith(cache: Cached, w: World, reaches: Reaches)
  {
    && (forall key :: key in cache ==> IsUserKey(key))
    && forall user :: IsBytes(user) && UserKey(user) in cache ==> cache[UserKey(user)] == Fresh(w, reaches, user)
  }

  /** The user a cache key belongs to, as the sweep reads it back. */
  function UserOf(key: string): string
  {
    var tail := if USER_PREFIX <= key then key[|USER_PREFIX|..] else key;
    match PathUnescape(tail)
    case Some(user) => user
    case None => tail
  }

  lemma UserOfKey(user: string)
    requires IsBytes(user)
    ensures UserOf(UserKey(user)) == user
  {
    EscapeRoundTrip(user);
    assert UserKey(user)[|USER_PREFIX|..] == PathEscape(user);
  }

  function Swept(cache: Cached, invalidate: string -> bool): Cached
  {
    map key | key in cache && !(USER_PREFIX <= key && invalidate(UserOf(key))) :: cache[key]
  }

  /** Sweeping keeps exactly the users the predicate spares. */
  lemma SweptUsers(cache: Cached, invalidate: string -> bool, user: string)
    requires IsBytes(user)
    ensures UserKey(user) in Swept(cache, invalidate) <==> UserKey(user) in cache && !invalidate(user)
  {
    UserOfKey(user);
    assert USER_PREFIX <= UserKey(user);
  }

  /** A sweep restores coherence after a change if everyone it spares derives
      the same library as before. */
  lemma SweepRestores(cache: Cached, w0: World, r0: Reaches, w1: World, r1: Reaches, invalidate: string -> bool)
    requires CoherentWith(cache, w0, r0)
    requires forall user :: IsBytes(user) && !invalidate(user) ==> Fresh(w1, r1, user) == Fresh(w0, r0, user)
    ensures CoherentWith(Swept(cache, invalidate), w1, r1)
  {
    forall user | IsBytes(user) && UserKey(user) in Swept(cache, invalidate)
      ensures Swept(cache, invalidate)[UserKey(user)] == Fresh(w1, r1, user)
    {
      SweptUsers(cache, invalidate, user);
    }
  }

  /** Who could derive an account under either of two settings. */
  function EitherAuthorized(a: Reach, b: Reach): string -> bool
  {
    user => a.Authorized(user) || b.Authorized(user)
  }

  /** Whom the invalidation of one account concerns: its audience, or everyone
      when no such account is registered. */
  function Concerned(reaches: Reaches, source: Source): string -> bool
  {
    if source.account in reaches && reaches[source.account].provider == source.provider
    then var r := reaches[source.account]; user => r.Authorized(user)
    else user => true
  }

  /** Sweeping everyone authorized before or after a change of one reach keeps
      the surviving cached libraries correct. */
  lemma SharingRestores(cache: Cached, w: World, reaches: Reaches, account: string, changed: Reach)
    requires account in reaches
    ensures CoherentWith(cache, w, reaches) ==>
      CoherentWith(Swept(cache, EitherAuthorized(reaches[account], changed)), w, reaches[account := changed])
  {
    var invalidate := EitherAuthorized(reaches[account], changed);
    forall user | IsBytes(user) && !invalidate(user)
      ensures Fresh(w, reaches[account := changed], user) == Fresh(w, reaches, user)
    {
      SharingUnaffected(w, reaches, account, changed, user);
    }
    if CoherentWith(cache, w, reaches) {
      SweepRestores(cache, w, reaches, w, reaches[account := changed], invalidate);
    }
  }

  /** A change of sharing spares exactly those it admits neither before nor after. */
  lemma EitherSwept(cache: Cached, before: Reach, after: Reach)
    ensures forall user :: IsBytes(user) ==>
      (UserKey(user) in Swept(cache, EitherAuthorized(before, after)) <==>
         UserKey(user) in cache && !MayDerive(before, user) && !MayDerive(after, user))
  {
    forall user | IsBytes(user)
      ensures UserKey(user) in Swept(cache, EitherAuthorized(before, after)) <==>
        UserKey(user) in cache && !MayDerive(before, user) && !MayDerive(after, user)
    {
      SweptUsers(cache, EitherAuthorized(before, after), user);
      AuthorizedMeaning(before, user);
      AuthorizedMeaning(after, user);
    }
  }

  /** The account is the provider's and not open to the user. */
  ghost predicate Spared(reaches: Reaches, provider: string, account: string, user: string)
  {
    account in reaches && reaches[account].provider == provider && !MayDerive(reaches[account], user)
  }

  /** An invalidation spares exactly those who may not derive the account, and
      nobody when the provider has no such account. */
  lemma ConcernedSwept(cache: Cached, reaches: Reaches, provider: string, account: string)
    ensures forall user :: IsBytes(user) ==>
      (UserKey(user) in Swept(cache, Concerned(reaches, Source(provider, account))) <==>
         UserKey(user) in cache && Spared(reaches, provider, account, user))
  {
    forall user | IsBytes(user)
      ensures UserKey(user) in Swept(cache, Concerned(reaches, Source(provider, account))) <==>
        UserKey(user) in cache && Spared(reaches, provider, account, user)
    {
      SweptUsers(cache, Concerned(reaches, Source(provider, account)), user);
      if account in reaches {
        AuthorizedMeaning(reaches[account], user);
      }
    }
  }

  class Service {
    var reaches: Reaches
    /** What the collaborators currently hold. */
    var world: World
    var cache: Cached
    const marks: bool
    /** Entries handed to the enrichment drain, in order. */
    var marked: seq<string>

    ghost predicate Valid()
      reads this`reaches, this`world
    {
      Filed(reaches) && Keyed(world)
    }

    ghost predicate Coherent()
      reads this`cache, this`world, this`reaches
    {
      CoherentWith(cache, world, reaches)
    }

    constructor (w: World, marks: bool)
      requires Keyed(w)
      ensures Valid() && Coherent() && world == w && reaches == map[] && cache == map[] && marked == []
    {
      reaches, world, cache := map[], w, map[];
      this.marks, marked := marks, [];
    }

    /** Drops exactly the cached libraries of the users the predicate names. */
    method SweepUserCaches(invalidate: string -> bool)
      modifies this`cache
      ensures cache == Swept(old(cache), invalidate)
    {
      var rest := cache.Keys;
      while rest != {}
        invariant rest <= old(cache).Keys
        invariant cache == map key | key in old(cache) && (key in rest || !(USER_PREFIX <= key && invalidate(UserOf(key))))
                                  :: old(cache)[key]
        decreases rest
      {
        var key :| key in rest;
        rest := rest - {key};
        if USER_PREFIX <= key && invalidate(UserOf(key)) {
          cache := cache - {key};
        }
      }
    }

    /** Registers an account; a blank id, a missing synchronizer or an id
        already registered is refused. No cached library is touched. */
    method AddReach(r: Reach, wired: bool) returns (ok: bool)
      requires Valid()
      modifies this`reaches
      ensures Valid() && (ok <==> r.account != "" && wired && r.account !in old(reaches))
      ensures reaches == if ok then old(reaches)[r.account := r] else old(reaches)
    {
      if r.account == "" || !wired || r.account in reaches {
        return false;
      }
      reaches := reaches[r.account := r];
      return true;
    }

    /** Unregisters an account; cached libraries follow at their next rebuild. */
    method RemoveReach(account: string)
      requires Valid()
      modifies this`reaches
      ensures Valid() && reaches == old(reaches) - {account}
    {
      reaches := reaches - {account};
    }

    /** Replaces a reach's audience and drops the libraries of everyone who
        could derive the account before or after. */
    method SetReachSharing(account: string, visibility: Visibility, members: seq<string>) returns (ok: bool)
      requires Valid()
      modifies this`reaches, this`cache
      ensures Valid() && (ok <==> account in old(reaches))
      ensures !ok ==> reaches == old(reaches) && cache == old(cache)
      ensures ok ==>
        var before, after := old(reaches)[account], old(reaches)[account].(visibility := visibility, members := members);
        && reaches == old(reaches)[account := after]
        && cache == Swept(old(cache), EitherAuthorized(before, after))
        && forall user :: IsBytes(user) ==>
             (UserKey(user) in cache <==> UserKey(user) in old(cache) && !MayDerive(before, user) && !MayDerive(after, user))
      ensures old(Coherent()) ==> Coherent()
    {
      if account !in reaches {
        return false;
      }
      var before := reaches[account];
      var after := before.(visibility := visibility, members := members);
      SharingRestores(cache, world, reaches, account, after);
      reaches := reaches[account := after];
      SweepUserCaches(EitherAuthorized(before, after));
      EitherSwept(old(cache), before, after);
      return true;
    }

    /** Drops the libraries that derive from one account; when no such account
        is registered, all of them. */
    method InvalidateAccount(provider: string, account: string)
      requires Valid()
      modifies this`cache
      ensures Valid()
      ensures cache == Swept(old(cache), Concerned(reaches, Source(provider, account)))
      ensures forall user :: IsBytes(user) ==>
        (UserKey(user) in cache <==> UserKey(user) in old(cache) && Spared(reaches, provider, account, user))
    {
      var invalidate: string -> bool := user => true;
      if account in reaches && reaches[account].provider == provider {
        var r := reaches[account];
        invalidate := user => r.Authorized(user);
      }
      SweepUserCaches(invalidate);
      ConcernedSwept(old(cache), reaches, provider, account);
    }

    /** An availability event arrives: it invalidates its account. */
    method Publish(provider: string, account: string)
      requires Valid()
      modifies this`cache
      ensures Valid()
      ensures cache == Swept(old(cache), Concerned(reaches, Source(provider, account)))
    {
      InvalidateAccount(provider, account);
    }

    /** The collaborators' contents move on by themselves. */
    method Observe(w: World)
      requires Valid() && Keyed(w)
      modifies this`world
      ensures Valid() && world == w
    {
      world := w;
    }

    /** One account's cached items change and its availability events arrive:
        whatever libraries survive are still the fresh ones. */
    method AccountChanged(source: Source, items: map<string, CatalogueItem>)
      requires Valid() && forall id :: id in items ==> items[id].nativeId == id
      modifies this`world, this`cache
      ensures Valid() && world == WithRows(old(world), source, items)
      ensures old(Coherent()) ==> Coherent()
    {
      ghost var before := world;
      world := WithRows(world, source, items);
      InvalidateAccount(source.provider, source.account);
      if old(Coherent()) {
        InvalidationRestores(old(cache), before, reaches, source, items);
      }
    }

    /** Lists the user's reaches in account order. */
    method ListDerivable(user: string) returns (list: seq<Reach>)
      ensures list == Derivable(reaches, user)
    {
      var accounts := SortedElements(reaches.Keys);
      list := [];
      for i := 0 to |accounts|
        invariant list == Authorized(reaches, accounts[..i], user)
      {
        assert accounts[..i + 1][..i] == accounts[..i];
        assert accounts[i] in accounts;
        if reaches[accounts[i]].Authorized(user) {
          list := list + [reaches[accounts[i]]];
        }
      }
      assert accounts[..|accounts|] == accounts;
    }

    /** Folds in the items of one reach, whatever order they are listed in. */
    method FoldReach(builds: map<string, Build>, r: Reach, ghost seen: seq<Obs>)
      returns (out: map<string, Build>, ghost obs: seq<Obs>)
      requires Valid() && builds == Folded(world, seen)
      ensures out == Folded(world, seen + obs) && EnumeratesOne(world, r, obs)
    {
      var items := Items(world, r);
      out, obs := builds, [];
      var rest := items.Keys;
      assert seen + [] == seen;
      while rest != {}
        invariant rest <= items.Keys && out == Folded(world, seen + obs)
        invariant forall o :: o in obs <==> o.reach == r && Carries(world, o) && o.item.nativeId !in rest
        decreases rest
      {
        var native :| native in rest;
        var o := Obs(r, items[native]);
        assert o.item.nativeId == native;
        rest := rest - {native};
        assert (seen + (obs + [o]))[..|seen + obs|] == seen + obs;
        out := AddObs(world, out, o);
        obs := obs + [o];
      }
    }

    /** Everything the user's reaches observe, grouped by entry. */
    method FoldAll(list: seq<Reach>) returns (builds: map<string, Build>, ghost obs: seq<Obs>)
      requires Valid()
      ensures builds == Folded(world, obs) && Enumerates(world, list, obs)
    {
      builds, obs := map[], [];
      for i := 0 to |list|
        invariant builds == Folded(world, obs) && Enumerates(world, list[..i], obs)
      {
        ghost var more;
        builds, more := FoldReach(builds, list[i], obs);
        EnumerateOneMore(world, list[..i], list[i], obs, more);
        assert list[..i + 1] == list[..i] + [list[i]];
        obs := obs + more;
      }
      assert list[..|list|] == list;
    }

    /** Derives the user's library: it is exactly the declared one, whatever
        order the store lists items in, and says what reaches and rows say. */
    method Derive(user: string) returns (out: seq<LibraryEntry>)
      requires Valid()
      ensures out == Fresh(world, reaches, user) && Tells(world, reaches, user, out)
    {
      out := FoldAndRender(user);
      FreshTells(world, reaches, user);
    }

    method FoldAndRender(user: string) returns (out: seq<LibraryEntry>)
      requires Valid()
      ensures out == Fresh(world, reaches, user)
    {
      var list := ListDerivable(user);
      var builds;
      ghost var obs;
      builds, obs := FoldAll(list);
      FoldIsDeclared(world, list, obs);
      var ids := SortedElements(builds.Keys);
      assert forall i :: 0 <= i < |ids| ==> ids[i] in builds;
      out := Render(list, builds, ids);
    }

    /** Renders the builds in the given order. */
    method Render(ghost list: seq<Reach>, builds: map<string, Build>, ids: seq<string>) returns (out: seq<LibraryEntry>)
      requires forall i :: 0 <= i < |ids| ==> ids[i] in builds
      requires forall id :: id in builds ==>
        id in world.entries && Face(world, id, Rendered(builds[id])) == DeclaredEntry(world, list, id)
      ensures out == DeclaredFor(world, list, ids)
    {
      out := [];
      for i := 0 to |ids|
        invariant out == DeclaredFor(world, list, ids[..i])
      {
        assert ids[..i + 1][..i] == ids[..i];
        out := out + [Face(world, ids[i], Rendered(builds[ids[i]]))];
      }
      assert ids[..|ids|] == ids;
    }

    /** Hands every entry without a metadata record to the drain, in order. */
    method Mark(entries: seq<LibraryEntry>)
      modifies this`marked
      ensures marked == old(marked) + (if marks then Unresolved(entries) else [])
    {
      if !marks {
        return;
      }
      for i := 0 to |entries|
        invariant marked == old(marked) + Unresolved(entries[..i])
      {
        assert entries[..i + 1][..i] == entries[..i];
        if entries[i].metadataRef == "" {
          marked := marked + [entries[i].id];
        }
      }
      assert entries[..|entries|] == entries;
    }

    /** Recomputes and caches the user's library, then marks its entries that
        have no metadata record yet. */
    method RebuildUser(user: string) returns (out: seq<LibraryEntry>)
      requires Valid() && IsBytes(user)
      modifies this`cache, this`marked
      ensures Valid()
      ensures out == Fresh(world, reaches, user) && Tells(world, reaches, user, out)
      ensures cache == old(cache)[UserKey(user) := out]
      ensures marked == old(marked) + (if marks then Unresolved(out) else [])
      ensures old(Coherent()) ==> Coherent()
    {
      out := StoreFresh(user);
      FreshTells(world, reaches, user);
    }

    method StoreFresh(user: string) returns (out: seq<LibraryEntry>)
      requires Valid() && IsBytes(user)
      modifies this`cache, this`marked
      ensures Valid()
      ensures out == Fresh(world, reaches, user)
      ensures cache == old(cache)[UserKey(user) := out]
      ensures marked == old(marked) + (if marks then Unresolved(out) else [])
      ensures old(Coherent()) ==> Coherent()
    {
      out := FoldAndRender(user);
      RebuildKeepsCoherence(cache, world, reaches, user);
      cache := cache[UserKey(user) := out];
      Mark(out);
    }

    /** The user's library: the cached one, or a fresh derivation. Either way a
        coherent service answers with what a fresh derivation would give. */
    method Library(user: string) returns (out: seq<LibraryEntry>)
      requires Valid() && IsBytes(user)
      modifies this`cache, this`marked
      ensures Valid() && (old(Coherent()) ==> Coherent() && out == Fresh(world, reaches, user) && Tells(world, reaches, user, out))
    {
      FreshTells(world, reaches, user);
      if UserKey(user) in cache {
        return cache[UserKey(user)];
      }
      out := RebuildUser(user);
    }
  }

  function Unresolved(entries: seq<LibraryEntry>): seq<string>
  {
    if entries == [] then []
    else
      var front, last := Unresolved(entries[..|entries| - 1]), entries[|entries| - 1];
      if last.metadataRef == "" then front + [last.id] else front
  }

  /** Exactly the entries without a record are handed over, in the library's order. */
  lemma {:induction false} UnresolvedMeaning(entries: seq<LibraryEntry>, more: seq<LibraryEntry>)
    ensures forall id :: id in Unresolved(entries) <==> exists e :: e in entries && e.id == id && e.metadataRef == ""
    ensures Unresolved(entries + more) == Unresolved(entries) + Unresolved(more)
  {
    if more != [] {
      var n := |more| - 1;
      assert (entries + more)[..|entries| + n] == entries + more[..n];
      UnresolvedMeaning(entries, more[..n]);
    } else {
      assert entries + more == entries;
      if entries != [] {
        var n := |entries| - 1;
        UnresolvedMeaning(entries[..n], []);
        assert entries == entries[..n] + [entries[n]];
      }
    }
  }

  lemma RebuildKeepsCoherence(cache: Cached, w: World, reaches: Reaches, user: string)
    requires IsBytes(user)
    ensures CoherentWith(cache, w, reaches) ==> CoherentWith(cache[UserKey(user) := Fresh(w, reaches, user)], w, reaches)
  {
    var out := Fresh(w, reaches, user);
    if CoherentWith(cache, w, reaches) {
      assert IsUserKey(UserKey(user));
      forall other | IsBytes(other) && UserKey(other) in cache[UserKey(user) := out]
        ensures cache[UserKey(user) := out][UserKey(other)] == Fresh(w, reaches, other)
      {
        if UserKey(other) == UserKey(user) {
          UserKeyInjective(other, user);
        }
      }
    }
  }

  /** The users one account's invalidation sweeps cover everyone whose
      derivation its new rows could change. */
  lemma InvalidationRestores(cache: Cached, w: World, reaches: Reaches, source: Source,
                             items: map<string, CatalogueItem>)
    requires Filed(reaches) && CoherentWith(cache, w, reaches)
    ensures CoherentWith(Swept(cache, Concerned(reaches, source)), WithRows(w, source, items), reaches)
  {
    var invalidate := Concerned(reaches, source);
    forall user | IsBytes(user) && !invalidate(user)
      ensures Fresh(WithRows(w, source, items), reaches, user) == Fresh(w, reaches, user)
    {
      RowsUnaffected(w, reaches, source, items, user);
    }
    SweepRestores(cache, w, reaches, WithRows(w, source, items), reaches, invalidate);
  }
}
