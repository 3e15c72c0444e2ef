/** Title matching: deciding whether two provider items are the same movie or
    series, picking one catalogue candidate, and comparing identity proofs. */
module Identity {
  import opened Strings

  /** Item kinds as the wire carries them; the enum is open, so any int. */
  const UNSPECIFIED := 0
  const MOVIE := 1
  const SERIES := 2

  /** A nil external id reads exactly as one with empty parts. */
  datatype ExternalId = ExternalId(namespace: string, value: string)
  {
    predicate Asserted() { namespace != "" && value != "" }
  }

  /** The metadata matching reads; absent metadata reads as all zero values. */
  datatype Metadata = Metadata(
    title: string,
    year: nat,
    directors: seq<string>,
    cast: seq<string>,
    language: string,
    runtime: nat)

  datatype Item = Item(kind: int, ids: seq<ExternalId>, metadata: Metadata, altTitles: seq<string>)

  datatype Signal = NoSignal | Director | CastMember | OriginalLanguage | Duration

  datatype Verdict = Verdict(merge: bool, corroborated: bool, signal: Signal)

  const SEPARATE := Verdict(false, false, NoSignal)

  /** The normalization in force: any fixed total function on titles. */
  datatype Options = Options(normalize: string -> string)
  {
    predicate TitleEq(x: string, y: string)
    {
      normalize(x) != "" && normalize(y) != "" && normalize(x) == normalize(y)
    }

    predicate TitlesAgree(a: Item, b: Item)
    {
      || TitleEq(a.metadata.title, b.metadata.title)
      || (exists at :: at in a.altTitles && TitleEq(at, b.metadata.title))
      || (exists bt :: bt in b.altTitles && TitleEq(a.metadata.title, bt))
      || (exists at, bt :: at in a.altTitles && bt in b.altTitles && TitleEq(at, bt))
    }

    function Decide(a: Item, b: Item): Verdict
    {
      if !SameKind(a.kind, b.kind) then SEPARATE
      else if Corroborate(a.ids, b.ids) then Verdict(true, true, NoSignal)
      else if !TitlesAgree(a, b) then SEPARATE
      else if a.kind == MOVIE && !YearsMatch(a.metadata.year, b.metadata.year) then SEPARATE
      else
        var signal := FirstSignal(a.metadata, b.metadata);
        if signal == NoSignal then SEPARATE else Verdict(true, false, signal)
    }

    /** The gates a lookup summary must pass before its details are fetched. */
    predicate Screened(entry: Item, c: Item)
    {
      && SameKind(entry.kind, c.kind)
      && TitlesAgree(entry, c)
      && (entry.kind == MOVIE ==> YearsMatch(entry.metadata.year, c.metadata.year))
      && !Contradicts(entry.ids, c.ids)
    }

    /** Same identity material: equal kind, normalized title and year, and the
        same asserted ids counted with repetition. */
    predicate SameProof(a: Proof, b: Proof)
    {
      && a.kind == b.kind
      && normalize(a.title) == normalize(b.title)
      && a.year == b.year
      && SameIds(a.ids, b.ids)
    }
  }

  predicate SameKind(a: int, b: int)
  {
    a != UNSPECIFIED && b != UNSPECIFIED && a == b
  }

  predicate Corroborate(xs: seq<ExternalId>, ys: seq<ExternalId>)
  {
    exists x :: x in xs && x in ys && x.Asserted()
  }

  predicate Contradicts(xs: seq<ExternalId>, ys: seq<ExternalId>)
  {
    exists x, y :: x in xs && y in ys && x.Asserted() && y.Asserted()
                   && x.namespace == y.namespace && x.value != y.value
  }

  predicate YearsMatch(a: nat, b: nat)
  {
    a > 0 && b > 0 && a == b
  }

  predicate SharesAny(xs: seq<string>, ys: seq<string>)
  {
    exists x :: x in xs && x in ys
  }

  function FirstSignal(a: Metadata, b: Metadata): Signal
  {
    if SharesAny(a.directors, b.directors) then Director
    else if SharesAny(a.cast, b.cast) then CastMember
    else if a.language != "" && a.language == b.language then OriginalLanguage
    else if a.runtime > 0 && a.runtime == b.runtime then Duration
    else NoSignal
  }

  /** The item goes by this title. */
  predicate Titled(a: Item, title: string)
  {
    title == a.metadata.title || title in a.altTitles
  }

  /** Two items of one kind merge exactly on an id both assert, or on titles with
      one non-empty normal form (and one known year, for movies) backed by a
      shared director, cast member, original language or runtime; a heuristic
      verdict names the first of these there is. */
  lemma DecideMeaning(o: Options, a: Item, b: Item)
    ensures var v, m, n := o.Decide(a, b), a.metadata, b.metadata;
      var oneKind := a.kind == b.kind != UNSPECIFIED;
      var sharedId := exists x :: x in a.ids && x in b.ids && x.namespace != "" && x.value != "";
      var oneTitle := exists s, t :: Titled(a, s) && Titled(b, t) && o.normalize(s) == o.normalize(t) != "";
      var director := exists p :: p in m.directors && p in n.directors;
      var castMember := exists p :: p in m.cast && p in n.cast;
      && (v.corroborated <==> oneKind && sharedId)
      && (v.merge && !v.corroborated <==>
            && oneKind && !sharedId && oneTitle && (a.kind == MOVIE ==> m.year == n.year > 0)
            && (director || castMember || m.language == n.language != "" || m.runtime == n.runtime > 0))
      && (v.merge && !v.corroborated ==>
            v.signal == if director then Director else if castMember then CastMember
                        else if m.language == n.language != "" then OriginalLanguage else Duration)
      && (v.corroborated ==> v.merge && v.signal == NoSignal)
      && (!v.merge ==> !v.corroborated && v.signal == NoSignal)
  {
    CorroborateMeaning(a.ids, b.ids);
    TitlesAgreeMeaning(o, a, b);
  }

  lemma CorroborateMeaning(xs: seq<ExternalId>, ys: seq<ExternalId>)
    ensures Corroborate(xs, ys) <==> exists x :: x in xs && x in ys && x.namespace != "" && x.value != ""
  {
    if Corroborate(xs, ys) {
      var x :| x in xs && x in ys && x.Asserted();
    }
    if x :| x in xs && x in ys && x.namespace != "" && x.value != "" {
      assert x.Asserted();
    }
  }

  lemma TitlesAgreeMeaning(o: Options, a: Item, b: Item)
    ensures o.TitlesAgree(a, b) <==>
      exists s, t :: Titled(a, s) && Titled(b, t) && o.normalize(s) == o.normalize(t) != ""
  {
    if s, t :| Titled(a, s) && Titled(b, t) && o.normalize(s) == o.normalize(t) != "" {
      assert o.TitleEq(s, t);
    }
  }

  /** In particular no two movies of different or unknown years merge without an
      id both assert, and nothing merges across kinds. */
  lemma MergeKeepsYearAndKind(o: Options, a: Item, b: Item)
    requires o.Decide(a, b).merge
    ensures a.kind == b.kind != UNSPECIFIED
    ensures a.kind == MOVIE && !o.Decide(a, b).corroborated ==> a.metadata.year == b.metadata.year > 0
  {
    DecideMeaning(o, a, b);
  }

  /** The order in which two items are compared never matters. */
  lemma DecideSymmetric(o: Options, a: Item, b: Item)
    ensures o.Decide(a, b) == o.Decide(b, a)
  {
    assert Corroborate(a.ids, b.ids) == Corroborate(b.ids, a.ids);
    assert o.TitlesAgree(a, b) == o.TitlesAgree(b, a);
    assert SharesAny(a.metadata.directors, b.metadata.directors) == SharesAny(b.metadata.directors, a.metadata.directors);
    assert SharesAny(a.metadata.cast, b.metadata.cast) == SharesAny(b.metadata.cast, a.metadata.cast);
  }

  /** A heuristic survivor of the merge rule is exactly one the summary gates
      keep, unless the two sides assert contradicting ids: screening first can
      lose a heuristic match only to a contradiction. */
  lemma ScreeningKeepsHeuristicMatches(o: Options, entry: Item, c: Item)
    requires o.Decide(entry, c).merge && !o.Decide(entry, c).corroborated
    ensures o.Screened(entry, c) <==> !Contradicts(entry.ids, c.ids)
    ensures o.Decide(entry, c).signal != NoSignal
  {
  }

  /** What the gates ask of a lookup summary, in its own fields. */
  lemma ScreenedMeaning(o: Options, entry: Item, c: Item)
    ensures o.Screened(entry, c) <==>
      && entry.kind == c.kind != UNSPECIFIED
      && (exists s, t :: Titled(entry, s) && Titled(c, t) && o.normalize(s) == o.normalize(t) != "")
      && (entry.kind == MOVIE ==> entry.metadata.year == c.metadata.year > 0)
      && (forall x, y :: x in entry.ids && y in c.ids && x.namespace == y.namespace != "" && x.value != "" && y.value != "" ==>
            x.value == y.value)
  {
    TitlesAgreeMeaning(o, entry, c);
    ContradictsMeaning(entry.ids, c.ids);
  }

  lemma ContradictsMeaning(xs: seq<ExternalId>, ys: seq<ExternalId>)
    ensures !Contradicts(xs, ys) <==>
      forall x, y :: x in xs && y in ys && x.namespace == y.namespace != "" && x.value != "" && y.value != "" ==> x.value == y.value
  {
    if Contradicts(xs, ys) {
      var x, y :| x in xs && y in ys && x.Asserted() && y.Asserted() && x.namespace == y.namespace && x.value != y.value;
    }
    forall x, y | !Contradicts(xs, ys) && x in xs && y in ys && x.namespace == y.namespace != "" && x.value != "" && y.value != ""
      ensures x.value == y.value
    {
      assert x.Asserted() && y.Asserted();
    }
  }

  method Screen(o: Options, entry: Item, candidates: seq<Item>) returns (kept: seq<nat>)
    ensures forall k :: 0 <= k < |kept| ==> kept[k] < |candidates|
    ensures forall i, j :: 0 <= i < j < |kept| ==> kept[i] < kept[j]
    ensures forall i :: 0 <= i < |candidates| ==> (i in kept <==> o.Screened(entry, candidates[i]))
    ensures forall i :: i in kept ==> candidates[i].kind == entry.kind != UNSPECIFIED
    ensures forall i :: i in kept && entry.kind == MOVIE ==> candidates[i].metadata.year == entry.metadata.year > 0
  {
    forall c {:trigger o.Screened(entry, c)} | o.Screened(entry, c)
      ensures c.kind == entry.kind != UNSPECIFIED && (entry.kind == MOVIE ==> c.metadata.year == entry.metadata.year > 0)
    {
      ScreenedMeaning(o, entry, c);
    }
    kept := [];
    for i := 0 to |candidates|
      invariant forall k :: 0 <= k < |kept| ==> kept[k] < i
      invariant forall k, l :: 0 <= k < l < |kept| ==> kept[k] < kept[l]
      invariant forall k :: 0 <= k < i ==> (k in kept <==> o.Screened(entry, candidates[k]))
    {
      if o.Screened(entry, candidates[i]) {
        kept := kept + [i];
      }
    }
  }

  // --- adopting one candidate

  predicate Corroborated(o: Options, entry: Item, candidates: seq<Item>, i: int)
  {
    0 <= i < |candidates| && o.Decide(entry, candidates[i]).corroborated
  }

  predicate Merges(o: Options, entry: Item, candidates: seq<Item>, i: int)
  {
    0 <= i < |candidates| && o.Decide(entry, candidates[i]).merge
  }

  /** Candidate i is the only id-corroborated one, or none is corroborated and
      it is the only one that merges. */
  ghost predicate Unambiguous(o: Options, entry: Item, candidates: seq<Item>, i: int)
  {
    if Corroborated(o, entry, candidates, i) then
      forall j :: Corroborated(o, entry, candidates, j) ==> j == i
    else
      && Merges(o, entry, candidates, i)
      && (forall j :: !Corroborated(o, entry, candidates, j))
      && (forall j :: Merges(o, entry, candidates, j) ==> j == i)
  }

  method Select(o: Options, entry: Item, candidates: seq<Item>) returns (verdicts: seq<Verdict>)
    ensures |verdicts| == |candidates|
    ensures forall i :: 0 <= i < |candidates| ==> verdicts[i] == o.Decide(entry, candidates[i])
  {
    verdicts := [];
    for i := 0 to |candidates|
      invariant |verdicts| == i
      invariant forall k :: 0 <= k < i ==> verdicts[k] == o.Decide(entry, candidates[k])
    {
      verdicts := verdicts + [o.Decide(entry, candidates[i])];
    }
  }

  /** Adopts the unambiguous candidate and abstains exactly when there is none. */
  method Adopt(o: Options, entry: Item, candidates: seq<Item>) returns (picked: int, ok: bool)
    ensures ok ==> forall i :: Unambiguous(o, entry, candidates, i) <==> i == picked
    ensures !ok ==> picked == -1 && forall i :: !Unambiguous(o, entry, candidates, i)
  {
    var verdicts := Select(o, entry, candidates);
    var corroborated := -1;
    for i := 0 to |verdicts|
      invariant corroborated == -1 || Corroborated(o, entry, candidates, corroborated)
      invariant forall k :: k < i && Corroborated(o, entry, candidates, k) ==> k == corroborated
      invariant corroborated < i
    {
      if verdicts[i].corroborated {
        if corroborated != -1 {
          assert Corroborated(o, entry, candidates, i);
          forall k ensures !Unambiguous(o, entry, candidates, k) {
            if k == i {
              assert Corroborated(o, entry, candidates, corroborated);
            }
          }
          return -1, false;
        }
        corroborated := i;
      }
    }
    if corroborated != -1 {
      return corroborated, true;
    }
    var survivor := -1;
    for i := 0 to |verdicts|
      invariant survivor == -1 || Merges(o, entry, candidates, survivor)
      invariant forall k :: k < i && Merges(o, entry, candidates, k) ==> k == survivor
      invariant survivor < i
    {
      if verdicts[i].merge {
        if survivor != -1 {
          assert Merges(o, entry, candidates, i);
          return -1, false;
        }
        survivor := i;
      }
    }
    if survivor == -1 {
      return -1, false;
    }
    return survivor, true;
  }

  /** `order` lists every index of a list of length n exactly once. */
  ghost predicate IsPermutation(order: seq<nat>, n: nat)
  {
    && |order| == n
    && (forall k :: 0 <= k < n ==> order[k] < n)
    && (forall i, j :: 0 <= i < j < n ==> order[i] != order[j])
    && (forall i :: 0 <= i < n ==> i in order)
  }

  /** Rearranging the candidates rearranges the answer with them: the order in
      which a catalogue lists its candidates decides nothing. */
  lemma AdoptEquivariant(o: Options, entry: Item, candidates: seq<Item>, order: seq<nat>, shuffled: seq<Item>, k: nat)
    requires IsPermutation(order, |candidates|) && |shuffled| == |candidates|
    requires forall i :: 0 <= i < |shuffled| ==> shuffled[i] == candidates[order[i]]
    requires k < |shuffled|
    ensures Unambiguous(o, entry, shuffled, k) <==> Unambiguous(o, entry, candidates, order[k])
  {
    forall i | 0 <= i < |shuffled|
      ensures Corroborated(o, entry, shuffled, i) == Corroborated(o, entry, candidates, order[i])
      ensures Merges(o, entry, shuffled, i) == Merges(o, entry, candidates, order[i])
    {
    }
    if Unambiguous(o, entry, shuffled, k) {
      forall j | Corroborated(o, entry, candidates, j) ensures exists i :: Corroborated(o, entry, shuffled, i) && order[i] == j {
        assert j in order;
        var i :| 0 <= i < |order| && order[i] == j;
        assert Corroborated(o, entry, shuffled, i);
      }
      forall j | Merges(o, entry, candidates, j) ensures exists i :: Merges(o, entry, shuffled, i) && order[i] == j {
        assert j in order;
        var i :| 0 <= i < |order| && order[i] == j;
        assert Merges(o, entry, shuffled, i);
      }
    }
  }

  // --- identity proofs

  datatype Proof = Proof(kind: int, title: string, year: nat, ids: seq<ExternalId>)

  function ProofOf(item: Item): Proof
  {
    Proof(item.kind, item.metadata.title, item.metadata.year, item.ids)
  }

  /** The comparison key of an assertion: namespace, NUL, value. */
  function IdKey(id: ExternalId): string
  {
    id.namespace + "\0" + id.value
  }

  function IdKeys(ids: seq<ExternalId>): seq<string>
  {
    if ids == [] then []
    else if ids[|ids| - 1].Asserted() then IdKeys(ids[..|ids| - 1]) + [IdKey(ids[|ids| - 1])]
    else IdKeys(ids[..|ids| - 1])
  }

  /** The same asserted ids, order ignored and repetitions counted. */
  predicate SameIds(xs: seq<ExternalId>, ys: seq<ExternalId>)
  {
    multiset(IdKeys(xs)) == multiset(IdKeys(ys))
  }

  method CollectKeys(ids: seq<ExternalId>) returns (keys: seq<string>)
    ensures keys == IdKeys(ids)
  {
    keys := [];
    for i := 0 to |ids|
      invariant keys == IdKeys(ids[..i])
    {
      assert ids[..i + 1][..i] == ids[..i];
      if ids[i].Asserted() {
        keys := keys + [IdKey(ids[i])];
      }
    }
    assert ids[..|ids|] == ids;
  }

  method EqualLists(a: seq<string>, b: seq<string>) returns (same: bool)
    ensures same <==> a == b
  {
    if |a| != |b| {
      return false;
    }
    for i := 0 to |a|
      invariant a[..i] == b[..i]
    {
      if a[i] != b[i] {
        return false;
      }
    }
    return true;
  }

  /** Sorting both key lists and comparing them position by position decides
      equality of the two multisets of assertions. */
  method SameIdSet(xs: seq<ExternalId>, ys: seq<ExternalId>) returns (same: bool)
    ensures same <==> SameIds(xs, ys)
  {
    var xKeys := CollectKeys(xs);
    var yKeys := CollectKeys(ys);
    same := EqualLists(Sort(xKeys), Sort(yKeys));
    SortDecides(xKeys, yKeys);
  }

  lemma {:induction false} CountKeys(ids: seq<ExternalId>, x: ExternalId)
    requires x.Asserted() && '\0' !in x.namespace && forall y :: y in ids ==> '\0' !in y.namespace
    ensures multiset(IdKeys(ids))[IdKey(x)] == multiset(ids)[x]
  {
    if ids != [] {
      var front, last := ids[..|ids| - 1], ids[|ids| - 1];
      assert ids == front + [last];
      CountKeys(front, x);
      if IdKey(last) == IdKey(x) {
        IdKeyInjective(last, x);
      }
    }
  }

  /** Two proofs are the same exactly when kind, normalized title and year are and
      every id with both parts is asserted equally often; namespaces have no NUL. */
  lemma SameProofMeaning(o: Options, a: Proof, b: Proof)
    requires forall x :: x in a.ids || x in b.ids ==> '\0' !in x.namespace
    ensures o.SameProof(a, b) <==>
      && a.kind == b.kind && a.year == b.year && o.normalize(a.title) == o.normalize(b.title)
      && forall x: ExternalId :: x.namespace != "" && x.value != "" ==> multiset(a.ids)[x] == multiset(b.ids)[x]
  {
    SameIdsMeaning(a.ids, b.ids);
  }

  lemma SameIdsMeaning(xs: seq<ExternalId>, ys: seq<ExternalId>)
    requires forall x :: x in xs || x in ys ==> '\0' !in x.namespace
    ensures SameIds(xs, ys) <==>
      forall x: ExternalId :: x.namespace != "" && x.value != "" ==> multiset(xs)[x] == multiset(ys)[x]
  {
    if SameIds(xs, ys) {
      forall x: ExternalId | x.namespace != "" && x.value != "" ensures multiset(xs)[x] == multiset(ys)[x] {
        SameCount(xs, ys, x);
      }
    }
    if forall x: ExternalId :: x.namespace != "" && x.value != "" ==> multiset(xs)[x] == multiset(ys)[x] {
      forall key ensures multiset(IdKeys(xs))[key] == multiset(IdKeys(ys))[key] {
        SameKeyCount(xs, ys, key);
      }
    }
  }

  lemma SameCount(xs: seq<ExternalId>, ys: seq<ExternalId>, x: ExternalId)
    requires SameIds(xs, ys) && x.Asserted() && forall y :: y in xs || y in ys ==> '\0' !in y.namespace
    ensures multiset(xs)[x] == multiset(ys)[x]
  {
    if x in xs || x in ys {
      CountKeys(xs, x);
      CountKeys(ys, x);
    }
  }

  lemma SameKeyCount(xs: seq<ExternalId>, ys: seq<ExternalId>, key: string)
    requires forall x :: x in xs || x in ys ==> '\0' !in x.namespace
    requires forall x: ExternalId :: x.namespace != "" && x.value != "" ==> multiset(xs)[x] == multiset(ys)[x]
    ensures multiset(IdKeys(xs))[key] == multiset(IdKeys(ys))[key]
  {
    KeysOf(xs, key);
    KeysOf(ys, key);
    if x :| (x in xs || x in ys) && x.Asserted() && IdKey(x) == key {
      CountKeys(xs, x);
      CountKeys(ys, x);
    }
  }

  lemma SameProofIsEquivalence(o: Options, a: Proof, b: Proof, c: Proof)
    ensures o.SameProof(a, a)
    ensures o.SameProof(a, b) ==> o.SameProof(b, a)
    ensures o.SameProof(a, b) && o.SameProof(b, c) ==> o.SameProof(a, c)
  {
  }

  /** The same assertions as a set: what ignoring duplicates would compare. */
  ghost predicate SameIdMembers(xs: seq<ExternalId>, ys: seq<ExternalId>)
  {
    SameMembers(IdKeys(xs), IdKeys(ys))
  }

  /** Equal proofs assert the same set of ids; and when one of two lists with
      the same set holds no repetition, the proofs are equal exactly when the
      other holds none either. */
  lemma SameIdsIff(xs: seq<ExternalId>, ys: seq<ExternalId>)
    ensures SameIds(xs, ys) ==> SameIdMembers(xs, ys)
    ensures NoDuplicates(IdKeys(xs)) && SameIdMembers(xs, ys) ==> (SameIds(xs, ys) <==> NoDuplicates(IdKeys(ys)))
  {
    SameMultisetSameMembers(IdKeys(xs), IdKeys(ys));
    if NoDuplicates(IdKeys(xs)) && SameIdMembers(xs, ys) {
      SameMultisetIff(IdKeys(xs), IdKeys(ys));
    }
  }

  /** In particular, without repetition on either side, equal proofs are exactly
      equal id sets. */
  lemma SameIdsAsSets(xs: seq<ExternalId>, ys: seq<ExternalId>)
    requires NoDuplicates(IdKeys(xs)) && NoDuplicates(IdKeys(ys))
    ensures SameIds(xs, ys) <==> SameIdMembers(xs, ys)
  {
    SameIdsIff(xs, ys);
  }

  /** Dropping repeated assertions leaves a list of the same set. */
  lemma {:induction false} Deduplicated(xs: seq<ExternalId>) returns (ys: seq<ExternalId>)
    ensures NoDuplicates(IdKeys(ys)) && SameIdMembers(xs, ys)
  {
    if xs == [] {
      return [];
    }
    var last := xs[|xs| - 1];
    ys := Deduplicated(xs[..|xs| - 1]);
    if last.Asserted() && IdKey(last) !in IdKeys(ys) {
      assert (ys + [last])[..|ys|] == ys;
      ys := ys + [last];
    }
  }

  /** Duplicates are ignored on a list, against every list without repetition,
      exactly when the list holds no repetition itself. */
  lemma DuplicatesIgnoredIff(xs: seq<ExternalId>)
    ensures (forall ys :: NoDuplicates(IdKeys(ys)) ==> (SameIds(xs, ys) <==> SameIdMembers(xs, ys)))
       <==> NoDuplicates(IdKeys(xs))
  {
    forall ys | NoDuplicates(IdKeys(ys)) && NoDuplicates(IdKeys(xs)) ensures SameIds(xs, ys) <==> SameIdMembers(xs, ys) {
      SameIdsIff(xs, ys);
    }
    var ys := Deduplicated(xs);
    SameIdsIff(ys, xs);
  }

  /** Appending ids changes the proof exactly when one of them is asserted, even
      when every one of them was there before. */
  lemma AppendedIdsChangeProof(ids: seq<ExternalId>, more: seq<ExternalId>)
    ensures SameIds(ids, ids + more) <==> forall x :: x in more ==> !x.Asserted()
    ensures (forall x :: x in more ==> x in ids) ==> SameIdMembers(ids, ids + more)
  {
    IdKeysConcat(ids, more);
    AssertedHasKey(more);
    assert multiset(IdKeys(ids) + IdKeys(more)) == multiset(IdKeys(ids)) + multiset(IdKeys(more));
    if IdKeys(more) != [] {
      assert IdKeys(more)[0] in multiset(IdKeys(more));
    }
    if forall x :: x in more ==> x in ids {
      forall key | key in IdKeys(more) ensures key in IdKeys(ids) {
        KeysOf(more, key);
        KeysOf(ids, key);
      }
    }
  }

  /** So repeating an asserted id always changes the proof, against the set. */
  lemma RepeatedIdChangesProof(ids: seq<ExternalId>, id: ExternalId)
    requires id in ids && id.Asserted()
    ensures !SameIds(ids, ids + [id]) && SameIdMembers(ids, ids + [id])
  {
    AppendedIdsChangeProof(ids, [id]);
    assert id in [id];
  }

  lemma {:induction false} IdKeysConcat(a: seq<ExternalId>, b: seq<ExternalId>)
    ensures IdKeys(a + b) == IdKeys(a) + IdKeys(b)
  {
    if b == [] {
      assert a + b == a;
    } else {
      assert (a + b)[..|a + b| - 1] == a + b[..|b| - 1];
      IdKeysConcat(a, b[..|b| - 1]);
    }
  }

  lemma {:induction false} AssertedHasKey(ids: seq<ExternalId>)
    ensures IdKeys(ids) == [] <==> forall x :: x in ids ==> !x.Asserted()
  {
    if ids != [] {
      AssertedHasKey(ids[..|ids| - 1]);
      assert ids == ids[..|ids| - 1] + [ids[|ids| - 1]];
    }
  }

  lemma {:induction false} KeysOf(ids: seq<ExternalId>, key: string)
    ensures key in IdKeys(ids) <==> exists x :: x in ids && x.Asserted() && IdKey(x) == key
  {
    if ids != [] {
      KeysOf(ids[..|ids| - 1], key);
      assert ids == ids[..|ids| - 1] + [ids[|ids| - 1]];
    }
  }

  /** Comparison keys separate assertions whose namespaces carry no NUL... */
  lemma IdKeyInjective(a: ExternalId, b: ExternalId)
    requires '\0' !in a.namespace && '\0' !in b.namespace
    requires IdKey(a) == IdKey(b)
    ensures a == b
  {
    NulPosition(a);
    NulPosition(b);
    assert a.namespace == IdKey(a)[..|a.namespace|] && b.namespace == IdKey(b)[..|b.namespace|];
    assert a.value == IdKey(a)[|a.namespace| + 1..] && b.value == IdKey(b)[|b.namespace| + 1..];
  }

  function FirstNul(s: string): nat
  {
    if s == [] || s[0] == '\0' then 0 else 1 + FirstNul(s[1..])
  }

  lemma FirstNulOf(head: string, tail: string)
    requires '\0' !in head && tail != [] && tail[0] == '\0'
    ensures FirstNul(head + tail) == |head|
  {
    if head == [] {
      assert head + tail == tail;
    } else {
      assert (head + tail)[1..] == head[1..] + tail;
      FirstNulOf(head[1..], tail);
    }
  }

  lemma NulPosition(id: ExternalId)
    requires '\0' !in id.namespace
    ensures FirstNul(IdKey(id)) == |id.namespace|
  {
    FirstNulOf(id.namespace, "\0" + id.value);
    assert IdKey(id) == id.namespace + ("\0" + id.value);
  }

  /** ...and can confuse two different assertions otherwise. */
  lemma IdKeyCollision(a: string, b: string, c: string)
    requires a != "" && b != "" && c != ""
    ensures
      var x, y := ExternalId(a, b + "\0" + c), ExternalId(a + "\0" + b, c);
      x.Asserted() && y.Asserted() && x != y && IdKey(x) == IdKey(y)
  {
    var x, y := ExternalId(a, b + "\0" + c), ExternalId(a + "\0" + b, c);
    assert IdKey(x) == IdKey(y);
    assert |x.namespace| < |y.namespace|;
  }
}
