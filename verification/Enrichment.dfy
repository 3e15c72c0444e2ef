/** Per-field metadata merging with provenance: catalogue data is preferred,
    the first claimant at the better tier owns a field, owners refresh. */
module Enrichment {
  import opened Optional
  import opened Strings

  datatype Tier = Provider | Catalogue

  /** The kind-specific part; only one of the two can be present. */
  datatype Specific = Unspecific | Movie(runtime: nat) | Series(seasons: nat, episodes: nat)

  datatype Source = Source(owner: string, fetchedAt: int)

  datatype Title = Title(
    title: string,
    year: nat,
    description: string,
    posterUrl: string,
    rating: real,
    contentRating: string,
    genres: seq<string>,
    language: string,
    cast: seq<string>,
    directors: seq<string>,
    specific: Specific,
    extra: map<string, string>,
    source: map<string, Source>)
  {
    function Runtime(): nat { if specific.Movie? then specific.runtime else 0 }
    function Seasons(): nat { if specific.Series? then specific.seasons else 0 }
    function Episodes(): nat { if specific.Series? then specific.episodes else 0 }
  }

  datatype Contribution = Contribution(slot: string, tier: Tier, metadata: Option<Title>)
  {
    function Owner(): string
    {
      (if tier == Catalogue then "catalogue" else "provider") + ":" + slot
    }

    predicate Valid() { !Blank(slot) && metadata.Some? }
  }

  predicate Blank(s: string)
  {
    forall i :: 0 <= i < |s| ==> s[i] in " \t\n\r\U{0B}\U{0C}"
  }

  // --- paths

  datatype Field =
    | BaseTitle | Year | Description | PosterUrl | Rating | ContentRating | Genres
    | Language | Cast | Directors | RuntimeMinutes | TotalSeasons | TotalEpisodes

  const FIELDS := [BaseTitle, Year, Description, PosterUrl, Rating, ContentRating, Genres,
    Language, Cast, Directors, RuntimeMinutes, TotalSeasons, TotalEpisodes]

  datatype Path = Typed(field: Field) | Extra(key: string)

  datatype Value = Text(text: string) | Number(number: nat) | Score(score: real) | Names(names: seq<string>)

  function Name(p: Path): string
  {
    match p
    case Typed(f) => (
      match f
      case BaseTitle => "base.title"
      case Year => "base.year"
      case Description => "base.description"
      case PosterUrl => "base.poster_url"
      case Rating => "base.rating"
      case ContentRating => "base.content_rating"
      case Genres => "base.genres"
      case Language => "base.original_language"
      case Cast => "base.cast"
      case Directors => "base.directors"
      case RuntimeMinutes => "movie.runtime_minutes"
      case TotalSeasons => "series.total_seasons"
      case TotalEpisodes => "series.total_episodes")
    case Extra(key) => "extra." + key
  }

  /** A digest that separates the typed names: their length and two chars. */
  function Digest(s: string): (int, char, char)
  {
    (|s|, if s == "" then ' ' else s[0], if |s| > 5 then s[5] else ' ')
  }

  lemma NameInjective(p: Path, q: Path)
    requires Name(p) == Name(q)
    ensures p == q
  {
    if p.Extra? && q.Extra? {
      assert p.key == Name(p)[6..] && q.key == Name(q)[6..];
    } else if p.Typed? && q.Typed? {
      TypedNamesDiffer(p.field, q.field);
    } else {
      NameMark(p);
      NameMark(q);
    }
  }

  lemma NameMark(p: Path)
    ensures |Name(p)| > 1 && (Name(p)[1] == 'x' <==> p.Extra?)
  {
  }

  lemma TypedNamesDiffer(f: Field, g: Field)
    requires Name(Typed(f)) == Name(Typed(g))
    ensures f == g
  {
    assert Digest(Name(Typed(f))) == Digest(Name(Typed(g)));
  }

  /** What a record holds at a path; zero values are absent, but an extra key
      is present whatever its value. */
  function Get(m: Title, p: Path): Option<Value>
  {
    match p
    case Extra(key) => if key in m.extra then Some(Text(m.extra[key])) else None
    case Typed(f) =>
      match f
      case BaseTitle => TextAt(m.title)
      case Year => NumberAt(m.year)
      case Description => TextAt(m.description)
      case PosterUrl => TextAt(m.posterUrl)
      case Rating => if m.rating != 0.0 then Some(Score(m.rating)) else None
      case ContentRating => TextAt(m.contentRating)
      case Genres => NamesAt(m.genres)
      case Language => TextAt(m.language)
      case Cast => NamesAt(m.cast)
      case Directors => NamesAt(m.directors)
      case RuntimeMinutes => NumberAt(m.Runtime())
      case TotalSeasons => NumberAt(m.Seasons())
      case TotalEpisodes => NumberAt(m.Episodes())
  }

  function TextAt(s: string): Option<Value> { if s != "" then Some(Text(s)) else None }
  function NumberAt(n: nat): Option<Value> { if n != 0 then Some(Number(n)) else None }
  function NamesAt(s: seq<string>): Option<Value> { if s != [] then Some(Names(s)) else None }

  /** Copies one field's value; the series halves preserve each other. */
  function Write(dst: Title, f: Field, src: Title): Title
  {
    match f
    case BaseTitle => dst.(title := src.title)
    case Year => dst.(year := src.year)
    case Description => dst.(description := src.description)
    case PosterUrl => dst.(posterUrl := src.posterUrl)
    case Rating => dst.(rating := src.rating)
    case ContentRating => dst.(contentRating := src.contentRating)
    case Genres => dst.(genres := src.genres)
    case Language => dst.(language := src.language)
    case Cast => dst.(cast := src.cast)
    case Directors => dst.(directors := src.directors)
    case RuntimeMinutes => dst.(specific := Movie(src.Runtime()))
    case TotalSeasons => dst.(specific := Series(src.Seasons(), dst.Episodes()))
    case TotalEpisodes => dst.(specific := Series(dst.Seasons(), src.Episodes()))
  }

  function Stamp(m: Title, p: Path, c: Contribution, now: int): Title
  {
    m.(source := m.source[Name(p) := Source(c.Owner(), now)])
  }

  function OwnerAt(m: Title, p: Path): Option<Source>
  {
    if Name(p) in m.source then Some(m.source[Name(p)]) else None
  }

  // --- ownership

  /** May the contribution write a path with this provenance? */
  predicate TakesOver(owner: Option<Source>, c: Contribution)
  {
    || owner.None? || owner.value.owner == ""
    || owner.value.owner == c.Owner()
    || (c.tier == Catalogue && "provider:" <= owner.value.owner)
  }

  lemma OwnerNames(a: Contribution, b: Contribution)
    ensures a.Owner() != ""
    ensures "provider:" <= a.Owner() <==> a.tier == Provider
    ensures a.Owner() == b.Owner() <==> a.tier == b.tier && a.slot == b.slot
  {
    assert a.tier == Provider ==> a.Owner() == "provider:" + a.slot && a.Owner()[9..] == a.slot;
    assert b.tier == Provider ==> b.Owner() == "provider:" + b.slot && b.Owner()[9..] == b.slot;
    assert a.tier == Catalogue ==> a.Owner() == "catalogue:" + a.slot && a.Owner()[10..] == a.slot;
    assert b.tier == Catalogue ==> b.Owner() == "catalogue:" + b.slot && b.Owner()[10..] == b.slot;
    assert a.Owner()[0] == if a.tier == Provider then 'p' else 'c';
    assert b.Owner()[0] == if b.tier == Provider then 'p' else 'c';
  }

  predicate Claims(c: Contribution, p: Path)
  {
    c.metadata.Some? && Get(c.metadata.value, p).Some?
  }

  predicate Takes(cur: Title, c: Contribution, p: Path)
  {
    Claims(c, p) && TakesOver(OwnerAt(cur, p), c)
  }

  // --- merging one contribution

  function MergeField(dst: Title, f: Field, c: Contribution, now: int): Title
    requires c.metadata.Some?
  {
    if Takes(dst, c, Typed(f)) then Stamp(Write(dst, f, c.metadata.value), Typed(f), c, now) else dst
  }

  function MergeFields(dst: Title, fields: seq<Field>, c: Contribution, now: int): Title
    requires c.metadata.Some?
  {
    if fields == [] then dst
    else MergeField(MergeFields(dst, fields[..|fields| - 1], c, now), fields[|fields| - 1], c, now)
  }

  function MergeExtra(dst: Title, key: string, c: Contribution, now: int): Title
    requires Claims(c, Extra(key))
  {
    if Takes(dst, c, Extra(key))
    then Stamp(dst.(extra := dst.extra[key := c.metadata.value.extra[key]]), Extra(key), c, now) else dst
  }

  /** How the merged record relates to the two it came from, path by path. */
  ghost predicate Follows(cur: Title, out: Title, c: Contribution, now: int, p: Path)
    requires c.metadata.Some?
  {
    if Takes(cur, c, p) then Get(out, p) == Get(c.metadata.value, p) && OwnerAt(out, p) == Some(Source(c.Owner(), now))
    else Get(out, p) == Get(cur, p) && OwnerAt(out, p) == OwnerAt(cur, p)
  }

  ghost predicate SameAt(a: Title, b: Title, p: Path)
  {
    Get(a, p) == Get(b, p) && OwnerAt(a, p) == OwnerAt(b, p)
  }

  /** Writing one of the two kinds would wipe a value of the other. */
  predicate Clash(cur: Title, c: Contribution)
  {
    || (Takes(cur, c, Typed(RuntimeMinutes)) && (cur.Seasons() != 0 || cur.Episodes() != 0))
    || ((Takes(cur, c, Typed(TotalSeasons)) || Takes(cur, c, Typed(TotalEpisodes))) && cur.Runtime() != 0)
  }

  lemma StampAt(m: Title, p: Path, q: Path, c: Contribution, now: int)
    ensures Get(Stamp(m, p, c, now), q) == Get(m, q)
    ensures OwnerAt(Stamp(m, p, c, now), q) == if p == q then Some(Source(c.Owner(), now)) else OwnerAt(m, q)
  {
    if p != q && Name(p) == Name(q) {
      NameInjective(p, q);
    }
  }

  predicate OfKind(f: Field) { f in {RuntimeMinutes, TotalSeasons, TotalEpisodes} }

  lemma WriteBaseAt(dst: Title, f: Field, src: Title, p: Path)
    requires !OfKind(f)
    ensures Get(Write(dst, f, src), p) == Get(if p == Typed(f) then src else dst, p)
  {
  }

  lemma WriteKindAt(dst: Title, f: Field, src: Title, p: Path)
    requires OfKind(f)
    requires f == RuntimeMinutes ==> dst.Seasons() == 0 && dst.Episodes() == 0
    requires f != RuntimeMinutes ==> dst.Runtime() == 0
    ensures Get(Write(dst, f, src), p) == Get(if p == Typed(f) then src else dst, p)
  {
  }

  /** Writing a field changes that field alone, unless it switches the kind. */
  lemma WriteAt(dst: Title, f: Field, src: Title, p: Path)
    requires f == RuntimeMinutes ==> dst.Seasons() == 0 && dst.Episodes() == 0
    requires f == TotalSeasons || f == TotalEpisodes ==> dst.Runtime() == 0
    ensures Get(Write(dst, f, src), p) == Get(if p == Typed(f) then src else dst, p)
    ensures OwnerAt(Write(dst, f, src), p) == OwnerAt(dst, p)
  {
    if OfKind(f) {
      WriteKindAt(dst, f, src, p);
    } else {
      WriteBaseAt(dst, f, src, p);
    }
  }

  /** What the fields merged so far may have done to the kind. */
  ghost predicate KindTracked(cur: Title, dst: Title, c: Contribution)
    requires c.metadata.Some?
  {
    && (dst.Runtime() != 0 ==> cur.Runtime() != 0 || Takes(cur, c, Typed(RuntimeMinutes)))
    && (dst.Seasons() != 0 || dst.Episodes() != 0 ==>
          cur.Seasons() != 0 || cur.Episodes() != 0
          || Takes(cur, c, Typed(TotalSeasons)) || Takes(cur, c, Typed(TotalEpisodes)))
  }

  lemma {:induction false} MergeFieldsAt(cur: Title, n: nat, c: Contribution, now: int, p: Path)
    requires c.metadata.Some? && n <= |FIELDS| && !Clash(cur, c)
    ensures var out := MergeFields(cur, FIELDS[..n], c, now);
      && KindTracked(cur, out, c)
      && if p.Typed? && p.field in FIELDS[..n] then Follows(cur, out, c, now, p) else SameAt(cur, out, p)
  {
    if n > 0 {
      var f := FIELDS[n - 1];
      assert FIELDS[..n][..n - 1] == FIELDS[..n - 1];
      assert FIELDS[..n] == FIELDS[..n - 1] + [f];
      assert f !in FIELDS[..n - 1] by { FieldsDistinct(n - 1); }
      MergeFieldsAt(cur, n - 1, c, now, p);
      MergeFieldsAt(cur, n - 1, c, now, Typed(f));
      OneMoreFieldAt(cur, MergeFields(cur, FIELDS[..n - 1], c, now), FIELDS[..n - 1], f, c, now, p);
    }
  }

  lemma OneMoreFieldAt(cur: Title, dst: Title, done: seq<Field>, f: Field, c: Contribution, now: int, p: Path)
    requires c.metadata.Some? && !Clash(cur, c) && KindTracked(cur, dst, c) && SameAt(cur, dst, Typed(f)) && f !in done
    requires if p.Typed? && p.field in done then Follows(cur, dst, c, now, p) else SameAt(cur, dst, p)
    ensures var out := MergeField(dst, f, c, now);
      && KindTracked(cur, out, c)
      && if p.Typed? && p.field in done + [f] then Follows(cur, out, c, now, p) else SameAt(cur, out, p)
  {
    assert Takes(dst, c, Typed(f)) == Takes(cur, c, Typed(f));
    MergeFieldAt(cur, dst, f, c, now, p);
  }

  predicate KindPath(p: Path) { p.Typed? && OfKind(p.field) }

  /** Outside the kind's own paths even a switch of kind changes nothing. */
  lemma {:induction false} MergeBaseAt(cur: Title, n: nat, c: Contribution, now: int, p: Path)
    requires c.metadata.Some? && n <= |FIELDS| && !KindPath(p)
    ensures var out := MergeFields(cur, FIELDS[..n], c, now);
      if p.Typed? && p.field in FIELDS[..n] then Follows(cur, out, c, now, p) else SameAt(cur, out, p)
  {
    if n > 0 {
      var f := FIELDS[n - 1];
      assert FIELDS[..n][..n - 1] == FIELDS[..n - 1];
      assert FIELDS[..n] == FIELDS[..n - 1] + [f];
      assert f !in FIELDS[..n - 1] by { FieldsDistinct(n - 1); }
      var dst := MergeFields(cur, FIELDS[..n - 1], c, now);
      MergeBaseAt(cur, n - 1, c, now, p);
      MergeFieldBaseAt(dst, f, c, now, p);
      if p == Typed(f) {
        assert Takes(dst, c, p) == Takes(cur, c, p);
      }
    }
  }

  lemma MergeFieldBaseAt(dst: Title, f: Field, c: Contribution, now: int, p: Path)
    requires c.metadata.Some? && !KindPath(p)
    ensures var out := MergeField(dst, f, c, now);
      if p == Typed(f) then Follows(dst, out, c, now, p) else SameAt(dst, out, p)
  {
    if Takes(dst, c, Typed(f)) {
      WriteElsewhere(dst, f, c.metadata.value, p);
      StampAt(Write(dst, f, c.metadata.value), Typed(f), p, c, now);
    }
  }

  lemma WriteElsewhere(dst: Title, f: Field, src: Title, p: Path)
    requires !KindPath(p)
    ensures Get(Write(dst, f, src), p) == Get(if p == Typed(f) then src else dst, p)
    ensures OwnerAt(Write(dst, f, src), p) == OwnerAt(dst, p)
  {
  }

  lemma FieldsDistinct(n: nat)
    requires n < |FIELDS|
    ensures FIELDS[n] !in FIELDS[..n]
  {
    forall i | 0 <= i < n ensures FIELDS[i] != FIELDS[n] {
    }
  }

  lemma OneKindInContribution(c: Contribution)
    requires c.metadata.Some?
    ensures Claims(c, Typed(RuntimeMinutes)) ==> !Claims(c, Typed(TotalSeasons)) && !Claims(c, Typed(TotalEpisodes))
  {
  }

  lemma MergeFieldAt(cur: Title, dst: Title, f: Field, c: Contribution, now: int, p: Path)
    requires c.metadata.Some? && !Clash(cur, c) && KindTracked(cur, dst, c)
    requires Takes(dst, c, Typed(f)) == Takes(cur, c, Typed(f))
    requires SameAt(cur, dst, Typed(f))
    ensures var out := MergeField(dst, f, c, now);
      && KindTracked(cur, out, c)
      && if p == Typed(f) then Follows(cur, out, c, now, p) else SameAt(dst, out, p)
  {
    if Takes(dst, c, Typed(f)) {
      OneKindInContribution(c);
      WriteAt(dst, f, c.metadata.value, p);
      StampAt(Write(dst, f, c.metadata.value), Typed(f), p, c, now);
    }
  }

  function MergeExtras(dst: Title, keys: seq<string>, c: Contribution, now: int): Title
    requires forall i :: 0 <= i < |keys| ==> Claims(c, Extra(keys[i]))
  {
    if keys == [] then dst
    else MergeExtra(MergeExtras(dst, keys[..|keys| - 1], c, now), keys[|keys| - 1], c, now)
  }

  lemma MergeExtraAt(dst: Title, key: string, c: Contribution, now: int, p: Path)
    requires Claims(c, Extra(key))
    ensures var out := MergeExtra(dst, key, c, now);
      if p == Extra(key) then Follows(dst, out, c, now, p) else SameAt(dst, out, p)
  {
    if Takes(dst, c, Extra(key)) {
      StampAt(dst.(extra := dst.extra[key := c.metadata.value.extra[key]]), Extra(key), p, c, now);
    }
  }

  lemma {:induction false} MergeExtrasAt(cur: Title, keys: seq<string>, c: Contribution, now: int, p: Path)
    requires forall i :: 0 <= i < |keys| ==> Claims(c, Extra(keys[i]))
    ensures var out := MergeExtras(cur, keys, c, now);
      if p.Extra? && p.key in keys then Follows(cur, out, c, now, p) else SameAt(cur, out, p)
  {
    if keys != [] {
      var front, key := keys[..|keys| - 1], keys[|keys| - 1];
      assert keys == front + [key];
      MergeExtrasAt(cur, front, c, now, p);
      MergeExtraAt(MergeExtras(cur, front, c, now), key, c, now, p);
    }
  }

  // --- the whole merge

  ghost function ExtraKeys(c: Contribution): (keys: seq<string>)
    requires c.metadata.Some?
    ensures forall key :: key in keys <==> Claims(c, Extra(key))
  {
    Listing(c.metadata.value.extra.Keys)
  }

  /** Everything the first contribution populates is attributed to it. */
  function StampFields(m: Title, fields: seq<Field>, c: Contribution, now: int): Title
  {
    if fields == [] then m
    else
      var front, f := StampFields(m, fields[..|fields| - 1], c, now), fields[|fields| - 1];
      if Claims(c, Typed(f)) then Stamp(front, Typed(f), c, now) else front
  }

  function StampExtras(m: Title, keys: seq<string>, c: Contribution, now: int): Title
  {
    if keys == [] then m
    else Stamp(StampExtras(m, keys[..|keys| - 1], c, now), Extra(keys[|keys| - 1]), c, now)
  }

  /** The record after folding in one contribution. */
  ghost function Merge(current: Option<Title>, c: Contribution, now: int): Title
    requires c.metadata.Some?
  {
    match current
    case None => StampExtras(StampFields(c.metadata.value.(source := map[]), FIELDS, c, now), ExtraKeys(c), c, now)
    case Some(cur) => MergeExtras(MergeFields(cur, FIELDS, c, now), ExtraKeys(c), c, now)
  }

  /** A first contribution is copied whole and credited with all it populates. */
  method Found(src: Title, keys: seq<string>, c: Contribution, now: int) returns (out: Title)
    requires c.metadata == Some(src)
    ensures out == StampExtras(StampFields(src.(source := map[]), FIELDS, c, now), keys, c, now)
  {
    out := src.(source := map[]);
    for i := 0 to |FIELDS|
      invariant out == StampFields(src.(source := map[]), FIELDS[..i], c, now)
    {
      assert FIELDS[..i + 1][..i] == FIELDS[..i];
      if Get(src, Typed(FIELDS[i])).Some? {
        out := Stamp(out, Typed(FIELDS[i]), c, now);
      }
    }
    assert FIELDS[..|FIELDS|] == FIELDS;
    ghost var typed := out;
    for i := 0 to |keys|
      invariant out == StampExtras(typed, keys[..i], c, now)
    {
      assert keys[..i + 1][..i] == keys[..i];
      out := Stamp(out, Extra(keys[i]), c, now);
    }
    assert keys[..|keys|] == keys;
  }

  /** A later contribution writes only the paths it may take over. */
  method Update(cur: Title, src: Title, keys: seq<string>, c: Contribution, now: int) returns (out: Title)
    requires c.metadata == Some(src)
    requires forall i :: 0 <= i < |keys| ==> keys[i] in src.extra
    ensures out == MergeExtras(MergeFields(cur, FIELDS, c, now), keys, c, now)
  {
    out := cur;
    for i := 0 to |FIELDS|
      invariant out == MergeFields(cur, FIELDS[..i], c, now)
    {
      assert FIELDS[..i + 1][..i] == FIELDS[..i];
      if Get(src, Typed(FIELDS[i])).Some? && TakesOver(OwnerAt(out, Typed(FIELDS[i])), c) {
        out := Stamp(Write(out, FIELDS[i], src), Typed(FIELDS[i]), c, now);
      }
    }
    assert FIELDS[..|FIELDS|] == FIELDS;
    ghost var typed := out;
    for i := 0 to |keys|
      invariant out == MergeExtras(typed, keys[..i], c, now)
    {
      assert keys[..i + 1][..i] == keys[..i];
      if TakesOver(OwnerAt(out, Extra(keys[i])), c) {
        out := Stamp(out.(extra := out.extra[keys[i] := src.extra[keys[i]]]), Extra(keys[i]), c, now);
      }
    }
    assert keys[..|keys|] == keys;
  }

  // --- one merge, in the record's own fields

  const NOTHING := Title("", 0, "", "", 0.0, "", [], "", [], [], Unspecific, map[], map[])

  /** The contribution may write the path: nobody owns it, its own slot does, or a
      provider does and it is a catalogue's. */
  predicate Open(cur: Title, name: string, c: Contribution)
  {
    || name !in cur.source || cur.source[name].owner == ""
    || cur.source[name].owner == (if c.tier == Catalogue then "catalogue:" + c.slot else "provider:" + c.slot)
    || (c.tier == Catalogue && "provider:" <= cur.source[name].owner)
  }

  /** The value contributed and its credit when it is there and the path is open;
      otherwise the value and the credit the record had. */
  ghost predicate Merged<T>(cur: Title, out: Title, c: Contribution, now: int, name: string, there: bool, mine: T, theirs: T, result: T)
  {
    var owner := if c.tier == Catalogue then "catalogue:" + c.slot else "provider:" + c.slot;
    if there && Open(cur, name, c) then result == theirs && name in out.source && out.source[name] == Source(owner, now)
    else result == mine && (name in out.source <==> name in cur.source) && (name in out.source ==> out.source[name] == cur.source[name])
  }

  /** The ten fields every title has. */
  ghost predicate BaseMerged(cur: Title, out: Title, src: Title, c: Contribution, now: int)
  {
    TextsMerged(cur, out, src, c, now) && OthersMerged(cur, out, src, c, now)
  }

  ghost predicate TextsMerged(cur: Title, out: Title, src: Title, c: Contribution, now: int)
  {
    && Merged(cur, out, c, now, "base.title", src.title != "", cur.title, src.title, out.title)
    && Merged(cur, out, c, now, "base.description", src.description != "", cur.description, src.description, out.description)
    && Merged(cur, out, c, now, "base.poster_url", src.posterUrl != "", cur.posterUrl, src.posterUrl, out.posterUrl)
    && Merged(cur, out, c, now, "base.content_rating", src.contentRating != "", cur.contentRating, src.contentRating, out.contentRating)
    && Merged(cur, out, c, now, "base.original_language", src.language != "", cur.language, src.language, out.language)
  }

  ghost predicate OthersMerged(cur: Title, out: Title, src: Title, c: Contribution, now: int)
  {
    && Merged(cur, out, c, now, "base.year", src.year != 0, cur.year, src.year, out.year)
    && Merged(cur, out, c, now, "base.rating", src.rating != 0.0, cur.rating, src.rating, out.rating)
    && Merged(cur, out, c, now, "base.genres", src.genres != [], cur.genres, src.genres, out.genres)
    && Merged(cur, out, c, now, "base.cast", src.cast != [], cur.cast, src.cast, out.cast)
    && Merged(cur, out, c, now, "base.directors", src.directors != [], cur.directors, src.directors, out.directors)
  }

  function ExtraAt(m: Title, key: string): Option<string>
  {
    if key in m.extra then Some(m.extra[key]) else None
  }

  /** The extras, key by key; a key is there whatever its value. */
  ghost predicate ExtrasMerged(cur: Title, out: Title, src: Title, c: Contribution, now: int)
  {
    forall key :: Merged(cur, out, c, now, "extra." + key, key in src.extra, ExtraAt(cur, key), ExtraAt(src, key), ExtraAt(out, key))
  }

  /** A movie's runtime, a series' seasons and episodes; 0 when it is not one. */
  function RuntimeIn(s: Specific): nat { match s case Movie(n) => n case _ => 0 }
  function SeasonsIn(s: Specific): nat { match s case Series(n, _) => n case _ => 0 }
  function EpisodesIn(s: Specific): nat { match s case Series(_, n) => n case _ => 0 }

  /** Writing the one kind wipes what the record holds of the other. */
  predicate SwitchesKind(cur: Title, src: Title, c: Contribution)
  {
    var movie := RuntimeIn(src.specific) != 0 && Open(cur, "movie.runtime_minutes", c);
    var series := (SeasonsIn(src.specific) != 0 && Open(cur, "series.total_seasons", c))
      || (EpisodesIn(src.specific) != 0 && Open(cur, "series.total_episodes", c));
    || (movie && (SeasonsIn(cur.specific) != 0 || EpisodesIn(cur.specific) != 0))
    || (series && RuntimeIn(cur.specific) != 0)
  }

  ghost predicate KindMerged(cur: Title, out: Title, src: Title, c: Contribution, now: int)
  {
    var a, b, r := cur.specific, src.specific, out.specific;
    && Merged(cur, out, c, now, "movie.runtime_minutes", RuntimeIn(b) != 0, RuntimeIn(a), RuntimeIn(b), RuntimeIn(r))
    && Merged(cur, out, c, now, "series.total_seasons", SeasonsIn(b) != 0, SeasonsIn(a), SeasonsIn(b), SeasonsIn(r))
    && Merged(cur, out, c, now, "series.total_episodes", EpisodesIn(b) != 0, EpisodesIn(a), EpisodesIn(b), EpisodesIn(r))
  }

  /** The record and the credits at one path follow the ownership rule. */
  lemma CreditMeaning(cur: Title, out: Title, c: Contribution, now: int, p: Path)
    requires c.metadata.Some? && Follows(cur, out, c, now, p)
    ensures Merged(cur, out, c, now, Name(p), Claims(c, p),
                   Get(cur, p), Get(c.metadata.value, p), Get(out, p))
  {
    TakesMeaning(cur, c, p);
  }

  lemma TextMeaning(cur: Title, out: Title, c: Contribution, now: int, p: Path, mine: string, theirs: string, result: string)
    requires c.metadata.Some? && Follows(cur, out, c, now, p)
    requires Get(cur, p) == TextAt(mine) && Get(c.metadata.value, p) == TextAt(theirs) && Get(out, p) == TextAt(result)
    ensures Merged(cur, out, c, now, Name(p), theirs != "", mine, theirs, result)
  {
    CreditMeaning(cur, out, c, now, p);
  }

  lemma NumberMeaning(cur: Title, out: Title, c: Contribution, now: int, p: Path, mine: nat, theirs: nat, result: nat)
    requires c.metadata.Some? && Follows(cur, out, c, now, p)
    requires Get(cur, p) == NumberAt(mine) && Get(c.metadata.value, p) == NumberAt(theirs) && Get(out, p) == NumberAt(result)
    ensures Merged(cur, out, c, now, Name(p), theirs != 0, mine, theirs, result)
  {
    CreditMeaning(cur, out, c, now, p);
  }

  lemma NamesMeaning(cur: Title, out: Title, c: Contribution, now: int, p: Path, mine: seq<string>, theirs: seq<string>, result: seq<string>)
    requires c.metadata.Some? && Follows(cur, out, c, now, p)
    requires Get(cur, p) == NamesAt(mine) && Get(c.metadata.value, p) == NamesAt(theirs) && Get(out, p) == NamesAt(result)
    ensures Merged(cur, out, c, now, Name(p), theirs != [], mine, theirs, result)
  {
    CreditMeaning(cur, out, c, now, p);
  }

  lemma ScoreMeaning(cur: Title, out: Title, c: Contribution, now: int)
    requires c.metadata.Some? && Follows(cur, out, c, now, Typed(Rating))
    ensures Merged(cur, out, c, now, "base.rating", c.metadata.value.rating != 0.0, cur.rating, c.metadata.value.rating, out.rating)
  {
    CreditMeaning(cur, out, c, now, Typed(Rating));
  }

  lemma TextsMeaning(cur: Title, out: Title, c: Contribution, now: int)
    requires c.metadata.Some? && forall p :: !KindPath(p) ==> Follows(cur, out, c, now, p)
    ensures TextsMerged(cur, out, c.metadata.value, c, now)
  {
    var src := c.metadata.value;
    TextMeaning(cur, out, c, now, Typed(BaseTitle), cur.title, src.title, out.title);
    TextMeaning(cur, out, c, now, Typed(Description), cur.description, src.description, out.description);
    TextMeaning(cur, out, c, now, Typed(PosterUrl), cur.posterUrl, src.posterUrl, out.posterUrl);
    TextMeaning(cur, out, c, now, Typed(ContentRating), cur.contentRating, src.contentRating, out.contentRating);
    TextMeaning(cur, out, c, now, Typed(Language), cur.language, src.language, out.language);
  }

  lemma OthersMeaning(cur: Title, out: Title, c: Contribution, now: int)
    requires c.metadata.Some? && forall p :: !KindPath(p) ==> Follows(cur, out, c, now, p)
    ensures OthersMerged(cur, out, c.metadata.value, c, now)
  {
    var src := c.metadata.value;
    NumberMeaning(cur, out, c, now, Typed(Year), cur.year, src.year, out.year);
    ScoreMeaning(cur, out, c, now);
    NamesMeaning(cur, out, c, now, Typed(Genres), cur.genres, src.genres, out.genres);
    NamesMeaning(cur, out, c, now, Typed(Cast), cur.cast, src.cast, out.cast);
    NamesMeaning(cur, out, c, now, Typed(Directors), cur.directors, src.directors, out.directors);
  }

  lemma KindMeaning(cur: Title, out: Title, c: Contribution, now: int)
    requires c.metadata.Some? && forall p :: Follows(cur, out, c, now, p)
    ensures KindMerged(cur, out, c.metadata.value, c, now)
  {
    var src := c.metadata.value;
    NumberMeaning(cur, out, c, now, Typed(RuntimeMinutes), cur.Runtime(), src.Runtime(), out.Runtime());
    NumberMeaning(cur, out, c, now, Typed(TotalSeasons), cur.Seasons(), src.Seasons(), out.Seasons());
    NumberMeaning(cur, out, c, now, Typed(TotalEpisodes), cur.Episodes(), src.Episodes(), out.Episodes());
  }

  lemma ExtrasMeaning(cur: Title, out: Title, c: Contribution, now: int)
    requires c.metadata.Some? && forall p :: !KindPath(p) ==> Follows(cur, out, c, now, p)
    ensures ExtrasMerged(cur, out, c.metadata.value, c, now)
  {
    var src := c.metadata.value;
    forall key
      ensures Merged(cur, out, c, now, "extra." + key, key in src.extra, ExtraAt(cur, key), ExtraAt(src, key), ExtraAt(out, key))
    {
      CreditMeaning(cur, out, c, now, Extra(key));
    }
  }

  lemma TakesMeaning(cur: Title, c: Contribution, p: Path)
    ensures Takes(cur, c, p) <==> Claims(c, p) && Open(cur, Name(p), c)
  {
  }

  lemma ClashMeaning(cur: Title, c: Contribution)
    requires c.metadata.Some?
    ensures Clash(cur, c) <==> SwitchesKind(cur, c.metadata.value, c)
  {
    TakesMeaning(cur, c, Typed(RuntimeMinutes));
    TakesMeaning(cur, c, Typed(TotalSeasons));
    TakesMeaning(cur, c, Typed(TotalEpisodes));
    KindClaims(c);
  }

  lemma KindClaims(c: Contribution)
    requires c.metadata.Some?
    ensures var s := c.metadata.value.specific;
      && (Claims(c, Typed(RuntimeMinutes)) <==> RuntimeIn(s) != 0)
      && (Claims(c, Typed(TotalSeasons)) <==> SeasonsIn(s) != 0)
      && (Claims(c, Typed(TotalEpisodes)) <==> EpisodesIn(s) != 0)
  {
  }

  lemma FollowsFrom(current: Option<Title>, c: Contribution, now: int, p: Path)
    requires c.metadata.Some?
    ensures var cur := if current.Some? then current.value else NOTHING;
      !Clash(cur, c) || !KindPath(p) ==> Follows(cur, Merge(current, c, now), c, now, p)
  {
    if current.None? {
      FirstMergeOwnsAll(c, now, p);
    } else if !Clash(current.value, c) || !KindPath(p) {
      MergeFollows(current.value, c, now, p);
    }
  }

  /** What one merge does, field by field; a first contribution meets a record that
      holds nothing. */
  lemma MergeMeaning(current: Option<Title>, c: Contribution, now: int)
    requires c.metadata.Some?
    ensures var cur := if current.Some? then current.value else NOTHING;
      var out, src := Merge(current, c, now), c.metadata.value;
      && BaseMerged(cur, out, src, c, now) && ExtrasMerged(cur, out, src, c, now)
      && (!SwitchesKind(cur, src, c) ==> KindMerged(cur, out, src, c, now))
  {
    var cur := if current.Some? then current.value else NOTHING;
    var out := Merge(current, c, now);
    ClashMeaning(cur, c);
    forall p | !Clash(cur, c) || !KindPath(p) ensures Follows(cur, out, c, now, p) {
      FollowsFrom(current, c, now, p);
    }
    TextsMeaning(cur, out, c, now);
    OthersMeaning(cur, out, c, now);
    ExtrasMeaning(cur, out, c, now);
    if !Clash(cur, c) {
      KindMeaning(cur, out, c, now);
    }
  }

  /** Folds one contribution into a record, leaving both inputs as they were; a
      blank slot or missing metadata is refused. */
  method MergeContribution(current: Option<Title>, c: Contribution, now: int) returns (result: Option<Title>)
    ensures result == if c.Valid() then Some(Merge(current, c, now)) else None
    ensures result.Some? <==> c.metadata.Some? && exists x :: x in c.slot && x !in " \t\n\r\U{0B}\U{0C}"
    ensures result.Some? ==>
      var cur := if current.Some? then current.value else NOTHING;
      var out, src := result.value, c.metadata.value;
      && BaseMerged(cur, out, src, c, now) && ExtrasMerged(cur, out, src, c, now)
      && (!SwitchesKind(cur, src, c) ==> KindMerged(cur, out, src, c, now))
  {
    if c.metadata.Some? {
      MergeMeaning(current, c, now);
    }
    if Blank(c.slot) || c.metadata.None? {
      return None;
    }
    var src := c.metadata.value;
    var keys := SortedElements(src.extra.Keys);
    assert keys == ExtraKeys(c);
    var out: Title;
    if current.None? {
      out := Found(src, keys, c, now);
    } else {
      out := Update(current.value, src, keys, c, now);
    }
    return Some(out);
  }

  /** One merge follows the ownership rule at every path; at the kind's own paths
      provided it does not switch a record from one kind's values to the other's. */
  lemma MergeFollows(cur: Title, c: Contribution, now: int, p: Path)
    requires c.metadata.Some? && (!Clash(cur, c) || !KindPath(p))
    ensures Follows(cur, Merge(Some(cur), c, now), c, now, p)
  {
    var typed := MergeFields(cur, FIELDS, c, now);
    assert FIELDS[..|FIELDS|] == FIELDS;
    if KindPath(p) {
      MergeFieldsAt(cur, |FIELDS|, c, now, p);
    } else {
      MergeBaseAt(cur, |FIELDS|, c, now, p);
    }
    MergeExtrasAt(typed, ExtraKeys(c), c, now, p);
    if p.Typed? {
      AllFields(p.field);
    }
  }

  lemma AllFields(f: Field)
    ensures f in FIELDS
  {
    assert FIELDS[0] == BaseTitle && FIELDS[1] == Year && FIELDS[2] == Description && FIELDS[3] == PosterUrl;
    assert FIELDS[4] == Rating && FIELDS[5] == ContentRating && FIELDS[6] == Genres && FIELDS[7] == Language;
    assert FIELDS[8] == Cast && FIELDS[9] == Directors && FIELDS[10] == RuntimeMinutes;
    assert FIELDS[11] == TotalSeasons && FIELDS[12] == TotalEpisodes;
  }

  lemma {:induction false} StampFieldsAt(m: Title, fields: seq<Field>, c: Contribution, now: int, p: Path)
    ensures Get(StampFields(m, fields, c, now), p) == Get(m, p)
    ensures OwnerAt(StampFields(m, fields, c, now), p) ==
      if p.Typed? && p.field in fields && Claims(c, p) then Some(Source(c.Owner(), now)) else OwnerAt(m, p)
  {
    if fields != [] {
      var front, f := fields[..|fields| - 1], fields[|fields| - 1];
      assert fields == front + [f];
      StampFieldsAt(m, front, c, now, p);
      StampAt(StampFields(m, front, c, now), Typed(f), p, c, now);
    }
  }

  lemma {:induction false} StampExtrasAt(m: Title, keys: seq<string>, c: Contribution, now: int, p: Path)
    ensures Get(StampExtras(m, keys, c, now), p) == Get(m, p)
    ensures OwnerAt(StampExtras(m, keys, c, now), p) ==
      if p.Extra? && p.key in keys then Some(Source(c.Owner(), now)) else OwnerAt(m, p)
  {
    if keys != [] {
      var front, key := keys[..|keys| - 1], keys[|keys| - 1];
      assert keys == front + [key];
      StampExtrasAt(m, front, c, now, p);
      StampAt(StampExtras(m, front, c, now), Extra(key), p, c, now);
    }
  }

  /** The first contribution owns exactly what it populates. */
  lemma FirstMergeOwnsAll(c: Contribution, now: int, p: Path)
    requires c.metadata.Some?
    ensures var out := Merge(None, c, now);
      && Get(out, p) == Get(c.metadata.value, p)
      && OwnerAt(out, p) == if Claims(c, p) then Some(Source(c.Owner(), now)) else None
  {
    var bare := c.metadata.value.(source := map[]);
    BareAt(c.metadata.value, p);
    StampFieldsAt(bare, FIELDS, c, now, p);
    StampExtrasAt(StampFields(bare, FIELDS, c, now), ExtraKeys(c), c, now, p);
    if p.Typed? {
      AllFields(p.field);
    }
  }

  lemma BareAt(m: Title, p: Path)
    ensures Get(m.(source := map[]), p) == Get(m, p) && OwnerAt(m.(source := map[]), p) == None
  {
  }

  lemma {:induction false} BaseFieldsKeepKind(cur: Title, n: nat, c: Contribution, now: int, g: Field)
    requires c.metadata.Some? && n <= 10 && OfKind(g)
    ensures var out := MergeFields(cur, FIELDS[..n], c, now);
      out.specific == cur.specific && OwnerAt(out, Typed(g)) == OwnerAt(cur, Typed(g))
  {
    if n > 0 {
      var f := FIELDS[n - 1];
      assert FIELDS[..n][..n - 1] == FIELDS[..n - 1];
      assert !OfKind(f);
      BaseFieldsKeepKind(cur, n - 1, c, now, g);
      BaseFieldKeepsKind(MergeFields(cur, FIELDS[..n - 1], c, now), f, c, now, g);
    }
  }

  lemma BaseFieldKeepsKind(dst: Title, f: Field, c: Contribution, now: int, g: Field)
    requires c.metadata.Some? && OfKind(g) && !OfKind(f)
    ensures var out := MergeField(dst, f, c, now);
      out.specific == dst.specific && OwnerAt(out, Typed(g)) == OwnerAt(dst, Typed(g))
  {
    StampAt(Write(dst, f, c.metadata.value), Typed(f), Typed(g), c, now);
  }

  lemma KindFieldsLast(cur: Title, c: Contribution, now: int)
    requires c.metadata.Some?
    ensures MergeFields(cur, FIELDS, c, now) ==
      MergeField(MergeField(MergeField(MergeFields(cur, FIELDS[..10], c, now),
        RuntimeMinutes, c, now), TotalSeasons, c, now), TotalEpisodes, c, now)
  {
    MergeFieldsStep(cur, 11, c, now);
    MergeFieldsStep(cur, 12, c, now);
    MergeFieldsStep(cur, 13, c, now);
    assert FIELDS[..13] == FIELDS;
  }

  lemma MergeFieldsStep(cur: Title, n: nat, c: Contribution, now: int)
    requires c.metadata.Some? && 0 < n <= |FIELDS|
    ensures MergeFields(cur, FIELDS[..n], c, now) == MergeField(MergeFields(cur, FIELDS[..n - 1], c, now), FIELDS[n - 1], c, now)
  {
    assert FIELDS[..n][..n - 1] == FIELDS[..n - 1];
  }

  /** Merging the kind fields into a record whose kind part is `k`. */
  lemma KindAfter(cur: Title, c: Contribution, now: int)
    requires c.metadata.Some?
    ensures var out := MergeFields(cur, FIELDS, c, now);
      && (Takes(cur, c, Typed(RuntimeMinutes)) ==> out.specific.Movie?)
      && (Takes(cur, c, Typed(TotalSeasons)) || Takes(cur, c, Typed(TotalEpisodes)) ==> out.specific.Series?)
  {
    KindFieldsLast(cur, c, now);
    OneKindInContribution(c);
    var base := MergeFields(cur, FIELDS[..10], c, now);
    BaseFieldsKeepKind(cur, 10, c, now, RuntimeMinutes);
    BaseFieldsKeepKind(cur, 10, c, now, TotalSeasons);
    BaseFieldsKeepKind(cur, 10, c, now, TotalEpisodes);
    var one := MergeField(base, RuntimeMinutes, c, now);
    KindFieldAt(base, RuntimeMinutes, c, now, TotalSeasons);
    KindFieldAt(base, RuntimeMinutes, c, now, TotalEpisodes);
    KindFieldAt(one, TotalSeasons, c, now, TotalEpisodes);
  }

  lemma KindFieldAt(dst: Title, f: Field, c: Contribution, now: int, g: Field)
    requires c.metadata.Some? && f != g
    ensures OwnerAt(MergeField(dst, f, c, now), Typed(g)) == OwnerAt(dst, Typed(g))
  {
    StampAt(Write(dst, f, c.metadata.value), Typed(f), Typed(g), c, now);
  }

  lemma ClashLoses(cur: Title, c: Contribution, now: int) returns (p: Path)
    requires c.metadata.Some? && Clash(cur, c)
    ensures !Takes(cur, c, p) && Get(Merge(Some(cur), c, now), p) != Get(cur, p)
  {
    KindAfter(cur, c, now);
    OneKindInContribution(c);
    var typed := MergeFields(cur, FIELDS, c, now);
    if !Takes(cur, c, Typed(RuntimeMinutes)) {
      p := Typed(RuntimeMinutes);
      LostPart(cur, typed, p);
    } else {
      p := if cur.Seasons() != 0 then Typed(TotalSeasons) else Typed(TotalEpisodes);
      LostPart(cur, typed, p);
    }
    MergeExtrasAt(typed, ExtraKeys(c), c, now, p);
  }

  lemma LostPart(cur: Title, out: Title, p: Path)
    ensures p == Typed(RuntimeMinutes) && cur.Runtime() != 0 && out.specific.Series? ==> Get(out, p) != Get(cur, p)
    ensures p == Typed(TotalSeasons) && cur.Seasons() != 0 && out.specific.Movie? ==> Get(out, p) != Get(cur, p)
    ensures p == Typed(TotalEpisodes) && cur.Episodes() != 0 && out.specific.Movie? ==> Get(out, p) != Get(cur, p)
  {
  }

  /** And that proviso is exact: a merge leaves every path it does not take over
      untouched if and only if it does not clash with the record's kind. */
  lemma KeepsUntakenIff(cur: Title, c: Contribution, now: int)
    requires c.metadata.Some?
    ensures (forall p :: !Takes(cur, c, p) ==> Get(Merge(Some(cur), c, now), p) == Get(cur, p)) <==> !Clash(cur, c)
  {
    if !Clash(cur, c) {
      forall p | !Takes(cur, c, p) ensures Get(Merge(Some(cur), c, now), p) == Get(cur, p) {
        MergeFollows(cur, c, now, p);
      }
    } else {
      var p := ClashLoses(cur, c, now);
    }
  }

  // --- whole histories of contributions

  datatype Offer = Offer(c: Contribution, now: int)

  predicate AllValid(offers: seq<Offer>)
  {
    forall i :: 0 <= i < |offers| ==> offers[i].c.Valid()
  }

  predicate NoSeries(offers: seq<Offer>)
    requires AllValid(offers)
  {
    forall i :: 0 <= i < |offers| ==> !offers[i].c.metadata.value.specific.Series?
  }

  predicate NoMovie(offers: seq<Offer>)
    requires AllValid(offers)
  {
    forall i :: 0 <= i < |offers| ==> !offers[i].c.metadata.value.specific.Movie?
  }

  /** Contributions the merge accepts, all about one kind of title. */
  predicate OneKind(offers: seq<Offer>)
  {
    AllValid(offers) && (NoSeries(offers) || NoMovie(offers))
  }

  ghost function Fold(offers: seq<Offer>): Option<Title>
    requires AllValid(offers)
  {
    if offers == [] then None
    else
      var front, last := offers[..|offers| - 1], offers[|offers| - 1];
      Some(Merge(Fold(front), last.c, last.now))
  }

  /** The first contributor of a tier that populated the path. */
  function FirstClaim(offers: seq<Offer>, tier: Tier, p: Path): Option<string>
  {
    if offers == [] then None
    else
      var front, last := FirstClaim(offers[..|offers| - 1], tier, p), offers[|offers| - 1].c;
      if front.None? && last.tier == tier && Claims(last, p) then Some(last.Owner()) else front
  }

  /** The rightful owner: the first catalogue claimant, else the first provider. */
  function RightfulOwner(offers: seq<Offer>, p: Path): Option<string>
  {
    if FirstClaim(offers, Catalogue, p).Some? then FirstClaim(offers, Catalogue, p)
    else FirstClaim(offers, Provider, p)
  }

  /** What the named contributor last said at the path, and when. */
  function LatestBy(offers: seq<Offer>, owner: string, p: Path): Option<(Value, int)>
  {
    if offers == [] then None
    else
      var last := offers[|offers| - 1];
      if last.c.Owner() == owner && Claims(last.c, p) then Some((Get(last.c.metadata.value, p).value, last.now))
      else LatestBy(offers[..|offers| - 1], owner, p)
  }

  /** The record says at the path what its rightful owner last said, credits
      that owner with the time it said so, and says nothing nobody claimed. */
  ghost predicate Faithful(offers: seq<Offer>, m: Title, p: Path)
  {
    match RightfulOwner(offers, p)
    case None => Get(m, p) == None && OwnerAt(m, p) == None
    case Some(owner) =>
      match LatestBy(offers, owner, p)
      case None => false
      case Some(said) => Get(m, p) == Some(said.0) && OwnerAt(m, p) == Some(Source(owner, said.1))
  }

  lemma FirstClaimTier(offers: seq<Offer>, tier: Tier, p: Path)
    requires FirstClaim(offers, tier, p).Some?
    ensures "provider:" <= FirstClaim(offers, tier, p).value <==> tier == Provider
    ensures FirstClaim(offers, tier, p).value != ""
    ensures LatestBy(offers, FirstClaim(offers, tier, p).value, p).Some?
  {
    var last := offers[|offers| - 1].c;
    OwnerNames(last, last);
    if FirstClaim(offers[..|offers| - 1], tier, p).Some? {
      FirstClaimTier(offers[..|offers| - 1], tier, p);
    }
  }

  /** One more contribution moves the rightful claim exactly as the ownership
      test lets the merge move the recorded one. */
  lemma StepFaithful(front: seq<Offer>, cur: Title, o: Offer, out: Title, p: Path)
    requires o.c.metadata.Some? && Faithful(front, cur, p) && Follows(cur, out, o.c, o.now, p)
    ensures Faithful(front + [o], out, p)
  {
    var offers := front + [o];
    assert offers[..|offers| - 1] == front;
    OwnerNames(o.c, o.c);
    if FirstClaim(front, Catalogue, p).Some? {
      FirstClaimTier(front, Catalogue, p);
    } else if FirstClaim(front, Provider, p).Some? {
      FirstClaimTier(front, Provider, p);
    }
  }

  lemma FirstFaithful(o: Offer, p: Path)
    requires o.c.metadata.Some?
    ensures Faithful([o], Merge(None, o.c, o.now), p)
  {
    FirstMergeOwnsAll(o.c, o.now, p);
    OnlyClaim(o, p);
  }

  lemma OnlyClaim(o: Offer, p: Path)
    requires o.c.metadata.Some?
    ensures RightfulOwner([o], p) == if Claims(o.c, p) then Some(o.c.Owner()) else None
    ensures Claims(o.c, p) ==> LatestBy([o], o.c.Owner(), p) == Some((Get(o.c.metadata.value, p).value, o.now))
  {
    assert [o][..|[o]| - 1] == [];
    assert FirstClaim([o], Catalogue, p) == if o.c.tier == Catalogue && Claims(o.c, p) then Some(o.c.Owner()) else None;
    assert FirstClaim([o], Provider, p) == if o.c.tier == Provider && Claims(o.c, p) then Some(o.c.Owner()) else None;
  }

  /** The record holds nothing of one of the two kinds. */
  predicate WithoutSeries(m: Title) { m.Seasons() == 0 && m.Episodes() == 0 }
  predicate WithoutMovie(m: Title) { m.Runtime() == 0 }

  lemma FirstKeepsKind(c: Contribution, now: int)
    requires c.metadata.Some?
    ensures var m, src := Merge(None, c, now), c.metadata.value;
      m.Runtime() == src.Runtime() && m.Seasons() == src.Seasons() && m.Episodes() == src.Episodes()
  {
    FirstMergeOwnsAll(c, now, Typed(RuntimeMinutes));
    FirstMergeOwnsAll(c, now, Typed(TotalSeasons));
    FirstMergeOwnsAll(c, now, Typed(TotalEpisodes));
  }

  lemma {:induction false} FoldWithoutSeries(offers: seq<Offer>)
    requires AllValid(offers) && NoSeries(offers) && offers != []
    ensures WithoutSeries(Fold(offers).value)
  {
    var front, last := offers[..|offers| - 1], offers[|offers| - 1];
    if front == [] {
      FirstKeepsKind(last.c, last.now);
    } else {
      FoldWithoutSeries(front);
      NoClash(Fold(front).value, last.c);
      MergeKeepsKind(Fold(front).value, last.c, last.now);
    }
  }

  lemma {:induction false} FoldWithoutMovie(offers: seq<Offer>)
    requires AllValid(offers) && NoMovie(offers) && offers != []
    ensures WithoutMovie(Fold(offers).value)
  {
    var front, last := offers[..|offers| - 1], offers[|offers| - 1];
    if front == [] {
      FirstKeepsKind(last.c, last.now);
    } else {
      FoldWithoutMovie(front);
      NoClash(Fold(front).value, last.c);
      MergeKeepsKind(Fold(front).value, last.c, last.now);
    }
  }

  lemma FollowsParts(cur: Title, out: Title, c: Contribution, now: int)
    requires c.metadata.Some?
    ensures Follows(cur, out, c, now, Typed(RuntimeMinutes)) ==> out.Runtime() in {cur.Runtime(), c.metadata.value.Runtime()}
    ensures Follows(cur, out, c, now, Typed(TotalSeasons)) ==> out.Seasons() in {cur.Seasons(), c.metadata.value.Seasons()}
    ensures Follows(cur, out, c, now, Typed(TotalEpisodes)) ==> out.Episodes() in {cur.Episodes(), c.metadata.value.Episodes()}
  {
  }

  lemma MergeKeepsKind(cur: Title, c: Contribution, now: int)
    requires c.metadata.Some? && !Clash(cur, c)
    ensures var m, src := Merge(Some(cur), c, now), c.metadata.value;
      && m.Runtime() in {cur.Runtime(), src.Runtime()}
      && m.Seasons() in {cur.Seasons(), src.Seasons()}
      && m.Episodes() in {cur.Episodes(), src.Episodes()}
  {
    var m := Merge(Some(cur), c, now);
    MergeFollows(cur, c, now, Typed(RuntimeMinutes));
    MergeFollows(cur, c, now, Typed(TotalSeasons));
    MergeFollows(cur, c, now, Typed(TotalEpisodes));
    FollowsParts(cur, m, c, now);
  }

  lemma NoClash(cur: Title, c: Contribution)
    requires c.metadata.Some?
    requires (WithoutSeries(cur) && !c.metadata.value.specific.Series?)
          || (WithoutMovie(cur) && !c.metadata.value.specific.Movie?)
    ensures !Clash(cur, c)
  {
  }

  /** After any history of contributions about one kind of title, every path is
      owned by the first catalogue contributor that ever populated it, else the
      first provider, and holds what that owner last said. */
  lemma {:induction false} FoldIsFaithful(offers: seq<Offer>, p: Path)
    requires OneKind(offers) && offers != []
    ensures Faithful(offers, Fold(offers).value, p)
  {
    var front, last := offers[..|offers| - 1], offers[|offers| - 1];
    assert offers == front + [last];
    if front == [] {
      assert offers == [last];
      FirstFaithful(last, p);
    } else {
      FoldIsFaithful(front, p);
      if NoSeries(offers) {
        FoldWithoutSeries(front);
      } else {
        FoldWithoutMovie(front);
      }
      NoClash(Fold(front).value, last.c);
      MergeFollows(Fold(front).value, last.c, last.now, p);
      StepFaithful(front, Fold(front).value, last, Fold(offers).value, p);
    }
  }

  /** The fields every title has, as far as the first record holds them, are held
      by the second. */
  ghost predicate HoldsOn(a: Title, b: Title)
  {
    TextsHoldOn(a, b) && OthersHoldOn(a, b) && a.extra.Keys <= b.extra.Keys
  }

  ghost predicate TextsHoldOn(a: Title, b: Title)
  {
    && (a.title != "" ==> b.title != "") && (a.description != "" ==> b.description != "")
    && (a.posterUrl != "" ==> b.posterUrl != "") && (a.contentRating != "" ==> b.contentRating != "")
    && (a.language != "" ==> b.language != "")
  }

  ghost predicate OthersHoldOn(a: Title, b: Title)
  {
    && (a.year != 0 ==> b.year != 0) && (a.rating != 0.0 ==> b.rating != 0.0)
    && (a.genres != [] ==> b.genres != []) && (a.cast != [] ==> b.cast != []) && (a.directors != [] ==> b.directors != [])
  }

  /** Whatever is contributed later, of either kind, what a record once held is
      never blank again. */
  lemma {:induction false} NeverBlankAgain(offers: seq<Offer>, k: nat)
    requires AllValid(offers) && 0 < k <= |offers|
    ensures HoldsOn(Fold(offers[..k]).value, Fold(offers).value)
  {
    if k == |offers| {
      assert offers[..k] == offers;
    } else {
      var front, last := offers[..|offers| - 1], offers[|offers| - 1];
      assert front[..k] == offers[..k];
      NeverBlankAgain(front, k);
      MergeHoldsOn(Fold(front).value, last.c, last.now);
      HoldsOnTwice(Fold(offers[..k]).value, Fold(front).value, Fold(offers).value);
    }
  }

  lemma MergeHoldsOn(cur: Title, c: Contribution, now: int)
    requires c.metadata.Some?
    ensures HoldsOn(cur, Merge(Some(cur), c, now))
  {
    var out, src := Merge(Some(cur), c, now), c.metadata.value;
    MergeMeaning(Some(cur), c, now);
    TextsHold(cur, out, src, c, now);
    OthersHold(cur, out, src, c, now);
    ExtrasHold(cur, out, src, c, now);
  }

  lemma TextsHold(cur: Title, out: Title, src: Title, c: Contribution, now: int)
    requires TextsMerged(cur, out, src, c, now)
    ensures TextsHoldOn(cur, out)
  {
  }

  lemma OthersHold(cur: Title, out: Title, src: Title, c: Contribution, now: int)
    requires OthersMerged(cur, out, src, c, now)
    ensures OthersHoldOn(cur, out)
  {
  }

  lemma ExtrasHold(cur: Title, out: Title, src: Title, c: Contribution, now: int)
    requires ExtrasMerged(cur, out, src, c, now)
    ensures cur.extra.Keys <= out.extra.Keys
  {
    forall key | key in cur.extra ensures key in out.extra {
      assert Merged(cur, out, c, now, "extra." + key, key in src.extra, ExtraAt(cur, key), ExtraAt(src, key), ExtraAt(out, key));
    }
  }

  lemma HoldsOnTwice(a: Title, b: Title, d: Title)
    requires HoldsOn(a, b) && HoldsOn(b, d)
    ensures HoldsOn(a, d)
  {
  }
}
