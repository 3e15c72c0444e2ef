/** The global metadata cache: records under canonical external ids, and alias
    rows that must never dangle. */
module MetadataCache {
  import opened Optional

  /** How many chars precede the first colon; the length when there is none. */
  function FirstColon(s: string): (i: nat)
    ensures i <= |s| && ':' !in s[..i] && (i < |s| ==> s[i] == ':')
  {
    if s == [] || s[0] == ':' then 0
    else
      var rest := FirstColon(s[1..]);
      assert s[..rest + 1] == [s[0]] + s[1..][..rest];
      rest + 1
  }

  /** The `namespace:value` shape every key derives from. */
  predicate WellFormedId(id: string)
  {
    var i := FirstColon(id);
    0 < i < |id| - 1
  }

  datatype State<R> = State(records: map<string, R>, aliases: map<string, string>)

  datatype Op<R> = Put(ref: string, record: Option<R>) | Link(alias: string, ref: string) | Delete(ref: string)

  predicate Accepted<R>(st: State<R>, op: Op<R>)
  {
    match op
    case Put(ref, record) => WellFormedId(ref) && record.Some?
    case Link(alias, ref) => WellFormedId(alias) && WellFormedId(ref) && ref in st.records
    case Delete(ref) => WellFormedId(ref)
  }

  function Step<R>(st: State<R>, op: Op<R>): State<R>
  {
    if !Accepted(st, op) then st
    else match op
      case Put(ref, record) => st.(records := st.records[ref := record.value])
      case Link(alias, ref) => st.(aliases := st.aliases[alias := ref])
      case Delete(ref) =>
        State(st.records - {ref}, map alias | alias in st.aliases && st.aliases[alias] != ref :: st.aliases[alias])
  }

  function Run<R>(st: State<R>, ops: seq<Op<R>>): State<R>
  {
    if ops == [] then st else Step(Run(st, ops[..|ops| - 1]), ops[|ops| - 1])
  }

  /** Where an external id leads: through its alias row, else to its own record. */
  function Resolved<R>(st: State<R>, id: string): Option<string>
  {
    if !WellFormedId(id) then None
    else if id in st.aliases then (if WellFormedId(st.aliases[id]) then Some(st.aliases[id]) else None)
    else if id in st.records then Some(id)
    else None
  }

  /** Every alias points at an existing record. */
  ghost predicate Inv<R>(st: State<R>)
  {
    forall alias :: alias in st.aliases ==> st.aliases[alias] in st.records
  }

  lemma StepKeepsInv<R>(st: State<R>, op: Op<R>)
    requires Inv(st)
    ensures Inv(Step(st, op))
  {
  }

  lemma {:induction false} RunKeepsInv<R>(st: State<R>, ops: seq<Op<R>>)
    requires Inv(st)
    ensures Inv(Run(st, ops))
  {
    if ops != [] {
      RunKeepsInv(st, ops[..|ops| - 1]);
      StepKeepsInv(Run(st, ops[..|ops| - 1]), ops[|ops| - 1]);
    }
  }

  /** In every reachable cache an id that resolves leads to a stored record. */
  lemma ResolveFindsRecords<R>(ops: seq<Op<R>>, id: string)
    ensures var st := Run(State(map[], map[]), ops);
      Resolved(st, id).Some? ==> Resolved(st, id).value in st.records
  {
    var empty: State<R> := State(map[], map[]);
    RunKeepsInv(empty, ops);
  }

  /** Once a record is deleted, no id resolves to it until it is stored again,
      whatever else is stored, linked or deleted meanwhile. */
  lemma {:induction false} DeletedStaysUnresolvable<R>(st: State<R>, ref: string, ops: seq<Op<R>>, id: string)
    requires Inv(st) && WellFormedId(ref)
    requires forall op :: op in ops ==> !(op.Put? && op.ref == ref)
    ensures var after := Run(Step(st, Delete(ref)), ops);
      && ref !in after.records
      && (forall alias :: alias in after.aliases ==> after.aliases[alias] != ref)
      && Resolved(after, id) != Some(ref)
  {
    if ops != [] {
      assert ops == ops[..|ops| - 1] + [ops[|ops| - 1]];
      DeletedStaysUnresolvable(st, ref, ops[..|ops| - 1], id);
    }
  }

  /** Deleting one record leaves every resolution to another untouched. */
  lemma DeleteTouchesOnlyItsOwn<R>(st: State<R>, ref: string, id: string)
    requires Inv(st) && Resolved(st, id) != Some(ref)
    ensures Resolved(Step(st, Delete(ref)), id) == Resolved(st, id)
  {
  }

  /** An id is a non-empty namespace, the first colon, and a non-empty value. */
  lemma WellFormedMeaning(id: string)
    ensures WellFormedId(id) <==> exists i :: 0 < i < |id| - 1 && id[i] == ':' && ':' !in id[..i]
  {
    if i :| 0 < i < |id| - 1 && id[i] == ':' && ':' !in id[..i] {
      FirstColonAt(id, i);
    }
  }

  lemma {:induction false} FirstColonAt(s: string, i: nat)
    requires i < |s| && s[i] == ':' && ':' !in s[..i]
    ensures FirstColon(s) == i
  {
    if i > 0 {
      assert s[..i][0] == s[0] && s[..i][1..] == s[1..][..i - 1];
      FirstColonAt(s[1..], i - 1);
    }
  }

  /** An accepted link leads its alias to the record, and a stored record without
      an alias row of its own to itself; whatever else is stored, linked or
      deleted afterwards, an alias keeps leading there until it is linked anew or
      that record is deleted. */
  lemma {:induction false} LinkedResolves<R>(st: State<R>, alias: string, ref: string, ops: seq<Op<R>>)
    requires WellFormedId(alias) && WellFormedId(ref) && ref in st.records
    requires forall op :: op in ops ==> !(op.Link? && op.alias == alias) && !(op.Delete? && op.ref == ref)
    ensures var after := Run(Step(st, Link(alias, ref)), ops);
      && alias in after.aliases && after.aliases[alias] == ref && ref in after.records
      && Resolved(after, alias) == Some(ref)
  {
    if ops != [] {
      assert ops == ops[..|ops| - 1] + [ops[|ops| - 1]];
      LinkedResolves(st, alias, ref, ops[..|ops| - 1]);
    }
  }

  lemma StoredResolves<R>(st: State<R>, ref: string, record: R)
    requires WellFormedId(ref) && ref !in st.aliases
    ensures var after := Step(st, Put(ref, Some(record)));
      after.records == st.records[ref := record] && Resolved(after, ref) == Some(ref)
  {
  }

  class Cache<R> {
    var records: map<string, R>
    var aliases: map<string, string>

    function View(): State<R>
      reads this
    {
      State(records, aliases)
    }

    ghost predicate Valid()
      reads this
    {
      Inv(View())
    }

    constructor ()
      ensures Valid() && View() == State(map[], map[])
    {
      records, aliases := map[], map[];
    }

    method PutRecord(ref: string, record: Option<R>) returns (ok: bool)
      requires Valid()
      modifies this
      ensures Valid() && View() == Step(old(View()), Put(ref, record)) && (ok <==> Accepted(old(View()), Put(ref, record)))
    {
      if !WellFormedId(ref) || record.None? {
        return false;
      }
      records := records[ref := record.value];
      return true;
    }

    method LinkAlias(alias: string, ref: string) returns (ok: bool)
      requires Valid()
      modifies this
      ensures Valid() && View() == Step(old(View()), Link(alias, ref)) && (ok <==> Accepted(old(View()), Link(alias, ref)))
      ensures ok ==> records == old(records) && aliases == old(aliases)[alias := ref] && Resolved(View(), alias) == Some(ref)
    {
      if !WellFormedId(alias) || !WellFormedId(ref) || ref !in records {
        return false;
      }
      aliases := aliases[alias := ref];
      return true;
    }

    /** Removes a record after purging, row by row, every alias leading to it. */
    method DeleteRecord(ref: string) returns (ok: bool)
      requires Valid()
      modifies this
      ensures Valid() && View() == Step(old(View()), Delete(ref)) && (ok <==> WellFormedId(ref))
    {
      if !WellFormedId(ref) {
        return false;
      }
      var rest := aliases.Keys;
      while rest != {}
        invariant rest <= old(aliases).Keys && records == old(records)
        invariant aliases == map a | a in old(aliases) && (a in rest || old(aliases)[a] != ref) :: old(aliases)[a]
        decreases rest
      {
        var alias :| alias in rest;
        rest := rest - {alias};
        if aliases[alias] == ref {
          aliases := aliases - {alias};
        }
      }
      records := records - {ref};
      return true;
    }

    method Resolve(id: string) returns (ref: Option<string>)
      requires Valid()
      ensures ref == Resolved(View(), id)
      ensures ref.Some? ==> ref.value in records
    {
      if !WellFormedId(id) {
        return None;
      }
      if id in aliases {
        return if WellFormedId(aliases[id]) then Some(aliases[id]) else None;
      }
      return if id in records then Some(id) else None;
    }
  }
}
