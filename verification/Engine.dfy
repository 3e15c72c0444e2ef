/** The delivery engine as the source runs it: session and index maps updated
    by counting and ending loops, with the relay told of every ended session. */
module Engine {
  import opened Optional
  import opened Strings
  import opened Relays
  import opened DeliverySpec
  import opened DeliveryRuns
  import Policy

  /** One manifest track; only tracks with a location are staged. */
  datatype Track = Track(id: string, located: bool)

  /** What resolving a start request against provider, plan and sink gave. */
  datatype Preparation =
    | Unresolvable
    | SinkUnavailable
    | Ready(sink: Sink, tracks: seq<Track>, otherStages: bool)

  datatype StartResult =
    | Rejected
    | SinkFailed
    | MemberBusy(position: nat)
    | AccountBusy(position: nat)
    | StagingFailed(id: string)
    | Started(id: string)

  datatype Reply = Fine | NotFound | Denied | Invalid

  // --- small steps of the loops

  lemma EndedOneMore(sessions: Sessions, done: set<string>, id: string, status: Status)
    requires id in sessions
    ensures Ended(sessions, done + {id}, status) == Ended(sessions, done, status)[id := sessions[id].(status := status)]
  {
  }

  lemma EndedAlone(sessions: Sessions, id: string, status: Status)
    requires id in sessions
    ensures Ended(sessions, {id}, status) == sessions[id := sessions[id].(status := status)]
  {
  }

  lemma DeindexedTwice(byAccount: Index, a: set<string>, b: set<string>)
    ensures Deindexed(Deindexed(byAccount, a), b) == Deindexed(byAccount, a + b)
  {
    forall key | key in byAccount ensures (byAccount[key] - a) - b == byAccount[key] - (a + b) {
    }
  }

  lemma EndedTwice(sessions: Sessions, a: set<string>, b: set<string>, status: Status)
    ensures Ended(Ended(sessions, a, status), b, status) == Ended(sessions, a + b, status)
  {
  }

  /** Ending in two rounds is ending all at once. */
  lemma EndTwice(st: State, a: set<string>, b: set<string>, status: Status)
    ensures End(End(st, a, status), b, status) == End(st, a + b, status)
  {
    EndedTwice(st.sessions, a, b, status);
    DeindexedTwice(st.byAccount, a, b);
    assert OnDevice(Ended(st.sessions, a, status), b) == OnDevice(st.sessions, b);
    assert OnDevice(st.sessions, a + b) == OnDevice(st.sessions, a) + OnDevice(st.sessions, b);
    WithoutTwice(st.tickets, OnDevice(st.sessions, a), OnDevice(st.sessions, b));
  }

  lemma EndNone(st: State, status: Status)
    ensures End(st, {}, status) == st
  {
    assert OnDevice(st.sessions, {}) == {};
    assert Without(st.tickets, {}) == st.tickets;
    assert Ended(st.sessions, {}, status) == st.sessions;
    forall key | key in st.byAccount ensures st.byAccount[key] - {} == st.byAccount[key] {
    }
    assert Deindexed(st.byAccount, {}) == st.byAccount;
  }

  /** Sessions are stored under their ids and listed only under their own keys. */
  ghost predicate OwnKeys(sessions: Sessions, byAccount: Index)
  {
    && (forall id :: id in sessions ==> sessions[id].id == id)
    && forall key, id :: key in byAccount && id in byAccount[key] ==> id in sessions && sessions[id].key == key
  }

  lemma EndKeepsOwnKeys(st: State, done: set<string>, status: Status)
    requires OwnKeys(st.sessions, st.byAccount)
    ensures OwnKeys(End(st, done, status).sessions, End(st, done, status).byAccount)
  {
  }

  /** Removing a session under its own key removes it everywhere. */
  lemma DeindexOwnKey(sessions: Sessions, byAccount: Index, id: string)
    requires id in sessions && OwnKeys(sessions, byAccount)
    ensures var key := sessions[id].key;
      Deindexed(byAccount, {id}) == if key in byAccount then byAccount[key := byAccount[key] - {id}] else byAccount
  {
    var key := sessions[id].key;
    forall k | k in byAccount && k != key ensures byAccount[k] - {id} == byAccount[k] {
    }
  }

  /** Sessions sorted the way eviction takes them. */
  ghost predicate ByAge(sessions: Sessions, ids: seq<string>)
  {
    && (forall i :: 0 <= i < |ids| ==> ids[i] in sessions)
    && forall i, j :: 0 <= i < j < |ids| ==> Before(sessions[ids[i]], sessions[ids[j]])
  }

  lemma BeforeTotal(a: Session, b: Session)
    ensures Before(a, b) || Before(b, a)
  {
    LeqTotal(a.id, b.id);
  }

  lemma BeforeTransitive(a: Session, b: Session, c: Session)
    requires Before(a, b) && Before(b, c)
    ensures Before(a, c)
  {
    if Leq(a.id, b.id) && Leq(b.id, c.id) {
      LeqTransitive(a.id, b.id, c.id);
    }
  }

  function InsertByAge(sessions: Sessions, id: string, ids: seq<string>): (r: seq<string>)
    requires ByAge(sessions, ids) && id in sessions
    ensures ByAge(sessions, r)
    ensures |r| == |ids| + 1 && (forall x :: x in r <==> x == id || x in ids)
  {
    if ids == [] then [id]
    else if Before(sessions[id], sessions[ids[0]]) then
      OldestFirst(sessions, id, ids);
      [id] + ids
    else
      BeforeTotal(sessions[id], sessions[ids[0]]);
      var rest := InsertByAge(sessions, id, ids[1..]);
      assert ids == [ids[0]] + ids[1..];
      assert forall j :: 0 <= j < |rest| ==> rest[j] == id || rest[j] in ids[1..];
      [ids[0]] + rest
  }

  lemma {:induction false} InsertKeepsDistinct(sessions: Sessions, id: string, ids: seq<string>)
    requires ByAge(sessions, ids) && id in sessions && NoDuplicates(ids) && id !in ids
    ensures NoDuplicates(InsertByAge(sessions, id, ids))
  {
    if ids != [] && !Before(sessions[id], sessions[ids[0]]) {
      InsertKeepsDistinct(sessions, id, ids[1..]);
      assert ids == [ids[0]] + ids[1..] && ids[0] !in ids[1..];
    }
  }

  lemma OldestFirst(sessions: Sessions, id: string, ids: seq<string>)
    requires ByAge(sessions, ids) && id in sessions && ids != [] && Before(sessions[id], sessions[ids[0]])
    ensures ByAge(sessions, [id] + ids)
  {
    forall j | 0 < j < |ids| ensures Before(sessions[id], sessions[ids[j]]) {
      BeforeTransitive(sessions[id], sessions[ids[0]], sessions[ids[j]]);
    }
  }

  function SortByAge(sessions: Sessions, ids: seq<string>): (r: seq<string>)
    requires forall i :: 0 <= i < |ids| ==> ids[i] in sessions
    requires NoDuplicates(ids)
    ensures ByAge(sessions, r) && NoDuplicates(r)
    ensures |r| == |ids| && (forall x :: x in r <==> x in ids)
  {
    if ids == [] then []
    else
      assert ids == [ids[0]] + ids[1..];
      assert ids[0] !in ids[1..];
      var rest := SortByAge(sessions, ids[1..]);
      InsertKeepsDistinct(sessions, ids[0], rest);
      InsertByAge(sessions, ids[0], rest)
  }

  function Elements(s: seq<string>): set<string>
  {
    set x | x in s
  }

  lemma ElementCount(s: seq<string>)
    requires NoDuplicates(s)
    ensures |Elements(s)| == |s|
  {
    if s != [] {
      ElementCount(s[..|s| - 1]);
      assert s == s[..|s| - 1] + [s[|s| - 1]];
      assert Elements(s) == Elements(s[..|s| - 1]) + {s[|s| - 1]};
      assert s[|s| - 1] !in s[..|s| - 1];
    }
  }

  /** The first k of the age-sorted ids are the k oldest. */
  lemma PrefixIsOldest(sessions: Sessions, all: set<string>, sorted: seq<string>, k: nat)
    requires all <= sessions.Keys && ByAge(sessions, sorted) && NoDuplicates(sorted)
    requires k <= |sorted| && forall x :: x in sorted <==> x in all
    ensures AreOldest(sessions, all, Elements(sorted[..k]), k)
  {
    var oldest := Elements(sorted[..k]);
    ElementCount(sorted[..k]);
    forall j | 0 <= j < k ensures sorted[j] in oldest {
      assert sorted[j] == sorted[..k][j];
    }
    forall x, y | x in oldest && y in all - oldest ensures Before(sessions[x], sessions[y]) {
      var i :| 0 <= i < k && sorted[..k][i] == x;
      var j :| 0 <= j < |sorted| && sorted[j] == y;
      assert sorted[i] == x && j >= k;
    }
  }

  /** Every located track of the menu has a token. */
  predicate MenuStaged(s: Session, tracks: seq<Track>)
  {
    s.sink.Device? && forall i :: 0 <= i < |tracks| && tracks[i].located ==> tracks[i].id in s.sink.tokens
  }

  /** Nothing to start: a blank key, no sink named, or nothing to deliver. */
  predicate Refused(key: AccountKey, sinkNamed: bool, prep: Preparation)
  {
    key.provider == "" || key.account == "" || key.member == "" || !sinkNamed || prep.Unresolvable?
  }

  /** The play menu of this preparation cannot be staged. */
  predicate StagingFails(goal: Goal, prep: Preparation)
  {
    && goal == Play && prep.Ready?
    && match prep.sink
       case Device(_) => exists t :: t in prep.tracks && t.located && t.id == ""
       case Other => AnyLocated(prep.tracks) && !prep.otherStages
       case NoSink => false
  }

  /** A device takes no track without an id, another sink none when it refuses. */
  predicate Unstageable(sink: Sink, otherStages: bool, t: Track)
  {
    (sink.Device? && t.id == "") || (sink.Other? && !otherStages)
  }

  /** It fails on a located track the sink cannot take. */
  lemma StagingFailsMeaning(goal: Goal, prep: Preparation)
    requires prep.Ready?
    ensures StagingFails(goal, prep) <==>
      goal == Play && exists t :: t in prep.tracks && t.located && Unstageable(prep.sink, prep.otherStages, t)
  {
    if prep.sink.Device? && StagingFails(goal, prep) {
      var t :| t in prep.tracks && t.located && t.id == "";
    }
    if prep.sink.Other? && AnyLocated(prep.tracks) {
      var t :| t in prep.tracks && t.located;
    }
  }

  predicate AnyLocated(tracks: seq<Track>)
  {
    exists t :: t in tracks && t.located
  }

  lemma CountOneMore(all: set<string>, rest: set<string>, id: string)
    requires id in rest
    ensures |all - (rest - {id})| == |all - rest| + (if id in all then 1 else 0)
  {
    assert all - (rest - {id}) == (all - rest) + (if id in all then {id} else {});
  }

  /** Visiting one more session adds it to the counts it belongs to. */
  lemma CountStep(all: Sessions, key: AccountKey, rest: set<string>, id: string)
    requires id in rest && id in all
    ensures |ActiveOf(all, key.member) - (rest - {id})| == |ActiveOf(all, key.member) - rest|
      + (if all[id].Active() && all[id].key.member == key.member then 1 else 0)
    ensures |ActiveOn(all, key.provider, key.account) - (rest - {id})| == |ActiveOn(all, key.provider, key.account) - rest|
      + (if all[id].Active() && all[id].On(key.provider, key.account) then 1 else 0)
  {
    CountOneMore(ActiveOf(all, key.member), rest, id);
    CountOneMore(ActiveOn(all, key.provider, key.account), rest, id);
  }

  class Engine {
    const cfg: Config
    const policy: Policy.Limits
    const relay: Relay
    const grantTTL: int
    var sessions: Sessions
    var byAccount: Index
    var seqNo: nat

    function View(): State
      reads this, relay
    {
      State(sessions, byAccount, seqNo, relay.tickets)
    }

    ghost predicate Valid()
      reads this, relay
    {
      && Inv(cfg, View())
      && Policy.Validated(policy) && grantTTL > 0
      && cfg.memberLimit == (match Policy.Streams(policy) case Some(n) => n case None => 0)
    }

    constructor (ttl: int, interval: int, grace: int, instance: Policy.Limits, relay: Relay, grantTTL: int)
      requires Policy.Validated(instance) && relay.tickets == map[]
      ensures Valid() && View() == EMPTY && this.relay == relay && policy == instance
      ensures cfg.ttl == ttl && cfg.interval == interval && cfg.grace == grace
      ensures Policy.Declares(instance, None) ==> cfg.memberLimit == 0
      ensures forall n: nat :: Policy.Declares(instance, Some(n)) ==> cfg.memberLimit == n
    {
      cfg := Config(ttl, interval, grace, match Policy.Streams(instance) case Some(n) => n case None => 0);
      policy := instance;
      this.relay := relay;
      this.grantTTL := if grantTTL > 0 then grantTTL else 1_800_000_000_000;
      sessions, byAccount, seqNo := map[], map[], 0;
      new;
      forall n: nat | Policy.Declares(instance, Some(n)) ensures cfg.memberLimit == n {
        Policy.DeclaredStreams(instance, Some(n));
      }
      EmptyInv(cfg);
    }

    /** How many active sessions the member and the account hold right now. */
    method CountActive(key: AccountKey) returns (member: nat, account: nat)
      ensures member == |ActiveOf(sessions, key.member)|
      ensures account == |ActiveOn(sessions, key.provider, key.account)|
    {
      var all := sessions;
      member, account := 0, 0;
      var rest := all.Keys;
      assert ActiveOf(all, key.member) - rest == {} && ActiveOn(all, key.provider, key.account) - rest == {};
      while rest != {}
        invariant rest <= all.Keys
        invariant member == |ActiveOf(all, key.member) - rest|
        invariant account == |ActiveOn(all, key.provider, key.account) - rest|
        decreases rest
      {
        var id :| id in rest;
        CountStep(all, key, rest, id);
        rest := rest - {id};
        var s := all[id];
        if s.Active() {
          if s.key.member == key.member {
            member := member + 1;
          }
          if s.key.provider == key.provider && s.key.account == key.account {
            account := account + 1;
          }
        }
      }
      assert ActiveOf(all, key.member) - {} == ActiveOf(all, key.member);
      assert ActiveOn(all, key.provider, key.account) - {} == ActiveOn(all, key.provider, key.account);
    }

    /** Stages every located track of a play menu as a relay ticket. */
    method StageMenu(id: string, tracks: seq<Track>, now: int)
      returns (tokens: map<string, string>, staged: bool, ghost granted: Tickets)
      requires id != "" && grantTTL > 0
      modifies relay
      ensures relay.tickets == old(relay.tickets) + granted && granted.Keys !! old(relay.tickets).Keys
      ensures forall token :: token in granted ==> granted[token].session == id
      ensures forall track :: track in tokens ==> tokens[track] in granted && granted[tokens[track]].track == track
      ensures staged <==> forall i :: 0 <= i < |tracks| && tracks[i].located ==> tracks[i].id != ""
      ensures staged ==> forall i :: 0 <= i < |tracks| && tracks[i].located ==> tracks[i].id in tokens
    {
      tokens, granted := map[], map[];
      for i := 0 to |tracks|
        invariant relay.tickets == old(relay.tickets) + granted && granted.Keys !! old(relay.tickets).Keys
        invariant forall token :: token in granted ==> granted[token].session == id
        invariant forall track :: track in tokens ==> tokens[track] in granted && granted[tokens[track]].track == track
        invariant forall j :: 0 <= j < i && tracks[j].located ==> tracks[j].id != "" && tracks[j].id in tokens
      {
        if tracks[i].located {
          var token := relay.Grant(id, tracks[i].id, grantTTL, now);
          if token.None? {
            return tokens, false, granted;
          }
          granted := granted[token.value := Ticket(id, tracks[i].id, now + grantTTL)];
          tokens := tokens[tracks[i].id := token.value];
        }
      }
      return tokens, true, granted;
    }

    /** Admission and staging of one session. A start that cannot stage its
        menu reports failure but leaves its session admitted and active. */
    method Start(goal: Goal, key: AccountKey, sinkNamed: bool, prep: Preparation,
                 override: Policy.Limits, cap: Policy.Limits, now: int)
      returns (out: StartResult, ghost op: Op)
      requires Valid()
      modifies this, relay
      ensures Valid()
      ensures out.Rejected? ==> View() == old(View())
      ensures !out.Rejected? ==> Permitted(cfg, old(View()), op, now) && View() == Step(cfg, old(View()), op, now)
      ensures out.Rejected? <==>
        key.provider == "" || key.account == "" || key.member == "" || !sinkNamed || prep.Unresolvable?
      ensures out.SinkFailed? <==> !out.Rejected? && prep.SinkUnavailable?
      ensures out.SinkFailed? || out.MemberBusy? || out.AccountBusy? ==> op == TakeId
      ensures
        var limit := Policy.EffectiveAccountLimit(Policy.With(policy, override), cap);
        var member := |LiveOf(old(sessions), key.member)|;
        var account := |LiveOn(old(sessions), key.provider, key.account)|;
        var ready := !out.Rejected? && prep.Ready?;
        var admitted := ready && member < cfg.memberLimit && account < limit;
        && (out.MemberBusy? <==> ready && member >= cfg.memberLimit)
        && (out.AccountBusy? <==> ready && member < cfg.memberLimit && account >= limit)
        && (out.StagingFailed? <==> admitted && StagingFails(goal, prep))
        && (out.Started? <==> admitted && !StagingFails(goal, prep))
        && (out.MemberBusy? ==> out.position == member)
        && (out.AccountBusy? ==> out.position == account)
        && (admitted ==>
              && op.Admit? && op.limit == limit && op.session.id == out.id == SessionId(old(seqNo) + 1)
              && op.session.key == key && op.session.goal == goal)
      ensures out.Started? || out.StagingFailed? ==>
        && sessions == old(sessions)[out.id := op.session] && op.session.status == Running
        && op.session.createdAt == op.session.lastHeartbeat == op.session.lastProgress == now
      ensures out.Rejected? || out.SinkFailed? || out.MemberBusy? || out.AccountBusy? ==> sessions == old(sessions)
      ensures out.Started? && goal == Play && prep.Ready? && prep.sink.Device? ==> MenuStaged(op.session, prep.tracks)
    {
      op := TakeId;
      if key.provider == "" || key.account == "" || key.member == "" || !sinkNamed || prep.Unresolvable? {
        return Rejected, op;
      }
      ghost var pre := View();
      var effective := Policy.Overlay(policy, override);
      var limit := Policy.EffectiveAccountLimit(effective, cap);
      seqNo := seqNo + 1;
      var id := SessionId(seqNo);
      StepKeepsInv(cfg, pre, TakeId, now);
      if prep.SinkUnavailable? {
        return SinkFailed, op;
      }
      var member, account := CountActive(key);
      LiveIsActive(sessions, key.provider, key.account);
      LiveOfIsActive(sessions, key.member);
      if member >= cfg.memberLimit {
        return MemberBusy(member), op;
      }
      if account >= limit {
        return AccountBusy(account), op;
      }
      var s, staged;
      ghost var granted;
      s, granted, staged := Settle(id, goal, key, prep, now);
      op := Admit(s, granted, limit);
      StepKeepsInv(cfg, pre, op, now);
      out := if staged then Started(id) else StagingFailed(id);
    }

    /** Stores and indexes the admitted session and stages its play menu. */
    method Settle(id: string, goal: Goal, key: AccountKey, prep: Preparation, now: int)
      returns (s: Session, ghost granted: Tickets, staged: bool)
      requires id != "" && grantTTL > 0 && prep.Ready?
      modifies this`sessions, this`byAccount, relay
      ensures s.id == id && s.goal == goal && s.status == Running && s.key == key
      ensures s.createdAt == s.lastHeartbeat == s.lastProgress == now
      ensures sessions == old(sessions)[id := s]
      ensures byAccount == old(byAccount)[key := Indexed(old(byAccount), key) + {id}]
      ensures relay.tickets == old(relay.tickets) + granted && granted.Keys !! old(relay.tickets).Keys
      ensures Staged(s, granted)
      ensures staged <==> !StagingFails(goal, prep)
      ensures staged && goal == Play && prep.sink.Device? ==> MenuStaged(s, prep.tracks)
    {
      var sink := if prep.sink.Device? then Device(map[]) else prep.sink;
      granted, staged := map[], true;
      byAccount := byAccount[key := (if key in byAccount then byAccount[key] else {}) + {id}];
      if goal == Play && prep.sink.Device? {
        var tokens;
        tokens, staged, granted := StageMenu(id, prep.tracks, now);
        sink := Device(tokens);
      } else if goal == Play && prep.sink.Other? && AnyLocated(prep.tracks) {
        staged := prep.otherStages;
      }
      s := Session(id, goal, Running, key, sink, now, now, now);
      sessions := sessions[id := s];
    }

    /** Proof of life from the session's own member. */
    method Beat(id: string, member: string, now: int) returns (reply: Reply)
      requires Valid()
      modifies this
      ensures Valid() && View() == Step(cfg, old(View()), Heartbeat(id, member), now)
      ensures reply == (if id !in old(sessions) then NotFound
                        else if old(sessions)[id].key.member != member then Denied
                        else if old(sessions)[id].status !in {Queued, Running} then Invalid else Fine)
      ensures sessions == if reply == Fine then old(sessions)[id := old(sessions)[id].(lastHeartbeat := now)] else old(sessions)
    {
      ghost var pre := View();
      StepKeepsInv(cfg, pre, Heartbeat(id, member), now);
      if id !in sessions {
        return NotFound;
      }
      if sessions[id].key.member != member {
        return Denied;
      }
      if !sessions[id].Active() {
        return Invalid;
      }
      sessions := sessions[id := sessions[id].(lastHeartbeat := now)];
      return Fine;
    }

    method ReportProgress(id: string, percent: nat, now: int) returns (reply: Reply)
      requires Valid()
      modifies this
      ensures Valid() && View() == Step(cfg, old(View()), Progress(id, percent), now)
      ensures reply == (if id !in old(sessions) then NotFound
                        else if old(sessions)[id].status !in {Queued, Running} || percent > 100 then Invalid else Fine)
      ensures sessions == if reply == Fine then old(sessions)[id := old(sessions)[id].(lastProgress := now)] else old(sessions)
    {
      ghost var pre := View();
      StepKeepsInv(cfg, pre, Progress(id, percent), now);
      if id !in sessions {
        return NotFound;
      }
      if !sessions[id].Active() || percent > 100 {
        return Invalid;
      }
      sessions := sessions[id := sessions[id].(lastProgress := now)];
      return Fine;
    }

    /** Marks one stored session terminal and aborts its sink. */
    method EndOne(id: string, status: Status)
      requires id in sessions && sessions[id].id == id
      modifies this`sessions, relay
      ensures sessions == Ended(old(sessions), {id}, status)
      ensures relay.tickets == Without(old(relay.tickets), OnDevice(old(sessions), {id}))
    {
      assert Without(relay.tickets, {}) == relay.tickets;
      EndedOneMore(sessions, {}, id, status);
      assert Ended(sessions, {}, status) == sessions;
      var s := sessions[id];
      sessions := sessions[id := s.(status := status)];
      if s.sink.Device? {
        relay.Revoke(id);
        assert OnDevice(old(sessions), {id}) == {id};
      } else {
        assert OnDevice(old(sessions), {id}) == {};
      }
    }

    /** Ends one session and takes it out of the index under its key. */
    method EndAndDeindex(id: string)
      requires id in sessions && OwnKeys(sessions, byAccount)
      modifies this`sessions, this`byAccount, relay
      ensures View() == End(old(View()), {id}, Revoked)
    {
      DeindexOwnKey(sessions, byAccount, id);
      var key := sessions[id].key;
      EndOne(id, Revoked);
      if key in byAccount {
        byAccount := byAccount[key := byAccount[key] - {id}];
      }
    }

    method EndAll(ids: set<string>) returns (killed: nat)
      requires OwnKeys(sessions, byAccount) && ids <= sessions.Keys
      modifies this`sessions, this`byAccount, relay
      ensures View() == End(old(View()), ids, Revoked) && killed == |ids|
    {
      ghost var pre := View();
      EndNone(pre, Revoked);
      killed := 0;
      var rest := ids;
      assert ids - rest == {};
      while rest != {}
        invariant rest <= ids && killed == |ids| - |rest|
        invariant View() == End(pre, ids - rest, Revoked)
        decreases rest
      {
        var id :| id in rest;
        EndKeepsOwnKeys(pre, ids - rest, Revoked);
        EndTwice(pre, ids - rest, {id}, Revoked);
        assert (ids - rest) + {id} == ids - (rest - {id});
        EndAndDeindex(id);
        rest := rest - {id};
        killed := killed + 1;
      }
      assert ids - {} == ids;
    }

    /** Ends a revoked member's sessions on one account, found by the index. */
    method Revoke(key: AccountKey, now: int) returns (killed: nat)
      requires Valid()
      modifies this, relay
      ensures Valid() && View() == Step(cfg, old(View()), RevokeAccount(key), now)
      ensures killed == |Indexed(old(byAccount), key)|
    {
      ghost var pre := View();
      StepKeepsInv(cfg, pre, RevokeAccount(key), now);
      RevokeAccountStep(cfg, pre, key, now);
      killed := EndAll(Indexed(byAccount, key));
      byAccount := byAccount - {key};
    }

    /** Ends every session of an account, active or not, for all members. */
    method RevokeAllOnAccount(account: string, now: int) returns (killed: nat)
      requires Valid()
      modifies this, relay
      ensures Valid() && View() == Step(cfg, old(View()), RevokeAll(account), now)
      ensures killed == |set id | id in old(sessions) && old(sessions)[id].key.account == account|
    {
      ghost var pre := View();
      InvOwnKeys(cfg, pre);
      EndingStep(cfg, pre, RevokeAll(account), now);
      killed := EndAll(set id | id in sessions && sessions[id].key.account == account);
    }

    /** Ends the active sessions of whoever no longer holds the account. */
    method RevokeOthersOnAccount(provider: string, account: string, keep: set<string>, now: int) returns (killed: nat)
      requires Valid()
      modifies this, relay
      ensures Valid() && View() == Step(cfg, old(View()), RevokeOthers(provider, account, keep), now)
      ensures killed == |set id | id in LiveOn(old(sessions), provider, account) && old(sessions)[id].key.member !in keep|
    {
      ghost var pre := View();
      InvOwnKeys(cfg, pre);
      EndingStep(cfg, pre, RevokeOthers(provider, account, keep), now);
      LiveIsActive(sessions, provider, account);
      killed := EndAll(set id | id in ActiveOn(sessions, provider, account) && sessions[id].key.member !in keep);
    }

    /** The account's active sessions in no particular order. */
    method ListActive(provider: string, account: string) returns (ids: seq<string>)
      ensures NoDuplicates(ids) && Elements(ids) == ActiveOn(sessions, provider, account)
    {
      var all := sessions;
      ghost var holders := ActiveOn(all, provider, account);
      ids := [];
      var rest := all.Keys;
      while rest != {}
        invariant rest <= all.Keys
        invariant NoDuplicates(ids) && Elements(ids) == holders - rest
        decreases rest
      {
        var id :| id in rest;
        if all[id].Active() && all[id].On(provider, account) {
          assert id !in Elements(ids);
          assert Elements(ids + [id]) == Elements(ids) + {id};
          ids := ids + [id];
        }
        rest := rest - {id};
      }
    }

    /** Re-evaluates an account's allowance and, when enforcing, ends the
        excess sessions, oldest first. */
    method ApplyAccountCap(provider: string, account: string, override: Policy.Limits, cap: Policy.Limits,
                           enforce: bool, now: int)
      returns (killed: nat, ghost evicted: set<string>)
      requires Valid()
      requires enforce ==> Policy.EffectiveAccountLimit(Policy.With(policy, override), cap) >= 0
      modifies this, relay
      ensures Valid()
      ensures !enforce ==> View() == old(View()) && killed == 0
      ensures enforce ==>
        var limit := Policy.EffectiveAccountLimit(Policy.With(policy, override), cap);
        var op := Evict(provider, account, limit, evicted);
        && limit >= 0 && killed == |evicted|
        && Permitted(cfg, old(View()), op, now) && View() == Step(cfg, old(View()), op, now)
        && var before, after := LiveOn(old(sessions), provider, account), LiveOn(sessions, provider, account);
           && evicted <= before && after == before - evicted
           && |after| == (if |before| <= limit then |before| else limit)
           && forall x, y :: x in evicted && y in after ==> StartedFirst(old(sessions)[x], old(sessions)[y])
      ensures sessions ==
        map id | id in old(sessions) :: if id in evicted then old(sessions)[id].(status := Revoked) else old(sessions)[id]
    {
      ghost var pre := View();
      evicted := {};
      var effective := Policy.Overlay(policy, override);
      var limit := Policy.EffectiveAccountLimit(effective, cap);
      if !enforce {
        assert sessions == map id | id in old(sessions) :: old(sessions)[id];
        return 0, {};
      }
      InvOwnKeys(cfg, pre);
      killed, evicted := EvictExcess(provider, account, limit);
      EvictStep(cfg, pre, provider, account, limit, evicted, now);
      EvictionIsExact(cfg, pre, Evict(provider, account, limit, evicted), now);
    }

    /** Ends the account's excess over the limit, oldest first. */
    method EvictExcess(provider: string, account: string, limit: nat) returns (killed: nat, ghost evicted: set<string>)
      requires OwnKeys(sessions, byAccount)
      modifies this`sessions, this`byAccount, relay
      ensures AreOldest(old(sessions), ActiveOn(old(sessions), provider, account), evicted,
                        Excess(|ActiveOn(old(sessions), provider, account)|, limit))
      ensures View() == End(old(View()), evicted, Revoked) && killed == |evicted|
    {
      var active := ListActive(provider, account);
      ElementCount(active);
      if |active| <= limit {
        EndNone(View(), Revoked);
        return 0, {};
      }
      var doomed := Oldest(provider, account, active, |active| - limit);
      evicted := doomed;
      killed := EndAll(doomed);
    }

    /** The k sessions of the list that started first. */
    method Oldest(provider: string, account: string, active: seq<string>, k: nat) returns (oldest: set<string>)
      requires NoDuplicates(active) && Elements(active) == ActiveOn(sessions, provider, account) && k <= |active|
      ensures AreOldest(sessions, ActiveOn(sessions, provider, account), oldest, k)
    {
      assert forall i :: 0 <= i < |active| ==> active[i] in Elements(active);
      var sorted := SortByAge(sessions, active);
      PrefixIsOldest(sessions, ActiveOn(sessions, provider, account), sorted, k);
      oldest := Elements(sorted[..k]);
    }

    /** Marks a session done and finalizes its sink. */
    method Finish(id: string, now: int) returns (reply: Reply)
      requires Valid()
      modifies this, relay
      ensures Valid() && View() == Step(cfg, old(View()), Complete(id), now)
      ensures reply == if id in old(sessions) then Fine else NotFound
      ensures sessions == if reply == Fine then old(sessions)[id := old(sessions)[id].(status := Done)] else old(sessions)
    {
      ghost var pre := View();
      StepKeepsInv(cfg, pre, Complete(id), now);
      if id !in sessions {
        assert OnDevice(sessions, {id}) == {} && Without(relay.tickets, {}) == relay.tickets;
        assert Ended(sessions, {id}, Done) == sessions;
        return NotFound;
      }
      EndedAlone(sessions, id, Done);
      EndOne(id, Done);
      return Fine;
    }

    /** Evicts every session that no longer proves life or outlived the TTL. */
    method SweepOnce(now: int)
      requires Valid()
      modifies this
      ensures Valid() && View() == Step(cfg, old(View()), Sweep, now)
    {
      ghost var pre := View();
      StepKeepsInv(cfg, pre, Sweep, now);
      var dead := FindDead(now);
      sessions := sessions - dead;
      byAccount := Deindexed(byAccount, dead);
    }

    method FindDead(now: int) returns (dead: set<string>)
      ensures dead == Dead(cfg, sessions, now)
    {
      var all := sessions;
      ghost var target := Dead(cfg, all, now);
      dead := {};
      var rest := all.Keys;
      while rest != {}
        invariant rest <= all.Keys && dead == target - rest
        decreases rest
      {
        var id :| id in rest;
        rest := rest - {id};
        var s := all[id];
        if s.Active() {
          var silent := if s.goal == Play then now - s.lastHeartbeat > cfg.interval + cfg.grace
                        else now - s.lastProgress > cfg.ttl;
          if silent {
            dead := dead + {id};
          } else if now - s.createdAt > cfg.ttl {
            dead := dead + {id};
          }
        }
      }
    }
  }

  /** Staging a menu fails on a located track without an id, which manifest
      validation lets through. */
  lemma BlankTrackFailsStaging(tracks: seq<Track>, otherStages: bool)
    requires Track("", true) in tracks
    ensures StagingFails(Play, Ready(Device(map[]), tracks, otherStages))
  {
    assert Track("", true).located;
  }

  /** A start that fails in staging leaves its session active. */
  method FailToStart(e: Engine, key: AccountKey, prep: Preparation, override: Policy.Limits, cap: Policy.Limits, now: int)
    returns (first: StartResult)
    requires e.Valid() && !Refused(key, true, prep) && StagingFails(Play, prep)
    requires |LiveOf(e.sessions, key.member)| < e.cfg.memberLimit
    requires |LiveOn(e.sessions, key.provider, key.account)|
      < Policy.EffectiveAccountLimit(Policy.With(e.policy, override), cap)
    modifies e, e.relay
    ensures e.Valid() && first.StagingFailed?
    ensures first.id in e.sessions && LiveOf(e.sessions, key.member) == old(LiveOf(e.sessions, key.member)) + {first.id}
  {
    ghost var before := e.View();
    ghost var op;
    first, op := e.Start(Play, key, true, prep, override, cap, now);
    NextIdIsNew(before);
    OneMoreLive(before.sessions, op.session);
  }

  lemma OneMoreLive(sessions: Sessions, s: Session)
    requires s.id !in sessions && s.status == Running
    ensures LiveOf(sessions[s.id := s], s.key.member) == LiveOf(sessions, s.key.member) + {s.id}
  {
  }

  /** A failed start at work: the member's only stream is taken by the session
      the caller was told could not start, and the next start is refused. */
  method FailedStartHoldsSlot(e: Engine, key: AccountKey, prep: Preparation, retry: Preparation,
                              override: Policy.Limits, cap: Policy.Limits, now: int, later: int)
    returns (first: StartResult, second: StartResult)
    requires e.Valid() && e.cfg.memberLimit == 1 && LiveOf(e.sessions, key.member) == {}
    requires |LiveOn(e.sessions, key.provider, key.account)|
      < Policy.EffectiveAccountLimit(Policy.With(e.policy, override), cap)
    requires !Refused(key, true, prep) && StagingFails(Play, prep)
    requires !Refused(key, true, retry) && retry.Ready?
    modifies e, e.relay
    ensures first.StagingFailed? && second == MemberBusy(1)
  {
    first := FailToStart(e, key, prep, override, cap, now);
    assert LiveOf(e.sessions, key.member) == {first.id};
    ghost var op;
    second, op := e.Start(Play, key, true, retry, override, cap, later);
  }

  lemma InvOwnKeys(cfg: Config, st: State)
    requires Inv(cfg, st)
    ensures OwnKeys(st.sessions, st.byAccount)
  {
  }

  lemma EndingStep(cfg: Config, st: State, op: Op, now: int)
    requires Inv(cfg, st) && (op.RevokeAll? || op.RevokeOthers?)
    ensures Step(cfg, st, op, now) == End(st, Doomed(st, op), Revoked)
    ensures Inv(cfg, End(st, Doomed(st, op), Revoked))
  {
    StepKeepsInv(cfg, st, op, now);
  }

  lemma EvictStep(cfg: Config, st: State, provider: string, account: string, limit: int, evicted: set<string>, now: int)
    requires Inv(cfg, st)
    requires AreOldest(st.sessions, ActiveOn(st.sessions, provider, account), evicted,
                       Excess(|ActiveOn(st.sessions, provider, account)|, limit))
    ensures var op := Evict(provider, account, limit, evicted);
      Permitted(cfg, st, op, now) && Step(cfg, st, op, now) == End(st, evicted, Revoked)
    ensures Inv(cfg, End(st, evicted, Revoked))
  {
    StepKeepsInv(cfg, st, Evict(provider, account, limit, evicted), now);
  }

  /** Ending a revoked member's indexed sessions one by one and then dropping
      the key is the same as dropping the key: no other key lists them. */
  lemma RevokeAccountStep(cfg: Config, st: State, key: AccountKey, now: int)
    requires IndexInv(st)
    ensures Indexed(st.byAccount, key) <= st.sessions.Keys
    ensures var ended := End(st, Indexed(st.byAccount, key), Revoked);
      Step(cfg, st, RevokeAccount(key), now) == ended.(byAccount := ended.byAccount - {key})
  {
    var ids := Indexed(st.byAccount, key);
    assert Doomed(st, RevokeAccount(key)) == ids;
    forall k | k in st.byAccount && k != key ensures st.byAccount[k] - ids == st.byAccount[k] {
      assert forall id :: id in st.byAccount[k] ==> st.sessions[id].key == k;
    }
    assert Deindexed(st.byAccount, ids) - {key} == st.byAccount - {key};
  }
}
