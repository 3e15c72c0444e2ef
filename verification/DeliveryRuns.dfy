/** What holds of delivery sessions over every run of the engine. */
module DeliveryRuns {
  import Strings
  import opened Relays
  import opened DeliverySpec

  /** One operation and the clock reading it used. */
  datatype Timed = Timed(op: Op, now: int)

  function RunFrom(cfg: Config, st: State, run: seq<Timed>): State
    decreases run
  {
    if run == [] then st else RunFrom(cfg, Step(cfg, st, run[0].op, run[0].now), run[1..])
  }

  ghost predicate PermittedRun(cfg: Config, st: State, run: seq<Timed>)
    decreases run
  {
    run == [] ||
    (Permitted(cfg, st, run[0].op, run[0].now) && PermittedRun(cfg, Step(cfg, st, run[0].op, run[0].now), run[1..]))
  }

  /** Every state the engine can reach satisfies the invariant: the index is
      exact, no member exceeds the instance limit, tickets of held sessions
      belong to active ones, and active menus stay pullable. */
  lemma {:induction false} ReachableInv(cfg: Config, st: State, run: seq<Timed>)
    requires Inv(cfg, st) && PermittedRun(cfg, st, run)
    ensures Inv(cfg, RunFrom(cfg, st, run))
    decreases run
  {
    if run != [] {
      StepKeepsInv(cfg, st, run[0].op, run[0].now);
      ReachableInv(cfg, Step(cfg, st, run[0].op, run[0].now), run[1..]);
    }
  }

  lemma EmptyInv(cfg: Config)
    ensures Inv(cfg, EMPTY)
  {
    assert forall member :: ActiveOf(EMPTY.sessions, member) == {};
  }

  predicate IsActive(st: State, id: string)
  {
    id in st.sessions && st.sessions[id].Active()
  }

  // --- who is queued or running

  /** Queued or running on the account. */
  predicate OnAccount(s: Session, provider: string, account: string)
  {
    s.status in {Queued, Running} && s.key.provider == provider && s.key.account == account
  }

  ghost function LiveOn(sessions: Sessions, provider: string, account: string): set<string>
  {
    set id | id in sessions && OnAccount(sessions[id], provider, account)
  }

  ghost function LiveOf(sessions: Sessions, member: string): set<string>
  {
    set id | id in sessions && sessions[id].status in {Queued, Running} && sessions[id].key.member == member
  }

  lemma LiveOfIsActive(sessions: Sessions, member: string)
    ensures LiveOf(sessions, member) == ActiveOf(sessions, member)
  {
  }

  lemma LiveIsActive(sessions: Sessions, provider: string, account: string)
    ensures LiveOn(sessions, provider, account) == ActiveOn(sessions, provider, account)
  {
  }

  // --- admission

  lemma OneMoreOn(sessions: Sessions, s: Session, provider: string, account: string)
    requires s.id !in sessions
    ensures ActiveOn(sessions[s.id := s], provider, account) ==
      ActiveOn(sessions, provider, account) + (if s.Active() && s.On(provider, account) then {s.id} else {})
  {
  }

  /** An admission leaves its account within the effective limit then in force
      and its member within the instance limit, and makes nobody else active. */
  lemma AdmissionWithinLimits(cfg: Config, st: State, op: Op, now: int)
    requires SessionsInv(st) && op.Admit? && Permitted(cfg, st, op, now)
    ensures var s, post := op.session, Step(cfg, st, op, now).sessions;
      && s.id in post && post[s.id].status in {Queued, Running} && s.id !in st.sessions
      && |LiveOn(post, s.key.provider, s.key.account)| <= op.limit
      && |LiveOf(post, s.key.member)| <= cfg.memberLimit
      && forall id :: id != s.id ==> (id in post <==> id in st.sessions) && (id in post ==> post[id] == st.sessions[id])
  {
    NextIdIsNew(st);
    AdmissionCounts(cfg, st, op, now);
    LiveIsActive(Step(cfg, st, op, now).sessions, op.session.key.provider, op.session.key.account);
    LiveOfIsActive(Step(cfg, st, op, now).sessions, op.session.key.member);
  }

  lemma AdmissionCounts(cfg: Config, st: State, op: Op, now: int)
    requires op.Admit? && Permitted(cfg, st, op, now) && op.session.id !in st.sessions
    ensures var s, post := op.session, Step(cfg, st, op, now);
      && |ActiveOn(post.sessions, s.key.provider, s.key.account)| <= op.limit
      && |ActiveOf(post.sessions, s.key.member)| <= cfg.memberLimit
  {
    OneMoreOn(st.sessions, op.session, op.session.key.provider, op.session.key.account);
    OneMoreActive(st.sessions, op.session, op.session.key.member);
  }

  // --- once over, always over

  lemma StepNeverReactivates(cfg: Config, st: State, op: Op, now: int, id: string)
    requires Inv(cfg, st) && Permitted(cfg, st, op, now)
    requires Issued(id, st.seqNo) && !IsActive(st, id)
    ensures !IsActive(Step(cfg, st, op, now), id) && Issued(id, Step(cfg, st, op, now).seqNo)
  {
    NextIdIsNew(st);
  }

  /** No operation makes an ended, evicted or forgotten session active again. */
  lemma {:induction false} NeverReactivated(cfg: Config, st: State, run: seq<Timed>, id: string)
    requires Inv(cfg, st) && PermittedRun(cfg, st, run)
    requires Issued(id, st.seqNo) && !IsActive(st, id)
    ensures !IsActive(RunFrom(cfg, st, run), id)
    decreases run
  {
    if run != [] {
      StepNeverReactivates(cfg, st, run[0].op, run[0].now, id);
      StepKeepsInv(cfg, st, run[0].op, run[0].now);
      NeverReactivated(cfg, Step(cfg, st, run[0].op, run[0].now), run[1..], id);
    }
  }

  // --- revocation

  /** Revoking a member on an account revokes every queued or running session
      under that key, leaves none there, and touches no session under another. */
  lemma RevokeAccountIsExact(cfg: Config, st: State, key: AccountKey, now: int)
    requires Inv(cfg, st)
    ensures var post := Step(cfg, st, RevokeAccount(key), now);
      && post.sessions.Keys == st.sessions.Keys
      && forall id :: id in st.sessions ==>
           var s, t := st.sessions[id], post.sessions[id];
           && (s.key != key ==> t == s)
           && (s.key == key && s.status in {Queued, Running} ==> t == s.(status := Revoked))
           && (s.key == key && s.status !in {Queued, Running} ==> t == s || t == s.(status := Revoked))
  {
  }

  /** The specification read per session: removing an account revokes every
      session on it, for any member, and touches no session of another account. */
  lemma RevokeAllIsExact(cfg: Config, st: State, account: string, now: int)
    requires Inv(cfg, st)
    ensures var post := Step(cfg, st, RevokeAll(account), now);
      && post.sessions.Keys == st.sessions.Keys
      && forall id :: id in st.sessions ==>
           var s := st.sessions[id];
           post.sessions[id] == if s.key.account == account then s.(status := Revoked) else s
  {
  }

  /** The specification read per session: narrowing an account's sharing revokes
      exactly the queued and running sessions of the members no longer listed. */
  lemma RevokeOthersIsExact(cfg: Config, st: State, provider: string, account: string, keep: set<string>, now: int)
    requires Inv(cfg, st)
    ensures var post := Step(cfg, st, RevokeOthers(provider, account, keep), now);
      && post.sessions.Keys == st.sessions.Keys
      && forall id :: id in st.sessions ==>
           var s := st.sessions[id];
           if s.status in {Queued, Running} && s.key.provider == provider && s.key.account == account && s.key.member !in keep
           then post.sessions[id] == s.(status := Revoked) else post.sessions[id] == s
  {
  }

  // --- eviction

  lemma EvictedOn(st: State, provider: string, account: string, limit: int, evicted: set<string>, cfg: Config, now: int)
    requires evicted <= ActiveOn(st.sessions, provider, account)
    ensures ActiveOn(Step(cfg, st, Evict(provider, account, limit, evicted), now).sessions, provider, account)
         == ActiveOn(st.sessions, provider, account) - evicted
  {
  }

  lemma DifferenceSize<T>(all: set<T>, part: set<T>)
    requires part <= all
    ensures |all - part| == |all| - |part|
  {
    assert all == part + (all - part);
  }

  /** Created earlier, or at the same time under a lower id. */
  ghost predicate StartedFirst(a: Session, b: Session)
  {
    a.createdAt < b.createdAt || (a.createdAt == b.createdAt && (a.id == b.id || Strings.Below(a.id, b.id)))
  }

  lemma BeforeStartedFirst(a: Session, b: Session)
    ensures Before(a, b) <==> StartedFirst(a, b)
  {
    Strings.LeqMeaning(a.id, b.id);
  }

  lemma EvictionLeaves(cfg: Config, st: State, op: Op, now: int)
    requires op.Evict? && op.limit >= 0 && Permitted(cfg, st, op, now)
    ensures var before := ActiveOn(st.sessions, op.provider, op.account);
      var after := ActiveOn(Step(cfg, st, op, now).sessions, op.provider, op.account);
      after == before - op.evicted && |after| == (if |before| <= op.limit then |before| else op.limit)
  {
    EvictedOn(st, op.provider, op.account, op.limit, op.evicted, cfg, now);
    DifferenceSize(ActiveOn(st.sessions, op.provider, op.account), op.evicted);
  }

  /** Enforcing a lowered limit ends exactly the excess: the account is left
      with min(active, limit) sessions, every evicted session started before every
      survivor, or together with it under a lower id, and no other one changes. */
  lemma EvictionIsExact(cfg: Config, st: State, op: Op, now: int)
    requires op.Evict? && op.limit >= 0 && Permitted(cfg, st, op, now)
    ensures var post := Step(cfg, st, op, now).sessions;
      var before, after := LiveOn(st.sessions, op.provider, op.account), LiveOn(post, op.provider, op.account);
      && op.evicted <= before && after == before - op.evicted
      && |after| == (if |before| <= op.limit then |before| else op.limit)
      && (forall x, y :: x in op.evicted && y in after ==> StartedFirst(st.sessions[x], st.sessions[y]))
      && post == map id | id in st.sessions ::
           if id in op.evicted then st.sessions[id].(status := Revoked) else st.sessions[id]
  {
    EvictionLeaves(cfg, st, op, now);
    LiveIsActive(st.sessions, op.provider, op.account);
    LiveIsActive(Step(cfg, st, op, now).sessions, op.provider, op.account);
    forall x, y | x in op.evicted && y in ActiveOn(st.sessions, op.provider, op.account) - op.evicted
      ensures StartedFirst(st.sessions[x], st.sessions[y])
    {
      BeforeStartedFirst(st.sessions[x], st.sessions[y]);
    }
  }

  /** Enforcing the same limit again ends nobody. */
  lemma EvictionIsIdempotent(cfg: Config, st: State, first: Op, again: Op, now: int, later: int)
    requires first.Evict? && again.Evict? && first.limit == again.limit >= 0
    requires first.provider == again.provider && first.account == again.account
    requires Permitted(cfg, st, first, now) && Permitted(cfg, Step(cfg, st, first, now), again, later)
    ensures again.evicted == {}
  {
    EvictionLeaves(cfg, st, first, now);
  }

  /** The eviction order leaves no choice: the excess is one definite set. */
  lemma OldestIsUnique(sessions: Sessions, all: set<string>, a: set<string>, b: set<string>, k: nat)
    requires all <= sessions.Keys && AreOldest(sessions, all, a, k) && AreOldest(sessions, all, b, k)
    requires forall id :: id in all ==> sessions[id].id == id
    ensures a == b
  {
    SameSizeDifferences(a, b);
    if a - b != {} {
      var x :| x in a - b;
      var y :| y in b - a;
      assert Before(sessions[x], sessions[y]) && Before(sessions[y], sessions[x]);
      Strings.LeqAntisymmetric(x, y);
    }
  }

  lemma SameSizeDifferences(a: set<string>, b: set<string>)
    requires |a| == |b|
    ensures a - b == {} <==> b - a == {}
    ensures a - b == {} && b - a == {} ==> a == b
  {
    DifferenceSize(a, a * b);
    DifferenceSize(b, a * b);
    assert a - b == a - a * b && b - a == b - a * b;
  }

  // --- tickets

  /** The sessions an operation ends by aborting or finalizing their sink. */
  function EndedBy(st: State, op: Op): set<string>
  {
    if op.Complete? then (if op.id in st.sessions then {op.id} else {}) else Doomed(st, op)
  }

  /** Only sessions with a device sink hold tickets, so dropping theirs drops
      them all. */
  lemma TicketsAreOnDevices(st: State, ended: set<string>)
    requires TicketInv(st) && ended <= st.sessions.Keys
    ensures Without(st.tickets, OnDevice(st.sessions, ended)) == Without(st.tickets, ended)
  {
  }

  /** Revocation, eviction and completion drop every relay ticket of the ended
      sessions and no other session's. */
  lemma TicketsDieWithSessions(cfg: Config, st: State, op: Op, now: int)
    requires TicketInv(st) && (op.RevokeAccount? || op.RevokeAll? || op.RevokeOthers? || op.Evict? || op.Complete?)
    requires op.Evict? ==> op.evicted <= st.sessions.Keys
    ensures Step(cfg, st, op, now).tickets ==
      map token | token in st.tickets && st.tickets[token].session !in EndedBy(st, op) :: st.tickets[token]
  {
    TicketsAreOnDevices(st, EndedBy(st, op));
    if op.Complete? {
      assert OnDevice(st.sessions, {op.id}) == OnDevice(st.sessions, EndedBy(st, op));
    }
  }

  /** The sweep is the exception: it forgets a dead session without telling its
      sink. It leaves the tickets an ending would have left exactly when no
      ticket belongs to a session it removes. */
  lemma SweepDropsTicketsIff(cfg: Config, st: State, now: int)
    ensures Step(cfg, st, Sweep, now).tickets == Without(st.tickets, Dead(cfg, st.sessions, now))
       <==> forall token :: token in st.tickets ==> st.tickets[token].session !in Dead(cfg, st.sessions, now)
  {
    var kept := Without(st.tickets, Dead(cfg, st.sessions, now));
    if kept == st.tickets {
      forall token | token in st.tickets ensures st.tickets[token].session !in Dead(cfg, st.sessions, now) {
        assert token in kept;
      }
    }
  }

  /** What a sweep leaves behind no later operation collects: a ticket whose
      session is no longer stored stays in the relay over every run. */
  lemma {:induction false} OrphansStay(cfg: Config, st: State, run: seq<Timed>, token: string)
    requires Inv(cfg, st) && PermittedRun(cfg, st, run)
    requires token in st.tickets && st.tickets[token].session !in st.sessions
    ensures token in RunFrom(cfg, st, run).tickets
    ensures RunFrom(cfg, st, run).tickets[token] == st.tickets[token]
    decreases run
  {
    if run != [] {
      StepKeepsInv(cfg, st, run[0].op, run[0].now);
      OrphanStays(cfg, st, run[0].op, run[0].now, token);
      OrphansStay(cfg, Step(cfg, st, run[0].op, run[0].now), run[1..], token);
    }
  }

  lemma OrphanStays(cfg: Config, st: State, op: Op, now: int, token: string)
    requires SessionsInv(st) && TicketInv(st) && Permitted(cfg, st, op, now)
    requires token in st.tickets && st.tickets[token].session !in st.sessions
    ensures var post := Step(cfg, st, op, now);
      && token in post.tickets && post.tickets[token] == st.tickets[token]
      && st.tickets[token].session !in post.sessions
  {
    if op.Admit? {
      NextIdIsNew(st);
    } else if op.RevokeAccount? || op.RevokeAll? || op.RevokeOthers? || op.Evict? {
      EndOnOrphan(st, Doomed(st, op), Revoked, token);
    }
  }

  lemma EndOnOrphan(st: State, doomed: set<string>, status: Status, token: string)
    requires token in st.tickets && st.tickets[token].session !in st.sessions
    ensures var post := End(st, doomed, status);
      && token in post.tickets && post.tickets[token] == st.tickets[token]
      && post.sessions.Keys == st.sessions.Keys
  {
  }

  /** It happens: a device session admitted and then swept for its age. */
  lemma SweepLeavesTickets(cfg: Config, st: State, admit: Op, now: int, later: int)
    requires Inv(cfg, st) && admit.Admit? && Permitted(cfg, st, admit, now) && later - now > cfg.ttl
    ensures var swept := Step(cfg, Step(cfg, st, admit, now), Sweep, later);
      && admit.session.id !in swept.sessions
      && forall token :: token in admit.granted ==>
           token in swept.tickets && swept.tickets[token].session == admit.session.id
  {
    var admitted := Step(cfg, st, admit, now);
    assert admitted.tickets == st.tickets + admit.granted;
    assert admit.session.id in Dead(cfg, admitted.sessions, later);
  }

  // --- liveness

  /** The operation ends this session outright. */
  predicate Ends(op: Op, s: Session)
  {
    match op
    case Complete(id) => id == s.id
    case RevokeAccount(key) => key == s.key
    case RevokeAll(account) => account == s.key.account
    case RevokeOthers(p, a, keep) => s.On(p, a) && s.key.member !in keep
    case Evict(_, _, _, evicted) => s.id in evicted
    case _ => false
  }

  /** The operation proves this session is alive. */
  predicate Refreshes(op: Op, s: Session)
  {
    if s.goal == Play then op == Heartbeat(s.id, s.key.member)
    else op.Progress? && op.id == s.id && op.percent <= 100
  }

  function Allowance(cfg: Config, goal: Goal): int
  {
    if goal == Play then cfg.interval + cfg.grace else cfg.ttl
  }

  /** Along the run nothing ends the session, and at every sweep its last proof
      of life is within the allowance and its age within the TTL. Only what the
      run says is used: `seen` is the last proof of life so far. */
  predicate Nursed(cfg: Config, s: Session, seen: int, run: seq<Timed>)
    decreases run
  {
    run == [] ||
    var Timed(op, now) := run[0];
    && !Ends(op, s)
    && (op == Sweep ==> now - seen <= Allowance(cfg, s.goal) && now - s.createdAt <= cfg.ttl)
    && Nursed(cfg, s, if Refreshes(op, s) then now else seen, run[1..])
  }

  function LastSeen(s: Session): int
  {
    if s.goal == Play then s.lastHeartbeat else s.lastProgress
  }

  predicate SameSession(a: Session, b: Session)
  {
    a.id == b.id && a.goal == b.goal && a.key == b.key && a.createdAt == b.createdAt
  }

  lemma EndOnActive(st: State, doomed: set<string>, status: Status, id: string)
    requires IsActive(st, id) && Terminal(status)
    ensures IsActive(End(st, doomed, status), id) <==> id !in doomed
    ensures id !in doomed ==> End(st, doomed, status).sessions[id] == st.sessions[id]
  {
  }

  lemma DoomedIsEnds(st: State, op: Op, id: string)
    requires IndexInv(st) && SessionsInv(st) && IsActive(st, id)
    requires op.RevokeAccount? || op.RevokeAll? || op.RevokeOthers? || op.Evict?
    ensures id in Doomed(st, op) <==> Ends(op, st.sessions[id])
  {
  }

  /** What one step does to an active session. */
  ghost predicate Carries(cfg: Config, st: State, op: Op, now: int, id: string)
    requires IsActive(st, id)
  {
    var s, post := st.sessions[id], Step(cfg, st, op, now);
    && (IsActive(post, id) <==> !Ends(op, s) && (op == Sweep ==> Alive(cfg, s, now)))
    && (IsActive(post, id) ==>
          && SameSession(post.sessions[id], s)
          && LastSeen(post.sessions[id]) == if Refreshes(op, s) then now else LastSeen(s))
  }

  lemma StepOnActive(cfg: Config, st: State, op: Op, now: int, id: string)
    requires Inv(cfg, st) && Permitted(cfg, st, op, now) && IsActive(st, id)
    ensures Carries(cfg, st, op, now, id)
  {
    if op.RevokeAccount? || op.RevokeAll? || op.RevokeOthers? || op.Evict? {
      DoomedIsEnds(st, op, id);
      EndOnActive(st, Doomed(st, op), Revoked, id);
      assert Step(cfg, st, op, now).sessions == End(st, Doomed(st, op), Revoked).sessions;
    } else if op.Heartbeat? || op.Progress? {
      TouchOnActive(cfg, st, op, now, id);
    } else {
      MilderStepOnActive(cfg, st, op, now, id);
    }
  }

  lemma TouchOnActive(cfg: Config, st: State, op: Op, now: int, id: string)
    requires SessionsInv(st) && IsActive(st, id) && (op.Heartbeat? || op.Progress?)
    ensures Carries(cfg, st, op, now, id)
  {
  }

  lemma MilderStepOnActive(cfg: Config, st: State, op: Op, now: int, id: string)
    requires SessionsInv(st) && IsActive(st, id)
    requires op.Admit? ==> op.session.id == SessionId(st.seqNo + 1)
    requires op.Admit? || op.TakeId? || op.Complete? || op.Sweep?
    ensures Carries(cfg, st, op, now, id)
  {
    if op.Admit? {
      NextIdIsNew(st);
    }
  }

  lemma SameSessionNursed(cfg: Config, a: Session, b: Session, seen: int, run: seq<Timed>)
    requires SameSession(a, b)
    ensures Nursed(cfg, a, seen, run) == Nursed(cfg, b, seen, run)
    decreases run
  {
    if run != [] {
      SameSessionNursed(cfg, a, b, if Refreshes(run[0].op, a) then run[0].now else seen, run[1..]);
    }
  }

  /** A session is still active at the end of a run exactly when it was nursed
      through it: proofs of life in time for every sweep, age within the TTL,
      and never revoked, evicted or completed. */
  lemma {:induction false} ActiveIffNursed(cfg: Config, st: State, run: seq<Timed>, id: string)
    requires Inv(cfg, st) && PermittedRun(cfg, st, run) && IsActive(st, id)
    ensures IsActive(RunFrom(cfg, st, run), id) <==> Nursed(cfg, st.sessions[id], LastSeen(st.sessions[id]), run)
    decreases run
  {
    if run != [] {
      var Timed(op, now) := run[0];
      var s, post := st.sessions[id], Step(cfg, st, op, now);
      StepKeepsInv(cfg, st, op, now);
      StepOnActive(cfg, st, op, now, id);
      if IsActive(post, id) {
        ActiveIffNursed(cfg, post, run[1..], id);
        SameSessionNursed(cfg, post.sessions[id], s, LastSeen(post.sessions[id]), run[1..]);
      } else {
        NeverReactivated(cfg, post, run[1..], id);
      }
    }
  }

  /** Within its TTL; a play session's heartbeat is within interval and grace, a
      download's progress within the TTL. */
  predicate InTime(cfg: Config, s: Session, now: int)
  {
    && now - s.createdAt <= cfg.ttl
    && (s.goal == Play ==> now - s.lastHeartbeat <= cfg.interval + cfg.grace)
    && (s.goal == Download ==> now - s.lastProgress <= cfg.ttl)
  }

  /** A sweep keeps exactly the sessions that are over already and those that gave
      proof of life in time and are within their TTL, and changes none of them. */
  lemma SweepIsExact(cfg: Config, st: State, now: int, id: string)
    ensures var post := Step(cfg, st, Sweep, now).sessions;
      && (id in post <==> id in st.sessions && (st.sessions[id].status in {Queued, Running} ==> InTime(cfg, st.sessions[id], now)))
      && (id in post ==> post[id] == st.sessions[id])
  {
  }
}
