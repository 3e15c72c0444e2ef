/** Delivery sessions as a state machine: admission, liveness, the four ways to
    end sessions, and the relay tickets that must end with them. */
module DeliverySpec {
  import opened Strings
  import opened Relays
  import Decimal

  datatype Goal = Play | Download
  datatype Status = Queued | Running | Done | Failed | Cancelled | Revoked

  /** Where a session's bytes go; the device sink remembers the relay token it
      staged for each track. */
  datatype Sink = NoSink | Device(tokens: map<string, string>) | Other

  datatype AccountKey = AccountKey(provider: string, account: string, member: string)

  datatype Session = Session(
    id: string,
    goal: Goal,
    status: Status,
    key: AccountKey,
    sink: Sink,
    createdAt: int,
    lastHeartbeat: int,
    lastProgress: int)
  {
    predicate Active() { status == Queued || status == Running }

    predicate On(provider: string, account: string)
    {
      key.provider == provider && key.account == account
    }
  }

  type Sessions = map<string, Session>
  type Index = map<AccountKey, set<string>>

  datatype State = State(sessions: Sessions, byAccount: Index, seqNo: nat, tickets: Tickets)

  const EMPTY := State(map[], map[], 0, map[])

  datatype Config = Config(ttl: int, interval: int, grace: int, memberLimit: int)

  function SessionId(n: nat): string
  {
    "del-" + Decimal.Itoa(n)
  }

  lemma SessionIdInjective(m: nat, n: nat)
    requires SessionId(m) == SessionId(n)
    ensures m == n
  {
    assert SessionId(m)[4..] == Decimal.Itoa(m) && SessionId(n)[4..] == Decimal.Itoa(n);
    Decimal.ItoaInjective(m, n);
  }

  // --- who is active where

  ghost function ActiveOf(sessions: Sessions, member: string): set<string>
  {
    set id | id in sessions && sessions[id].Active() && sessions[id].key.member == member
  }

  function ActiveOn(sessions: Sessions, provider: string, account: string): set<string>
  {
    set id | id in sessions && sessions[id].Active() && sessions[id].On(provider, account)
  }

  // --- ending sessions

  /** The sessions with exactly the doomed ones given a terminal status. */
  function Ended(sessions: Sessions, doomed: set<string>, status: Status): Sessions
  {
    map id | id in sessions :: if id in doomed then sessions[id].(status := status) else sessions[id]
  }

  /** The doomed sessions whose sink holds relay tickets. */
  function OnDevice(sessions: Sessions, doomed: set<string>): set<string>
  {
    set id | id in doomed && id in sessions && sessions[id].sink.Device?
  }

  function Deindexed(byAccount: Index, doomed: set<string>): Index
  {
    map key | key in byAccount :: byAccount[key] - doomed
  }

  /** Ends the doomed sessions: status, index entries and relay tickets. */
  function End(st: State, doomed: set<string>, status: Status): State
  {
    State(Ended(st.sessions, doomed, status), Deindexed(st.byAccount, doomed), st.seqNo,
          Without(st.tickets, OnDevice(st.sessions, doomed)))
  }

  // --- the sweep's verdict on one session

  predicate Alive(cfg: Config, s: Session, now: int)
  {
    && (if s.goal == Play then now - s.lastHeartbeat <= cfg.interval + cfg.grace
        else now - s.lastProgress <= cfg.ttl)
    && now - s.createdAt <= cfg.ttl
  }

  function Dead(cfg: Config, sessions: Sessions, now: int): set<string>
  {
    set id | id in sessions && sessions[id].Active() && !Alive(cfg, sessions[id], now)
  }

  /** The dead leave the map and the index; their tickets stay in the relay. */
  function Swept(st: State, dead: set<string>): State
  {
    st.(sessions := st.sessions - dead, byAccount := Deindexed(st.byAccount, dead))
  }

  // --- eviction order

  /** Started earlier, session ids breaking ties. */
  predicate Before(a: Session, b: Session)
  {
    a.createdAt < b.createdAt || (a.createdAt == b.createdAt && Leq(a.id, b.id))
  }

  /** `oldest` is the k sessions of `all` that come first. */
  ghost predicate AreOldest(sessions: Sessions, all: set<string>, oldest: set<string>, k: nat)
    requires all <= sessions.Keys
  {
    && oldest <= all && |oldest| == k
    && forall x, y :: x in oldest && y in all - oldest ==> Before(sessions[x], sessions[y])
  }

  function Excess(active: nat, limit: int): nat
  {
    if active > limit >= 0 then active - limit else 0
  }

  // --- operations

  datatype Op =
    | Admit(session: Session, granted: Tickets, limit: int)
    | TakeId
    | Heartbeat(id: string, member: string)
    | Progress(id: string, percent: nat)
    | RevokeAccount(key: AccountKey)
    | RevokeAll(account: string)
    | RevokeOthers(provider: string, account: string, keep: set<string>)
    | Evict(provider: string, account: string, limit: int, evicted: set<string>)
    | Complete(id: string)
    | Sweep

  function Indexed(byAccount: Index, key: AccountKey): set<string>
  {
    if key in byAccount then byAccount[key] else {}
  }

  /** The sessions an operation ends with a terminal status. */
  function Doomed(st: State, op: Op): set<string>
  {
    match op
    case RevokeAccount(key) => set id | id in Indexed(st.byAccount, key) && id in st.sessions
    case RevokeAll(account) => set id | id in st.sessions && st.sessions[id].key.account == account
    case RevokeOthers(p, a, keep) =>
      set id | id in ActiveOn(st.sessions, p, a) && st.sessions[id].key.member !in keep
    case Evict(_, _, _, evicted) => evicted
    case _ => {}
  }

  function Touched(cfg: Config, st: State, op: Op, now: int): Sessions
  {
    match op
    case Heartbeat(id, member) =>
      if id in st.sessions && st.sessions[id].key.member == member && st.sessions[id].Active()
      then st.sessions[id := st.sessions[id].(lastHeartbeat := now)] else st.sessions
    case Progress(id, percent) =>
      if id in st.sessions && st.sessions[id].Active() && percent <= 100
      then st.sessions[id := st.sessions[id].(lastProgress := now)] else st.sessions
    case _ => st.sessions
  }

  function Step(cfg: Config, st: State, op: Op, now: int): State
  {
    match op
    case Admit(s, granted, _) =>
      State(st.sessions[s.id := s], st.byAccount[s.key := Indexed(st.byAccount, s.key) + {s.id}],
            st.seqNo + 1, st.tickets + granted)
    case TakeId => st.(seqNo := st.seqNo + 1)
    case Heartbeat(_, _) => st.(sessions := Touched(cfg, st, op, now))
    case Progress(_, _) => st.(sessions := Touched(cfg, st, op, now))
    case RevokeAccount(key) =>
      End(st, Doomed(st, op), Revoked).(byAccount := st.byAccount - {key})
    case RevokeAll(_) => End(st, Doomed(st, op), Revoked)
    case RevokeOthers(_, _, _) => End(st, Doomed(st, op), Revoked)
    case Evict(_, _, _, _) => End(st, Doomed(st, op), Revoked)
    case Complete(id) =>
      st.(sessions := Ended(st.sessions, {id}, Done), tickets := Without(st.tickets, OnDevice(st.sessions, {id})))
    case Sweep => Swept(st, Dead(cfg, st.sessions, now))
  }

  /** The tokens a session's sink remembers are exactly its granted tickets. */
  ghost predicate Staged(s: Session, granted: Tickets)
  {
    && (forall token :: token in granted ==> granted[token].session == s.id)
    && (granted != map[] ==> s.sink.Device?)
    && (s.sink.Device? ==> forall track :: track in s.sink.tokens ==>
          s.sink.tokens[track] in granted && granted[s.sink.tokens[track]].track == track)
  }

  /** What the engine lets an operation do: an admission takes the next id and
      fits both caps; an eviction picks exactly the oldest excess. */
  ghost predicate Permitted(cfg: Config, st: State, op: Op, now: int)
  {
    match op
    case Admit(s, granted, limit) =>
      && s.id == SessionId(st.seqNo + 1) && s.status == Running
      && s.createdAt == s.lastHeartbeat == s.lastProgress == now
      && |ActiveOf(st.sessions, s.key.member)| < cfg.memberLimit
      && |ActiveOn(st.sessions, s.key.provider, s.key.account)| < limit
      && granted.Keys !! st.tickets.Keys
      && Staged(s, granted)
    case Evict(p, a, limit, evicted) =>
      AreOldest(st.sessions, ActiveOn(st.sessions, p, a), evicted, Excess(|ActiveOn(st.sessions, p, a)|, limit))
    case _ => true
  }

  // --- the invariant of every reachable state

  predicate Issued(id: string, seqNo: nat)
  {
    exists n :: 1 <= n <= seqNo && id == SessionId(n)
  }

  ghost predicate SessionsInv(st: State)
  {
    forall id :: id in st.sessions ==> st.sessions[id].id == id && Issued(id, st.seqNo)
  }

  /** Every active session is indexed under its own key, and every indexed id
      is a stored session with that key. */
  ghost predicate IndexInv(st: State)
  {
    && (forall id :: id in st.sessions && st.sessions[id].Active() ==> id in Indexed(st.byAccount, st.sessions[id].key))
    && (forall key, id :: key in st.byAccount && id in st.byAccount[key] ==> id in st.sessions && st.sessions[id].key == key)
  }

  ghost predicate CapInv(cfg: Config, st: State)
  {
    forall member :: |ActiveOf(st.sessions, member)| <= if cfg.memberLimit > 0 then cfg.memberLimit else 0
  }

  /** A ticket of a session still held implies that session is active, and was
      staged through a device sink. */
  ghost predicate TicketInv(st: State)
  {
    forall token :: token in st.tickets ==>
      var id := st.tickets[token].session;
      Issued(id, st.seqNo) && (id in st.sessions ==> st.sessions[id].Active() && st.sessions[id].sink.Device?)
  }

  /** The menu of an active session stays pullable: each staged track's token
      is a live ticket of that session for that track. */
  ghost predicate MenuInv(st: State)
  {
    forall id, track ::
      (id in st.sessions && st.sessions[id].Active() && st.sessions[id].sink.Device? && track in st.sessions[id].sink.tokens) ==>
      var token := st.sessions[id].sink.tokens[track];
      token in st.tickets && st.tickets[token].session == id && st.tickets[token].track == track
  }

  ghost predicate Inv(cfg: Config, st: State)
  {
    SessionsInv(st) && IndexInv(st) && CapInv(cfg, st) && TicketInv(st) && MenuInv(st)
  }

  // --- preservation, one part of the invariant at a time

  lemma NextIdIsNew(st: State)
    requires SessionsInv(st)
    ensures !Issued(SessionId(st.seqNo + 1), st.seqNo)
    ensures SessionId(st.seqNo + 1) !in st.sessions
    ensures TicketInv(st) ==>
      forall token :: token in st.tickets ==> st.tickets[token].session != SessionId(st.seqNo + 1)
  {
    forall n: nat | SessionId(n) == SessionId(st.seqNo + 1) ensures n == st.seqNo + 1 {
      SessionIdInjective(n, st.seqNo + 1);
    }
  }

  /** Ending only ever takes activity away. */
  lemma FewerActive(a: Sessions, b: Sessions, member: string)
    requires forall id :: id in b && b[id].Active() ==> id in a && a[id].Active() && a[id].key == b[id].key
    ensures |ActiveOf(b, member)| <= |ActiveOf(a, member)|
  {
    assert ActiveOf(b, member) <= ActiveOf(a, member);
    SubsetSize(ActiveOf(b, member), ActiveOf(a, member));
  }

  lemma SubsetSize<T>(a: set<T>, b: set<T>)
    requires a <= b
    ensures |a| <= |b|
  {
    assert b == a + (b - a);
  }

  /** The index may be trimmed in any way that keeps the survivors listed. */
  ghost predicate Trims(st: State, doomed: set<string>, byAccount: Index)
  {
    && (forall key, id :: key in byAccount && id in byAccount[key] ==> id in Indexed(st.byAccount, key))
    && (forall id :: id in st.sessions && st.sessions[id].Active() && id !in doomed ==> id in Indexed(byAccount, st.sessions[id].key))
  }

  predicate Terminal(status: Status) { status != Queued && status != Running }

  /** Ending sessions keeps the invariant, however the index is trimmed. */
  lemma EndKeepsInv(cfg: Config, st: State, doomed: set<string>, status: Status, byAccount: Index)
    requires Inv(cfg, st) && Terminal(status) && Trims(st, doomed, byAccount)
    ensures Inv(cfg, End(st, doomed, status).(byAccount := byAccount))
  {
    EndKeepsIndex(st, doomed, status, byAccount);
    EndKeepsCaps(cfg, st, doomed, status, byAccount);
    EndKeepsTickets(st, doomed, status, byAccount);
    EndKeepsMenu(st, doomed, status, byAccount);
  }

  lemma EndKeepsIndex(st: State, doomed: set<string>, status: Status, byAccount: Index)
    requires SessionsInv(st) && IndexInv(st) && Terminal(status) && Trims(st, doomed, byAccount)
    ensures var post := End(st, doomed, status).(byAccount := byAccount); SessionsInv(post) && IndexInv(post)
  {
  }

  lemma EndKeepsCaps(cfg: Config, st: State, doomed: set<string>, status: Status, byAccount: Index)
    requires CapInv(cfg, st) && Terminal(status)
    ensures CapInv(cfg, End(st, doomed, status).(byAccount := byAccount))
  {
    var ended := Ended(st.sessions, doomed, status);
    forall member ensures |ActiveOf(ended, member)| <= |ActiveOf(st.sessions, member)| {
      FewerActive(st.sessions, ended, member);
    }
  }

  lemma EndKeepsTickets(st: State, doomed: set<string>, status: Status, byAccount: Index)
    requires TicketInv(st)
    ensures TicketInv(End(st, doomed, status).(byAccount := byAccount))
  {
  }

  lemma EndKeepsMenu(st: State, doomed: set<string>, status: Status, byAccount: Index)
    requires MenuInv(st) && Terminal(status)
    ensures MenuInv(End(st, doomed, status).(byAccount := byAccount))
  {
  }

  lemma AdmitKeepsInv(cfg: Config, st: State, op: Op, now: int)
    requires Inv(cfg, st) && op.Admit? && Permitted(cfg, st, op, now)
    ensures Inv(cfg, Step(cfg, st, op, now))
  {
    NextIdIsNew(st);
    AdmitKeepsIndex(cfg, st, op, now);
    AdmitKeepsCaps(cfg, st, op, now);
    AdmitKeepsTickets(cfg, st, op, now);
    AdmitKeepsMenu(cfg, st, op, now);
  }

  lemma AdmitKeepsIndex(cfg: Config, st: State, op: Op, now: int)
    requires SessionsInv(st) && IndexInv(st) && op.Admit? && op.session.id == SessionId(st.seqNo + 1)
    requires op.session.id !in st.sessions
    ensures var post := Step(cfg, st, op, now); SessionsInv(post) && IndexInv(post)
  {
    var post := Step(cfg, st, op, now);
    assert Issued(op.session.id, post.seqNo);
  }

  lemma OneMoreActive(sessions: Sessions, s: Session, member: string)
    requires s.id !in sessions
    ensures ActiveOf(sessions[s.id := s], member) ==
      ActiveOf(sessions, member) + (if member == s.key.member && s.Active() then {s.id} else {})
  {
  }

  lemma AdmitKeepsCaps(cfg: Config, st: State, op: Op, now: int)
    requires CapInv(cfg, st) && op.Admit? && op.session.id !in st.sessions
    requires |ActiveOf(st.sessions, op.session.key.member)| < cfg.memberLimit
    ensures CapInv(cfg, Step(cfg, st, op, now))
  {
    var s := op.session;
    var more := st.sessions[s.id := s];
    forall member ensures |ActiveOf(more, member)| <= if cfg.memberLimit > 0 then cfg.memberLimit else 0 {
      OneMoreActive(st.sessions, s, member);
    }
  }

  lemma AdmitKeepsTickets(cfg: Config, st: State, op: Op, now: int)
    requires SessionsInv(st) && TicketInv(st) && op.Admit? && Permitted(cfg, st, op, now)
    ensures TicketInv(Step(cfg, st, op, now))
  {
    var s, post := op.session, Step(cfg, st, op, now);
    NextIdIsNew(st);
    assert Issued(s.id, post.seqNo);
  }

  lemma AdmitKeepsMenu(cfg: Config, st: State, op: Op, now: int)
    requires SessionsInv(st) && MenuInv(st) && op.Admit? && Permitted(cfg, st, op, now)
    ensures MenuInv(Step(cfg, st, op, now))
  {
    NextIdIsNew(st);
  }

  lemma SweepKeepsInv(cfg: Config, st: State, dead: set<string>)
    requires Inv(cfg, st)
    ensures Inv(cfg, Swept(st, dead))
  {
    var post := Swept(st, dead);
    forall member ensures |ActiveOf(post.sessions, member)| <= |ActiveOf(st.sessions, member)| {
      FewerActive(st.sessions, post.sessions, member);
    }
  }

  lemma TouchKeepsInv(cfg: Config, st: State, sessions: Sessions)
    requires Inv(cfg, st) && sessions.Keys == st.sessions.Keys
    requires forall id :: id in sessions ==> exists beat, progress ::
      sessions[id] == st.sessions[id].(lastHeartbeat := beat, lastProgress := progress)
    ensures Inv(cfg, st.(sessions := sessions))
  {
    forall member ensures |ActiveOf(sessions, member)| <= |ActiveOf(st.sessions, member)| {
      FewerActive(st.sessions, sessions, member);
    }
  }

  lemma TakeIdKeepsInv(cfg: Config, st: State)
    requires Inv(cfg, st)
    ensures Inv(cfg, st.(seqNo := st.seqNo + 1))
  {
  }

  lemma RevokeAccountKeepsInv(cfg: Config, st: State, key: AccountKey, now: int)
    requires Inv(cfg, st)
    ensures Inv(cfg, Step(cfg, st, RevokeAccount(key), now))
  {
    EndKeepsInv(cfg, st, Doomed(st, RevokeAccount(key)), Revoked, st.byAccount - {key});
  }

  lemma DeindexingKeepsInv(cfg: Config, st: State, doomed: set<string>)
    requires Inv(cfg, st)
    ensures Inv(cfg, End(st, doomed, Revoked))
  {
    EndKeepsInv(cfg, st, doomed, Revoked, Deindexed(st.byAccount, doomed));
  }

  lemma CompleteKeepsInv(cfg: Config, st: State, id: string, now: int)
    requires Inv(cfg, st)
    ensures Inv(cfg, Step(cfg, st, Complete(id), now))
  {
    EndKeepsInv(cfg, st, {id}, Done, st.byAccount);
  }

  /** Every permitted operation preserves the engine invariant. */
  lemma StepKeepsInv(cfg: Config, st: State, op: Op, now: int)
    requires Inv(cfg, st) && Permitted(cfg, st, op, now)
    ensures Inv(cfg, Step(cfg, st, op, now))
  {
    match op {
      case Admit(_, _, _) => AdmitKeepsInv(cfg, st, op, now);
      case TakeId => TakeIdKeepsInv(cfg, st);
      case Heartbeat(_, _) => TouchKeepsInv(cfg, st, Touched(cfg, st, op, now));
      case Progress(_, _) => TouchKeepsInv(cfg, st, Touched(cfg, st, op, now));
      case RevokeAccount(key) => RevokeAccountKeepsInv(cfg, st, key, now);
      case RevokeAll(_) => DeindexingKeepsInv(cfg, st, Doomed(st, op));
      case RevokeOthers(_, _, _) => DeindexingKeepsInv(cfg, st, Doomed(st, op));
      case Evict(_, _, _, _) => DeindexingKeepsInv(cfg, st, Doomed(st, op));
      case Complete(id) => CompleteKeepsInv(cfg, st, id, now);
      case Sweep => SweepKeepsInv(cfg, st, Dead(cfg, st.sessions, now));
    }
  }
}
