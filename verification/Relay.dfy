/** The byte-stream relay: session-scoped, expiring tickets. */
module Relays {
  import opened Optional
  import Strings

  datatype Ticket = Ticket(session: string, track: string, expiry: int)

  type Tickets = map<string, Ticket>

  /** The tickets left once every ticket of these sessions is dropped. */
  function Without(tickets: Tickets, sessions: set<string>): Tickets
  {
    map token | token in tickets && tickets[token].session !in sessions :: tickets[token]
  }

  lemma WithoutTwice(tickets: Tickets, a: set<string>, b: set<string>)
    ensures Without(Without(tickets, a), b) == Without(tickets, a + b)
  {
  }

  class Relay {
    var tickets: Tickets

    constructor ()
      ensures tickets == map[]
    {
      tickets := map[];
    }

    method Grant(session: string, track: string, ttl: int, now: int) returns (token: Option<string>)
      modifies this
      ensures token.Some? <==> session != "" && track != "" && ttl > 0
      ensures token.Some? ==> token.value !in old(tickets)
      ensures token.Some? ==> tickets == old(tickets)[token.value := Ticket(session, track, now + ttl)]
      ensures token.None? ==> tickets == old(tickets)
    {
      if session == "" || track == "" || ttl <= 0 {
        return None;
      }
      var tok := Strings.NewName(tickets.Keys);
      tickets := tickets[tok := Ticket(session, track, now + ttl)];
      return Some(tok);
    }

    /** A token resolves while its ticket is held and has not expired. */
    method Open(token: string, now: int) returns (ticket: Option<Ticket>)
      ensures ticket == (if token in tickets && now <= tickets[token].expiry then Some(tickets[token]) else None)
    {
      if token !in tickets {
        return None;
      }
      if now > tickets[token].expiry {
        return None;
      }
      return Some(tickets[token]);
    }

    /** Drops every ticket granted to one session and no other. */
    method Revoke(session: string)
      modifies this
      ensures tickets == Without(old(tickets), {session})
      ensures tickets == map token | token in old(tickets) && old(tickets)[token].session != session :: old(tickets)[token]
    {
      var rest := tickets.Keys;
      while rest != {}
        invariant rest <= old(tickets).Keys
        invariant tickets == map token | token in old(tickets) && (token in rest || old(tickets)[token].session != session)
                               :: old(tickets)[token]
        decreases rest
      {
        var token :| token in rest;
        rest := rest - {token};
        if tickets[token].session == session {
          tickets := tickets - {token};
        }
      }
    }
  }
}
