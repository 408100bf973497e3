/** server/udp_relay.py: the raw UDP relay. */
module UdpRelay {
  import opened Bytes
  import opened Text

  const SESSION_PREFIX_LEN := 16

  type Addr = (string, nat)
  type Session = seq<byte>

  /** The two parties of a session, as far as they have been heard from. */
  datatype Parties = Parties(a: Option<Addr>, b: Option<Addr>)

  datatype State = State(endpoints: map<Session, Parties>, homes: map<Addr, Session>)

  const NOBODY := Parties(None, None)
  const START := State(map[], map[])

  datatype Datagram = Datagram(data: seq<byte>, addr: Addr)

  function PartiesOf(s: State, session: Session): Parties {
    if session in s.endpoints then s.endpoints[session] else NOBODY
  }

  function SessionOf(d: Datagram): Session
    requires |d.data| >= SESSION_PREFIX_LEN
  {
    d.data[..SESSION_PREFIX_LEN]
  }

  function Register(s: State, session: Session, parties: Parties, addr: Addr): State {
    State(s.endpoints[session := parties], s.homes[addr := session])
  }

  /** One datagram: the new state, and the datagram sent on (its `addr` is where it goes). */
  function Receive(s: State, d: Datagram): (State, Option<Datagram>) {
    if |d.data| < SESSION_PREFIX_LEN then (s, None)
    else
      var session := SessionOf(d);
      var p := PartiesOf(s, session);
      var t := s.(endpoints := s.endpoints[session := p]);
      if d.addr !in s.homes then
        if p.a.None? then (Register(t, session, p.(a := Some(d.addr)), d.addr), None)
        else if p.b.None? then (Register(t, session, p.(b := Some(d.addr)), d.addr), None)
        else (t, None)
      else if p.a.None? || p.b.None? then (t, None)
      else (t, Some(Datagram(d.data, if d.addr == p.a.value then p.b.value else p.a.value)))
  }

  class UdpRelay {
    var endpoints: map<Session, Parties>
    var homes: map<Addr, Session>

    function View(): State
      reads this
    {
      State(endpoints, homes)
    }

    constructor ()
      ensures View() == START
    {
      endpoints, homes := map[], map[];
    }

    /** datagram_received, with the transport attached. */
    method DatagramReceived(data: seq<byte>, addr: Addr) returns (sent: Option<Datagram>)
      modifies this
      ensures View() == Receive(old(View()), Datagram(data, addr)).0
      ensures sent == Receive(old(View()), Datagram(data, addr)).1
    {
      if |data| < SESSION_PREFIX_LEN {
        return None;
      }
      var session := data[..SESSION_PREFIX_LEN];
      if session !in endpoints {
        endpoints := endpoints[session := NOBODY];
      }
      var parties := endpoints[session];
      if addr !in homes {
        if parties.a.None? {
          endpoints, homes := endpoints[session := parties.(a := Some(addr))], homes[addr := session];
        } else if parties.b.None? {
          endpoints, homes := endpoints[session := parties.(b := Some(addr))], homes[addr := session];
        }
        return None;
      }
      if parties.a.None? || parties.b.None? {
        return None;
      }
      var target := if addr == parties.a.value then parties.b.value else parties.a.value;
      return Some(Datagram(data, target));
    }
  }

  // ---------------------------------------------------------------- the two maps

  ghost predicate IsParty(s: State, addr: Addr, session: Session) {
    var p := PartiesOf(s, session);
    p.a == Some(addr) || p.b == Some(addr)
  }

  /** Both maps say the same: an address belongs to a session in one exactly when it does in the
      other; a is registered before b, and they differ. */
  ghost predicate Agree(s: State) {
    && (forall addr: Addr, session: Session ::
          IsParty(s, addr, session) <==> addr in s.homes && s.homes[addr] == session)
    && (forall session :: session in s.endpoints ==>
          var p := s.endpoints[session];
          (p.b.Some? ==> p.a.Some?) && (p.a.Some? && p.b.Some? ==> p.a != p.b))
  }

  /** Registrations are never changed or lost. */
  ghost predicate Keeps(s: State, t: State) {
    && (forall addr :: addr in s.homes ==> addr in t.homes && t.homes[addr] == s.homes[addr])
    && (forall session :: session in s.endpoints ==>
          && session in t.endpoints
          && (s.endpoints[session].a.Some? ==> t.endpoints[session].a == s.endpoints[session].a)
          && (s.endpoints[session].b.Some? ==> t.endpoints[session].b == s.endpoints[session].b))
  }

  lemma RegisterAgrees(s: State, session: Session, parties: Parties, addr: Addr)
    requires Agree(s) && addr !in s.homes
    requires var p := PartiesOf(s, session);
             || (p.a.None? && parties == Parties(Some(addr), p.b))
             || (p.a.Some? && p.b.None? && parties == Parties(p.a, Some(addr)))
    ensures Agree(Register(s, session, parties, addr))
  {
    var t := Register(s, session, parties, addr);
    assert !IsParty(s, addr, session);
    forall x: Addr, other: Session
      ensures IsParty(t, x, other) <==> x in t.homes && t.homes[x] == other
    {
      assert IsParty(s, x, other) <==> x in s.homes && s.homes[x] == other;
      assert other != session ==> PartiesOf(t, other) == PartiesOf(s, other);
    }
  }

  lemma OpenAgrees(s: State, session: Session)
    requires Agree(s)
    ensures Agree(s.(endpoints := s.endpoints[session := PartiesOf(s, session)]))
  {
    var t := s.(endpoints := s.endpoints[session := PartiesOf(s, session)]);
    forall x: Addr, other: Session
      ensures IsParty(t, x, other) <==> IsParty(s, x, other)
    {
    }
  }

  lemma ReceiveAgrees(s: State, d: Datagram)
    requires Agree(s)
    ensures Agree(Receive(s, d).0) && Keeps(s, Receive(s, d).0)
  {
    if |d.data| >= SESSION_PREFIX_LEN {
      var session := SessionOf(d);
      var p := PartiesOf(s, session);
      var t := s.(endpoints := s.endpoints[session := p]);
      OpenAgrees(s, session);
      if d.addr !in s.homes && p.a.None? {
        RegisterAgrees(t, session, p.(a := Some(d.addr)), d.addr);
      } else if d.addr !in s.homes && p.b.None? {
        RegisterAgrees(t, session, p.(b := Some(d.addr)), d.addr);
      }
    }
  }

  function Run(s: State, ds: seq<Datagram>): (State, seq<Datagram>)
    decreases |ds|
  {
    if |ds| == 0 then (s, [])
    else
      var r := Receive(s, ds[0]);
      var rest := Run(r.0, ds[1..]);
      (rest.0, (if r.1.Some? then [r.1.value] else []) + rest.1)
  }

  /** In every reachable state the maps agree, and nothing registered before has changed. */
  lemma {:induction false} RunAgrees(s: State, ds: seq<Datagram>)
    requires Agree(s)
    ensures Agree(Run(s, ds).0) && Keeps(s, Run(s, ds).0)
    decreases |ds|
  {
    if |ds| > 0 {
      ReceiveAgrees(s, ds[0]);
      RunAgrees(Receive(s, ds[0]).0, ds[1..]);
    }
  }

  lemma ReachableAgrees(ds: seq<Datagram>)
    ensures Agree(Run(START, ds).0)
  {
    RunAgrees(START, ds);
  }

  // ---------------------------------------------------------------- forwarding

  /** Between the parties of a session every datagram passes, either way and unmodified. */
  lemma PartiesAreConnected(s: State, data: seq<byte>, a: Addr, b: Addr)
    requires Agree(s) && |data| >= 16 && PartiesOf(s, data[..16]) == Parties(Some(a), Some(b))
    ensures Receive(s, Datagram(data, a)) == (s, Some(Datagram(data, b)))
    ensures Receive(s, Datagram(data, b)) == (s, Some(Datagram(data, a)))
  {
    var session := data[..16];
    assert IsParty(s, a, session) && IsParty(s, b, session);
    assert session in s.endpoints && s.endpoints[session := s.endpoints[session]] == s.endpoints;
  }

  /** A sender that is not registered becomes a party of the session it names exactly when that has a
      place left; no datagram registers anybody else, or its sender twice. */
  lemma RegisteredIff(s: State, d: Datagram)
    requires Agree(s)
    ensures Receive(s, d).0.homes
         == if |d.data| >= 16 && d.addr !in s.homes && PartiesOf(s, d.data[..16]).b.None?
            then s.homes[d.addr := d.data[..16]] else s.homes
  {
    if |d.data| >= 16 {
      assert PartiesOf(s, d.data[..16]).a.None? ==> PartiesOf(s, d.data[..16]).b.None?;
    }
  }

  /** A datagram is sent on exactly when it is long enough to name a session, its sender is
      registered, and both parties of the session it names are. It is sent unmodified to a party of
      that session: from one party to the other exactly when the sender's own session is the one it
      names; a sender registered elsewhere is not checked, and reaches party a. */
  lemma Forwarding(s: State, d: Datagram)
    requires Agree(s)
    ensures Receive(s, d).1.Some?
       <==> |d.data| >= 16 && d.addr in s.homes
            && PartiesOf(s, d.data[..16]).a.Some? && PartiesOf(s, d.data[..16]).b.Some?
    ensures Receive(s, d).1.Some? ==>
              var to, session := Receive(s, d).1.value, d.data[..16];
              && to.data == d.data && IsParty(s, to.addr, session)
              && (s.homes[d.addr] == session <==> to.addr != d.addr && IsParty(s, d.addr, session))
              && (s.homes[d.addr] != session ==> Some(to.addr) == PartiesOf(s, session).a)
  {
    if Receive(s, d).1.Some? {
      assert SessionOf(d) in s.endpoints;
      assert IsParty(s, d.addr, SessionOf(d)) <==> d.addr in s.homes && s.homes[d.addr] == SessionOf(d);
    }
  }

  /** The first two senders of a new session become its parties, and nothing is sent. */
  lemma Opened(s: State, session: Session, a: Addr, b: Addr) returns (t: State)
    requires |session| == 16 && session !in s.endpoints
    requires a !in s.homes && b !in s.homes && a != b
    ensures var r := Receive(s, Datagram(session, a));
            var q := Receive(r.0, Datagram(session, b));
            r.1 == None && q.1 == None && t == q.0
    ensures t.homes == s.homes[a := session][b := session]
    ensures forall other :: other != session ==> PartiesOf(t, other) == PartiesOf(s, other)
    ensures forall other :: other in t.endpoints <==> other in s.endpoints || other == session
    ensures PartiesOf(t, session) == Parties(Some(a), Some(b))
  {
    assert session[..16] == session;
    var r := Receive(s, Datagram(session, a));
    assert r.0.homes == s.homes[a := session];
    assert PartiesOf(r.0, session) == Parties(Some(a), None);
    t := Receive(r.0, Datagram(session, b)).0;
  }

  lemma RunCons(s: State, d: Datagram, rest: seq<Datagram>)
    ensures var r := Receive(s, d);
            Run(s, [d] + rest).1 == (if r.1.Some? then [r.1.value] else []) + Run(r.0, rest).1
  {
    assert ([d] + rest)[1..] == rest;
  }

  lemma RunTwo(s: State, d: Datagram, e: Datagram, rest: seq<Datagram>)
    requires Receive(s, d).1 == None && Receive(Receive(s, d).0, e).1 == None
    ensures Run(s, [d, e] + rest).1 == Run(Receive(Receive(s, d).0, e).0, rest).1
  {
    RunCons(s, d, [e] + rest);
    RunCons(Receive(s, d).0, e, rest);
    assert [d] + ([e] + rest) == [d, e] + rest;
    assert [] + Run(Receive(Receive(s, d).0, e).0, rest).1 == Run(Receive(Receive(s, d).0, e).0, rest).1;
  }

  /** The five-datagram run in which a party of session y writes into session x: the relay sends its
      bytes to party a of x. */
  lemma ForeignSenderIsForwarded(x: Session, y: Session, a: Addr, b: Addr, c: Addr, d: Addr)
    requires |x| == 16 && |y| == 16 && x != y
    requires a != b && a != c && a != d && b != c && b != d && c != d
    ensures Run(START, [Datagram(x, a), Datagram(x, b), Datagram(y, c), Datagram(y, d), Datagram(x, c)]).1
         == [Datagram(x, a)]
  {
    assert x[..16] == x && y[..16] == y;
    var s2 := Opened(START, x, a, b);
    var s4 := Opened(s2, y, c, d);
    assert Receive(s4, Datagram(x, c)).1 == Some(Datagram(x, a));
    RunCons(s4, Datagram(x, c), []);
    assert [Datagram(x, c)] + [] == [Datagram(x, c)];
    RunTwo(s2, Datagram(y, c), Datagram(y, d), [Datagram(x, c)]);
    RunTwo(START, Datagram(x, a), Datagram(x, b), [Datagram(y, c), Datagram(y, d), Datagram(x, c)]);
    assert [Datagram(y, c), Datagram(y, d)] + [Datagram(x, c)] == [Datagram(y, c), Datagram(y, d), Datagram(x, c)];
    assert [Datagram(x, a), Datagram(x, b)] + [Datagram(y, c), Datagram(y, d), Datagram(x, c)]
        == [Datagram(x, a), Datagram(x, b), Datagram(y, c), Datagram(y, d), Datagram(x, c)];
  }

  // ---------------------------------------------------------------- sessions do not interfere

  predicate Names(d: Datagram, session: Session) {
    |d.data| >= SESSION_PREFIX_LEN && SessionOf(d) == session
  }

  function Restrict(ds: seq<Datagram>, session: Session): seq<Datagram> {
    if |ds| == 0 then []
    else (if Names(ds[0], session) then [ds[0]] else []) + Restrict(ds[1..], session)
  }

  /** Every address keeps to one session. */
  ghost predicate OneSessionEach(ds: seq<Datagram>, home: Addr -> Session) {
    forall i :: 0 <= i < |ds| && |ds[i].data| >= SESSION_PREFIX_LEN ==> SessionOf(ds[i]) == home(ds[i].addr)
  }

  /** The two states cannot be told apart by the addresses of `session`. */
  ghost predicate SameFor(s: State, t: State, home: Addr -> Session, session: Session) {
    && PartiesOf(s, session) == PartiesOf(t, session)
    && forall addr: Addr :: home(addr) == session ==> (addr in s.homes <==> addr in t.homes)
  }

  lemma ReceiveSame(s: State, t: State, d: Datagram, home: Addr -> Session, session: Session)
    requires SameFor(s, t, home, session)
    requires |d.data| >= SESSION_PREFIX_LEN ==> SessionOf(d) == home(d.addr)
    ensures Names(d, session) ==>
              Receive(s, d).1 == Receive(t, d).1 && SameFor(Receive(s, d).0, Receive(t, d).0, home, session)
    ensures !Names(d, session) ==>
              && SameFor(Receive(s, d).0, t, home, session)
              && (Receive(s, d).1.Some? ==> !Names(Receive(s, d).1.value, session))
  {
  }

  lemma ForwardedNames(s: State, d: Datagram)
    requires |d.data| >= SESSION_PREFIX_LEN
    ensures Receive(s, d).1.Some? ==> Names(Receive(s, d).1.value, SessionOf(d))
  {
  }

  lemma RestrictStep(first: Option<Datagram>, rest: seq<Datagram>, session: Session)
    ensures Restrict((if first.Some? then [first.value] else []) + rest, session)
         == (if first.Some? && Names(first.value, session) then [first.value] else []) + Restrict(rest, session)
  {
    if first.Some? {
      assert ([first.value] + rest)[1..] == rest;
    } else {
      assert [] + rest == rest;
    }
  }

  lemma {:induction false} RunsSame(s: State, t: State, ds: seq<Datagram>, home: Addr -> Session, session: Session)
    requires SameFor(s, t, home, session) && OneSessionEach(ds, home)
    ensures Restrict(Run(s, ds).1, session) == Run(t, Restrict(ds, session)).1
    ensures SameFor(Run(s, ds).0, Run(t, Restrict(ds, session)).0, home, session)
    decreases |ds|
  {
    if |ds| > 0 {
      var r := Receive(s, ds[0]);
      ReceiveSame(s, t, ds[0], home, session);
      var rest := Run(r.0, ds[1..]).1;
      RestrictStep(r.1, rest, session);
      if Names(ds[0], session) {
        RunsSame(r.0, Receive(t, ds[0]).0, ds[1..], home, session);
        var own := Restrict(ds[1..], session);
        assert Restrict(ds, session) == [ds[0]] + own;
        assert ([ds[0]] + own)[1..] == own;
        ForwardedNames(s, ds[0]);
      } else {
        RunsSame(r.0, t, ds[1..], home, session);
        assert Restrict(ds, session) == Restrict(ds[1..], session);
      }
    }
  }

  /** Non-interference: if each address uses one session, the datagrams sent for a session in any
      run are those of the run in which only that session's datagrams arrive. */
  lemma SessionsDoNotInterfere(ds: seq<Datagram>, home: Addr -> Session, session: Session)
    requires OneSessionEach(ds, home)
    ensures Restrict(Run(START, ds).1, session) == Run(START, Restrict(ds, session)).1
  {
    RunsSame(START, START, ds, home, session);
  }
}
