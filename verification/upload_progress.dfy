/** Why an upload gets on: the two sides of a connection never wait for each other, every step of
    a handler whose client waits brings the next line nearer, and a connection that is left alone
    carries exactly the lines the protocol prescribes. */
module UploadProgress {
  import opened Bytes
  import opened Crypto
  import opened Sets
  import opened Frames
  import opened ChunkStore
  import opened TcpServer
  import opened UploadNetwork

  // ---------------------------------------------------------------- nobody waits in vain

  /** Nothing more will be written to this connection. */
  predicate Silent(conn: Conn) {
    conn.broken || conn.pc.Ended?
  }

  /** The handler waits for something to arrive, or has ended. */
  predicate Stuck(conn: Conn) {
    match conn.pc
    case Opened => !conn.hello && !conn.broken
    case Reading => conn.inbox == [] && !conn.broken
    case Ended => true
    case _ => false
  }

  lemma StuckIff(s: Store, total: int, conn: Conn)
    ensures HandlerStep(s, total, conn) == (s, conn) <==> Stuck(conn)
  {
  }

  /** What the client has sent when it reads: a frame for every line read, or every chunk the
      server did not list and one line more. */
  ghost predicate Due(n: nat, conn: Conn) {
    conn.read == |conn.log| || (conn.read == 1 + |conn.log| && !Lacks(n, conn.listed, conn.log))
  }

  /** A handler that waits for a frame has answered every frame, and lacks a chunk that the client
      was not told it has and has not sent. */
  lemma StarvedHandler(f: Suite, chunks: seq<seq<byte>>, s: Store, conn: Conn)
    requires ConnOk(f, chunks, s, conn) && ConnLive(|chunks|, conn)
    requires !conn.broken && conn.pc.Reading? && conn.inbox == []
    ensures |conn.lines| == 1 + |conn.log|
    ensures Lacks(|chunks|, conn.listed, conn.log)
  {
    assert conn.log[..conn.taken] == conn.log;
  }

  /** Deadlock freedom: while the client of a connection waits for a line, its handler can step. */
  lemma DeadlockFree(f: Suite, chunks: seq<seq<byte>>, net: Net, c: nat)
    requires NetOk(f, chunks, net) && c < |net.conns|
    requires !Silent(net.conns[c]) && Due(|chunks|, net.conns[c]) && net.conns[c].read == |net.conns[c].lines|
    ensures !Stuck(net.conns[c])
  {
    var conn := net.conns[c];
    assert ConnOk(f, chunks, net.store, conn) && ConnLive(|chunks|, conn);
    if conn.pc.Reading? && conn.inbox == [] {
      StarvedHandler(f, chunks, net.store, conn);
    }
  }

  /** How many steps the handler is away from writing its next line. */
  function Rank(pc: Pc): nat {
    match pc
    case Opened => 2
    case Listed => 1
    case AtCheck => 4
    case Reading => 3
    case Storing(_, _) => 2
    case Acking => 1
    case Finishing => 1
    case Ended => 0
  }

  lemma RankFalls(s: Store, total: int, conn: Conn)
    requires !conn.broken && !Stuck(conn)
    ensures || |HandlerStep(s, total, conn).1.lines| == |conn.lines| + 1
            || Rank(HandlerStep(s, total, conn).1.pc) < Rank(conn.pc)
  {
  }

  // ---------------------------------------------------------------- a connection left alone

  /** Line j of an undisturbed connection. */
  function Prescribed(conn: Conn, j: nat): string {
    if j == 0 then HaveLine(conn.listed) else if j <= conn.acks then ACK else DONE
  }

  ghost predicate LinesPrescribed(conn: Conn) {
    forall j :: 0 <= j < |conn.lines| ==> conn.lines[j] == Prescribed(conn, j)
  }

  function Written(conn: Conn): nat {
    match conn.pc
    case Opened => 0
    case Listed => 0
    case Ended => 2 + conn.acks
    case _ => 1 + conn.acks
  }

  /** Nothing has happened to the connection: HAVE, an ACK for each frame, and DONE at the end. */
  ghost predicate Orderly(conn: Conn) {
    && !conn.broken && |conn.lines| == Written(conn) && LinesPrescribed(conn)
    && (conn.pc.Finishing? || conn.pc.Ended? ==> conn.taken == conn.acks)
  }

  lemma WritesPrescribed(conn: Conn, line: string, next: Conn)
    requires LinesPrescribed(conn) && !conn.broken && |conn.lines| <= 1 + conn.acks <= 1 + next.acks
    requires next.lines == conn.lines + [line] && next.listed == conn.listed && line == Prescribed(next, |conn.lines|)
    ensures LinesPrescribed(next)
  {
    assert forall j :: 0 <= j < |conn.lines| ==> next.lines[j] == conn.lines[j] == Prescribed(conn, j);
  }

  lemma HandlerOrderly(f: Suite, chunks: seq<seq<byte>>, s: Store, conn: Conn)
    requires ConnOk(f, chunks, s, conn) && Orderly(conn)
    ensures Orderly(HandlerStep(s, |chunks|, conn).1)
  {
    var next := HandlerStep(s, |chunks|, conn).1;
    match conn.pc
    case Listed => WritesPrescribed(conn, HaveLine(conn.listed), next);
    case Acking => WritesPrescribed(conn, ACK, next);
    case Finishing => WritesPrescribed(conn, DONE, next);
    case Reading =>
      if |conn.inbox| > 0 {
        assert Honest(f, chunks, conn.inbox[0]);
        DigestUntouched(conn.inbox[0].checksum);
      }
    case _ =>
  }

  /** Nobody but this handler has recorded anything since the connection was opened. */
  ghost predicate Own(s: Store, conn: Conn) {
    if conn.pc.Opened? then s.rows.Keys == conn.initial
    else
      && conn.listed == conn.initial && conn.taken <= |conn.log|
      && forall i :: i in s.rows ==> i in conn.listed || i in conn.log[..conn.taken]
  }

  lemma HandlerOwn(f: Suite, chunks: seq<seq<byte>>, s: Store, conn: Conn)
    requires ConnOk(f, chunks, s, conn) && Own(s, conn) && !conn.broken
    ensures Own(HandlerStep(s, |chunks|, conn).0, HandlerStep(s, |chunks|, conn).1)
  {
    match conn.pc
    case Reading =>
      if |conn.inbox| > 0 {
        assert conn.log[..conn.taken + 1] == conn.log[..conn.taken] + [conn.log[conn.taken]];
      }
    case Storing(index, _) =>
      assert conn.log[..conn.taken][conn.taken - 1] == index;
    case _ =>
  }

  /** Every other handler has ended. */
  predicate Alone(net: Net, c: nat) {
    forall d :: 0 <= d < |net.conns| && d != c ==> net.conns[d].pc.Ended?
  }

  ghost predicate SameStart(base: Net, net: Net, c: nat) {
    c < |base.conns| && c < |net.conns| && net.conns[c].initial == base.conns[c].initial
  }

  /** Connection c is orderly, and the only one to record anything if it was alone in `base`. */
  ghost predicate Steady(base: Net, net: Net, c: nat) {
    && c < |net.conns| && Orderly(net.conns[c])
    && (Alone(base, c) ==> Alone(net, c) && Own(net.store, net.conns[c]) && SameStart(base, net, c))
  }

  lemma StepAlone(net: Net, total: int, d: nat, c: nat)
    requires Alone(net, c) && d != c
    ensures Next(net, total, Handle(d)) == net
  {
    if d < |net.conns| {
      assert net.conns[d := net.conns[d]] == net.conns;
    }
  }

  /** While only handlers step, a steady connection stays steady. */
  lemma StepSteady(f: Suite, chunks: seq<seq<byte>>, base: Net, net: Net, d: nat, c: nat)
    requires NetOk(f, chunks, net) && Steady(base, net, c)
    ensures Steady(base, Next(net, |chunks|, Handle(d)), c)
  {
    if d == c {
      HandlerOrderly(f, chunks, net.store, net.conns[c]);
      if Alone(base, c) {
        HandlerOwn(f, chunks, net.store, net.conns[c]);
      }
    } else if Alone(base, c) {
      StepAlone(net, |chunks|, d, c);
    }
  }

  /** A client that has not read DONE always has another line to come. */
  lemma MoreToRead(conn: Conn)
    requires Orderly(conn) && conn.read <= 1 + conn.acks && Silent(conn)
    ensures conn.read < |conn.lines|
  {
  }

  /** DONE on a connection that is alone: every chunk was listed or acknowledged on it. */
  lemma DoneAlone(f: Suite, chunks: seq<seq<byte>>, base: Net, net: Net, c: nat, i: nat)
    requires NetOk(f, chunks, net) && Steady(base, net, c) && Alone(base, c)
    requires net.conns[c].pc.Ended? && i < |chunks|
    ensures i in net.conns[c].listed || i in net.conns[c].log[..net.conns[c].acks]
  {
    var conn := net.conns[c];
    var j := 1 + conn.acks;
    assert LineOk(net.store.rows.Keys, |chunks|, conn, j);
    assert i in Range(|chunks|);
  }
}
