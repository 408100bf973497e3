/** The upload protocol as a network: one store, any number of connections to it (the current one
    and those of earlier attempts, whose handlers may still be running), and every way in which
    handlers interleave, die, and lose their connection. Each await of the server's coroutine is
    a program point of its own. */
module UploadNetwork {
  import opened Bytes
  import opened Crypto
  import opened Sets
  import opened Frames
  import opened ChunkStore
  import opened TcpServer

  datatype Pc =
    | Opened                                       // the file_id line has not been read
    | Listed                                       // the records were read, HAVE is not yet written
    | AtCheck                                      // about to count the records
    | Reading                                      // waiting for a frame
    | Storing(index: nat, checksum: seq<byte>)     // data on disk, record not yet written
    | Acking                                       // recorded, ACK not yet written
    | Finishing                                    // enough records counted, DONE not yet written
    | Ended

  /** `hello` and `inbox` are on their way to the server; of `lines`, the ones from `read` on are
      on their way to the client. The rest is history: the records when the connection was opened,
      the records the handler listed, the index of every frame put on the connection, and how many
      of those the handler has read and acknowledged. */
  datatype Conn = Conn(
    pc: Pc, hello: bool, inbox: seq<Frame>, lines: seq<string>, read: nat, broken: bool,
    initial: set<nat>, listed: set<nat>, log: seq<nat>, taken: nat, acks: nat)

  datatype Net = Net(store: Store, conns: seq<Conn>)

  // ---------------------------------------------------------------- steps

  function Write(conn: Conn, line: string): Conn {
    if conn.broken then conn else conn.(lines := conn.lines + [line])
  }

  function HandlerTakes(s: Store, conn: Conn): (Store, Conn)
    requires |conn.inbox| > 0
  {
    var frame := conn.inbox[0];
    if !IsAscii(frame.checksum) then (s, conn.(pc := Ended))
    else
      (WriteDisk(s, frame.index, frame.payload),
       conn.(pc := Storing(frame.index, StripLeft(StripRight(frame.checksum))),
             inbox := conn.inbox[1..], taken := conn.taken + 1))
  }

  /** One step of the handler of `conn`; a handler that has to wait stays as it is. */
  function HandlerStep(s: Store, total: int, conn: Conn): (Store, Conn) {
    match conn.pc
    case Opened =>
      if conn.hello then (s, conn.(pc := Listed, hello := false, listed := s.rows.Keys))
      else if conn.broken then (s, conn.(pc := Ended))
      else (s, conn)
    case Listed => (s, Write(conn, HaveLine(conn.listed)).(pc := AtCheck))
    case AtCheck => (s, conn.(pc := if |s.rows| >= total then Finishing else Reading))
    case Reading =>
      if |conn.inbox| > 0 then HandlerTakes(s, conn)
      else if conn.broken then (s, conn.(pc := Ended))
      else (s, conn)
    case Storing(index, checksum) => (AddChunk(s, index, checksum), conn.(pc := Acking))
    case Acking => (s, Write(conn, ACK).(pc := AtCheck, acks := conn.acks + 1))
    case Finishing => (s, Write(conn, DONE).(pc := Ended))
    case Ended => (s, conn)
  }

  /** The connection is lost: any suffix of what was on its way is lost with it, in either
      direction, and the last line to arrive may be cut short. */
  function BreakConn(conn: Conn, hello: bool, arriving: nat, leaving: nat, cut: nat): Conn {
    if conn.broken || !(conn.read <= leaving <= |conn.lines|) then conn
    else
      var part := if leaving < |conn.lines| && 0 < cut < |conn.lines[leaving]|
                  then [conn.lines[leaving][..cut]] else [];
      conn.(broken := true,
            hello := conn.hello && hello,
            inbox := if conn.hello && !hello then []
                     else if arriving <= |conn.inbox| then conn.inbox[..arriving] else conn.inbox,
            lines := conn.lines[..leaving] + part)
  }

  datatype Step =
    | Handle(c: nat)
    | Break(c: nat, hello: bool, arriving: nat, leaving: nat, cut: nat)
    | Stop(c: nat)  // the handler dies where it stands, even between disk write and record

  function Next(net: Net, total: int, step: Step): Net {
    if step.c >= |net.conns| then net
    else
      var conn := net.conns[step.c];
      match step
      case Handle(c) =>
        var (s, next) := HandlerStep(net.store, total, conn);
        Net(s, net.conns[c := next])
      case Break(c, hello, arriving, leaving, cut) =>
        net.(conns := net.conns[c := BreakConn(conn, hello, arriving, leaving, cut)])
      case Stop(c) => net.(conns := net.conns[c := conn.(pc := Ended)])
  }

  function Run(net: Net, total: int, steps: seq<Step>): Net
    decreases |steps|
  {
    if |steps| == 0 then net else Run(Next(net, total, steps[0]), total, steps[1..])
  }

  // ---------------------------------------------------------------- what every step keeps

  /** `line` arrived as `full`, or is what a break left of it. */
  predicate Arrives(line: string, full: string, mayBeCut: bool) {
    line == full || (mayBeCut && line <= full)
  }

  /** Line j of a connection: HAVE first, then one ACK for each acknowledged frame, then DONE,
      which is only ever written for a complete store. Only the last line of a broken connection
      can be cut short. */
  ghost predicate LineOk(rows: set<nat>, n: nat, conn: Conn, j: nat)
    requires j < |conn.lines|
  {
    var cut := conn.broken && j == |conn.lines| - 1;
    if j == 0 then Arrives(conn.lines[0], HaveLine(conn.listed), cut)
    else
      || (j <= conn.acks && Arrives(conn.lines[j], ACK, cut))
      || (rows == Range(n) && Arrives(conn.lines[j], DONE, cut))
  }

  ghost predicate LinesOk(rows: set<nat>, n: nat, conn: Conn) {
    forall j :: 0 <= j < |conn.lines| ==> LineOk(rows, n, conn, j)
  }

  /** While a handler runs on an unbroken connection it has written HAVE and its ACKs. */
  predicate OneLineEach(conn: Conn) {
    conn.broken || |conn.lines| == 1 + conn.acks
  }

  ghost predicate PcOk(f: Suite, chunks: seq<seq<byte>>, s: Store, conn: Conn) {
    match conn.pc
    case Opened => conn.lines == [] && conn.taken == conn.acks == 0
    case Listed => conn.lines == [] && conn.taken == conn.acks == 0
    case AtCheck => conn.acks == conn.taken && OneLineEach(conn)
    case Reading => conn.acks == conn.taken && OneLineEach(conn)
    case Storing(index, checksum) =>
      && conn.acks + 1 == conn.taken <= |conn.log| && OneLineEach(conn)
      && conn.log[conn.taken - 1] == index
      && index in s.disk && Encrypts(f, chunks, index, s.disk[index])
      && checksum == f.sha(chunks[index])
    case Acking =>
      && conn.acks + 1 == conn.taken <= |conn.log| && OneLineEach(conn)
      && conn.log[conn.taken - 1] in s.rows
    case Finishing => Complete(s, |chunks|) && OneLineEach(conn)
    case Ended => true
  }

  /** The frames still on their way are the ones after those already taken, in order. */
  ghost predicate InboxOk(f: Suite, chunks: seq<seq<byte>>, conn: Conn) {
    && conn.acks <= conn.taken <= conn.taken + |conn.inbox| <= |conn.log|
    && (!conn.broken ==> conn.taken + |conn.inbox| == |conn.log|)
    && forall j :: 0 <= j < |conn.inbox| ==>
         conn.inbox[j].index == conn.log[conn.taken + j] && Honest(f, chunks, conn.inbox[j])
  }

  ghost predicate ConnOk(f: Suite, chunks: seq<seq<byte>>, s: Store, conn: Conn) {
    && InboxOk(f, chunks, conn)
    && PcOk(f, chunks, s, conn)
    && conn.initial <= s.rows.Keys
    && (!conn.pc.Opened? && (conn.pc != Ended || conn.lines != []) ==>
          conn.initial <= conn.listed <= s.rows.Keys)
    && (forall j :: 0 <= j < conn.acks ==> conn.log[j] in s.rows)
    && LinesOk(s.rows.Keys, |chunks|, conn)
    && conn.read <= |conn.lines|
  }

  /** Some chunk is neither among the listed ones nor among those read. */
  ghost predicate Lacks(n: nat, listed: set<nat>, read: seq<nat>) {
    exists i: nat :: i < n && i !in listed && i !in read
  }

  /** A handler never waits for what cannot come: one that waits for the identifier line of an
      unbroken connection will get it, and one that reads frames lacks a chunk it did not list. */
  ghost predicate ConnLive(n: nat, conn: Conn) {
    && (conn.pc.Opened? && !conn.broken ==> conn.hello)
    && (conn.pc.Reading? ==> conn.taken <= |conn.log| && Lacks(n, conn.listed, conn.log[..conn.taken]))
  }

  ghost predicate NetOk(f: Suite, chunks: seq<seq<byte>>, net: Net) {
    && Sound(f, chunks, net.store)
    && (forall c :: 0 <= c < |net.conns| ==> ConnOk(f, chunks, net.store, net.conns[c]))
    && (forall c :: 0 <= c < |net.conns| ==> ConnLive(|chunks|, net.conns[c]))
  }

  /** A server that starts, or restarts, on any sound store is such a network. */
  lemma Restarted(f: Suite, chunks: seq<seq<byte>>, s: Store)
    ensures Sound(f, chunks, s) <==> NetOk(f, chunks, Net(s, []))
    ensures NetOk(f, chunks, Net(Store(map[], map[]), []))
  {
  }

  /** How a store may change under the other connections: records are only added, and data is
      only replaced by other encryptions of the same chunk. */
  ghost predicate StoreGrows(f: Suite, chunks: seq<seq<byte>>, s: Store, t: Store) {
    && Sound(f, chunks, t)
    && s.rows.Keys <= t.rows.Keys
    && forall i :: i in s.disk && Encrypts(f, chunks, i, s.disk[i]) ==>
         i in t.disk && Encrypts(f, chunks, i, t.disk[i])
  }

  lemma CompleteStays(f: Suite, chunks: seq<seq<byte>>, s: Store, t: Store)
    requires StoreGrows(f, chunks, s, t) && Complete(s, |chunks|)
    ensures Complete(t, |chunks|)
  {
    assert t.rows.Keys <= Range(|chunks|);
  }

  lemma OthersUnharmed(f: Suite, chunks: seq<seq<byte>>, s: Store, t: Store, conn: Conn)
    requires StoreGrows(f, chunks, s, t) && ConnOk(f, chunks, s, conn)
    ensures ConnOk(f, chunks, t, conn)
  {
    if Complete(s, |chunks|) {
      CompleteStays(f, chunks, s, t);
    }
    forall j | 0 <= j < |conn.lines|
      ensures LineOk(t.rows.Keys, |chunks|, conn, j)
    {
      assert LineOk(s.rows.Keys, |chunks|, conn, j);
    }
  }

  lemma StoreStep(f: Suite, chunks: seq<seq<byte>>, s: Store, conn: Conn)
    requires Sound(f, chunks, s) && ConnOk(f, chunks, s, conn)
    ensures StoreGrows(f, chunks, s, HandlerStep(s, |chunks|, conn).0)
  {
    match conn.pc
    case Reading =>
      if |conn.inbox| > 0 {
        assert Honest(f, chunks, conn.inbox[0]);
        WriteKeepsSound(f, chunks, s, conn.inbox[0].index, conn.inbox[0].payload);
      }
    case _ =>
  }

  lemma WriteLine(rows: set<nat>, n: nat, conn: Conn, line: string, acks: nat)
    requires LinesOk(rows, n, conn)
    requires conn.acks <= acks
    requires !conn.broken ==>
               if |conn.lines| == 0 then line == HaveLine(conn.listed)
               else (line == ACK && |conn.lines| <= acks) || (line == DONE && rows == Range(n))
    ensures LinesOk(rows, n, Write(conn, line).(acks := acks))
  {
    var w := Write(conn, line).(acks := acks);
    forall j | 0 <= j < |w.lines|
      ensures LineOk(rows, n, w, j)
    {
      if j < |conn.lines| {
        assert LineOk(rows, n, conn, j);
      }
    }
  }

  lemma SameLines(rows: set<nat>, n: nat, conn: Conn, next: Conn)
    requires LinesOk(rows, n, conn)
    requires next.lines == conn.lines && next.broken == conn.broken && next.acks == conn.acks
    requires conn.lines == [] || next.listed == conn.listed
    ensures LinesOk(rows, n, next)
  {
    forall j | 0 <= j < |next.lines|
      ensures LineOk(rows, n, next, j)
    {
      assert LineOk(rows, n, conn, j);
    }
  }

  lemma ReadingStep(f: Suite, chunks: seq<seq<byte>>, s: Store, conn: Conn)
    requires Sound(f, chunks, s) && ConnOk(f, chunks, s, conn) && conn.pc.Reading? && |conn.inbox| > 0
    ensures ConnOk(f, chunks, HandlerTakes(s, conn).0, HandlerTakes(s, conn).1)
  {
    var frame := conn.inbox[0];
    var t, next := HandlerTakes(s, conn).0, HandlerTakes(s, conn).1;
    assert Honest(f, chunks, frame);
    DigestUntouched(frame.checksum);
    WriteKeepsSound(f, chunks, s, frame.index, frame.payload);
    assert t == WriteDisk(s, frame.index, frame.payload);
    OthersUnharmed(f, chunks, s, t, conn);
    SameLines(t.rows.Keys, |chunks|, conn, next);
    assert InboxOk(f, chunks, next);
  }

  lemma ListedStep(f: Suite, chunks: seq<seq<byte>>, s: Store, conn: Conn)
    requires Sound(f, chunks, s) && ConnOk(f, chunks, s, conn) && conn.pc.Listed?
    ensures ConnOk(f, chunks, s, HandlerStep(s, |chunks|, conn).1)
  {
    WriteLine(s.rows.Keys, |chunks|, conn, HaveLine(conn.listed), conn.acks);
    SameLines(s.rows.Keys, |chunks|, Write(conn, HaveLine(conn.listed)), HandlerStep(s, |chunks|, conn).1);
    assert InboxOk(f, chunks, HandlerStep(s, |chunks|, conn).1);
  }

  lemma AckingStep(f: Suite, chunks: seq<seq<byte>>, s: Store, conn: Conn)
    requires Sound(f, chunks, s) && ConnOk(f, chunks, s, conn) && conn.pc.Acking?
    ensures ConnOk(f, chunks, s, HandlerStep(s, |chunks|, conn).1)
  {
    WriteLine(s.rows.Keys, |chunks|, conn, ACK, conn.acks + 1);
    SameLines(s.rows.Keys, |chunks|, Write(conn, ACK).(acks := conn.acks + 1), HandlerStep(s, |chunks|, conn).1);
    assert InboxOk(f, chunks, HandlerStep(s, |chunks|, conn).1);
  }

  lemma EndsWith(f: Suite, chunks: seq<seq<byte>>, s: Store, conn: Conn, wrote: Conn)
    requires ConnOk(f, chunks, s, conn) && conn.pc !in {Opened, Ended}
    requires wrote == Write(conn, DONE) && LinesOk(s.rows.Keys, |chunks|, wrote)
    ensures ConnOk(f, chunks, s, wrote.(pc := Ended))
  {
    var next := wrote.(pc := Ended);
    SameLines(s.rows.Keys, |chunks|, wrote, next);
    assert InboxOk(f, chunks, next);
    assert next.log == conn.log && next.acks == conn.acks && next.listed == conn.listed;
  }

  lemma FinishingStep(f: Suite, chunks: seq<seq<byte>>, s: Store, conn: Conn)
    requires Sound(f, chunks, s) && ConnOk(f, chunks, s, conn) && conn.pc.Finishing?
    ensures ConnOk(f, chunks, s, HandlerStep(s, |chunks|, conn).1)
  {
    var wrote := Write(conn, DONE);
    WriteLine(s.rows.Keys, |chunks|, conn, DONE, conn.acks);
    assert wrote.(acks := conn.acks) == wrote;
    EndsWith(f, chunks, s, conn, wrote);
    assert HandlerStep(s, |chunks|, conn).1 == wrote.(pc := Ended);
  }

  lemma SilentStep(f: Suite, chunks: seq<seq<byte>>, s: Store, conn: Conn, pc: Pc)
    requires Sound(f, chunks, s) && ConnOk(f, chunks, s, conn)
    requires pc.Ended? || (conn.pc !in {Opened, Listed, Ended} && pc !in {Opened, Listed}
                           && PcOk(f, chunks, s, conn.(pc := pc)))
    ensures ConnOk(f, chunks, s, conn.(pc := pc))
  {
    SameLines(s.rows.Keys, |chunks|, conn, conn.(pc := pc));
    assert InboxOk(f, chunks, conn.(pc := pc));
  }

  lemma OpenedStep(f: Suite, chunks: seq<seq<byte>>, s: Store, conn: Conn)
    requires Sound(f, chunks, s) && ConnOk(f, chunks, s, conn) && conn.pc.Opened?
    ensures ConnOk(f, chunks, s, HandlerStep(s, |chunks|, conn).1)
  {
    var next := HandlerStep(s, |chunks|, conn).1;
    assert InboxOk(f, chunks, next);
    assert next.lines == [];
  }

  lemma StoringStep(f: Suite, chunks: seq<seq<byte>>, s: Store, conn: Conn)
    requires Sound(f, chunks, s) && ConnOk(f, chunks, s, conn) && conn.pc.Storing?
    ensures ConnOk(f, chunks, HandlerStep(s, |chunks|, conn).0, HandlerStep(s, |chunks|, conn).1)
  {
    var t := HandlerStep(s, |chunks|, conn).0;
    StoreStep(f, chunks, s, conn);
    OthersUnharmed(f, chunks, s, t, conn);
    SilentStep(f, chunks, t, conn, Acking);
  }

  /** The handler's own step keeps its connection in order, against the store it leaves. */
  lemma OwnStep(f: Suite, chunks: seq<seq<byte>>, s: Store, conn: Conn)
    requires Sound(f, chunks, s) && ConnOk(f, chunks, s, conn)
    ensures ConnOk(f, chunks, HandlerStep(s, |chunks|, conn).0, HandlerStep(s, |chunks|, conn).1)
  {
    match conn.pc
    case Opened => OpenedStep(f, chunks, s, conn);
    case Listed => ListedStep(f, chunks, s, conn);
    case AtCheck =>
      CountIsComplete(f, chunks, s);
      SilentStep(f, chunks, s, conn, if |s.rows| >= |chunks| then Finishing else Reading);
    case Reading =>
      if |conn.inbox| > 0 {
        ReadingStep(f, chunks, s, conn);
      } else {
        SilentStep(f, chunks, s, conn, Ended);
      }
    case Storing(_, _) => StoringStep(f, chunks, s, conn);
    case Acking => AckingStep(f, chunks, s, conn);
    case Finishing => FinishingStep(f, chunks, s, conn);
    case Ended =>
  }

  lemma BreakKeepsLines(rows: set<nat>, n: nat, conn: Conn, hello: bool, arriving: nat, leaving: nat, cut: nat)
    requires LinesOk(rows, n, conn)
    ensures LinesOk(rows, n, BreakConn(conn, hello, arriving, leaving, cut))
  {
    var next := BreakConn(conn, hello, arriving, leaving, cut);
    forall j | 0 <= j < |next.lines|
      ensures LineOk(rows, n, next, j)
    {
      assert LineOk(rows, n, conn, j);
    }
  }

  /** What a break leaves alone. */
  lemma BreakLeaves(conn: Conn, hello: bool, arriving: nat, leaving: nat, cut: nat)
    ensures BreakConn(conn, hello, arriving, leaving, cut).pc == conn.pc
    ensures BreakConn(conn, hello, arriving, leaving, cut).log == conn.log
    ensures BreakConn(conn, hello, arriving, leaving, cut).taken == conn.taken
    ensures BreakConn(conn, hello, arriving, leaving, cut).acks == conn.acks
    ensures BreakConn(conn, hello, arriving, leaving, cut).initial == conn.initial
    ensures BreakConn(conn, hello, arriving, leaving, cut).listed == conn.listed
    ensures BreakConn(conn, hello, arriving, leaving, cut).read == conn.read
    ensures conn.read <= |conn.lines| ==> conn.read <= |BreakConn(conn, hello, arriving, leaving, cut).lines|
    ensures conn.lines == [] ==> BreakConn(conn, hello, arriving, leaving, cut).lines == []
    ensures || BreakConn(conn, hello, arriving, leaving, cut) == conn
            || BreakConn(conn, hello, arriving, leaving, cut).broken
    ensures BreakConn(conn, hello, arriving, leaving, cut).inbox <= conn.inbox
  {
  }

  lemma BreakInbox(f: Suite, chunks: seq<seq<byte>>, conn: Conn, hello: bool, arriving: nat, leaving: nat, cut: nat)
    requires InboxOk(f, chunks, conn)
    ensures InboxOk(f, chunks, BreakConn(conn, hello, arriving, leaving, cut))
  {
    BreakLeaves(conn, hello, arriving, leaving, cut);
    var inbox := BreakConn(conn, hello, arriving, leaving, cut).inbox;
    assert forall j :: 0 <= j < |inbox| ==> inbox[j] == conn.inbox[j];
  }

  /** A connection that differs from one in order by a break only. */
  lemma BrokenOk(f: Suite, chunks: seq<seq<byte>>, s: Store, conn: Conn, next: Conn)
    requires ConnOk(f, chunks, s, conn)
    requires next.pc == conn.pc && next.log == conn.log && next.taken == conn.taken && next.acks == conn.acks
    requires next.initial == conn.initial && next.listed == conn.listed && next.read == conn.read
    requires next.broken && next.read <= |next.lines| && (conn.lines == [] ==> next.lines == [])
    requires InboxOk(f, chunks, next) && LinesOk(s.rows.Keys, |chunks|, next)
    ensures ConnOk(f, chunks, s, next)
  {
  }

  lemma BreakKeeps(f: Suite, chunks: seq<seq<byte>>, s: Store, conn: Conn,
                   hello: bool, arriving: nat, leaving: nat, cut: nat)
    requires ConnOk(f, chunks, s, conn)
    ensures ConnOk(f, chunks, s, BreakConn(conn, hello, arriving, leaving, cut))
  {
    var next := BreakConn(conn, hello, arriving, leaving, cut);
    BreakLeaves(conn, hello, arriving, leaving, cut);
    if next != conn {
      BreakKeepsLines(s.rows.Keys, |chunks|, conn, hello, arriving, leaving, cut);
      BreakInbox(f, chunks, conn, hello, arriving, leaving, cut);
      BrokenOk(f, chunks, s, conn, next);
    }
  }

  /** A handler that goes on to read has counted too few records to have all chunks. */
  lemma CheckLacks(f: Suite, chunks: seq<seq<byte>>, s: Store, conn: Conn)
    requires Sound(f, chunks, s) && ConnOk(f, chunks, s, conn) && conn.pc.AtCheck? && |s.rows| < |chunks|
    ensures Lacks(|chunks|, conn.listed, conn.log[..conn.taken])
  {
    CountIsComplete(f, chunks, s);
    assert s.rows.Keys <= Range(|chunks|);
    assert Range(|chunks|) - s.rows.Keys != {};
    var i :| i in Range(|chunks|) - s.rows.Keys;
    assert forall j :: 0 <= j < conn.taken ==> conn.log[..conn.taken][j] == conn.log[j];
  }

  lemma HandlerLive(f: Suite, chunks: seq<seq<byte>>, s: Store, conn: Conn)
    requires Sound(f, chunks, s) && ConnOk(f, chunks, s, conn) && ConnLive(|chunks|, conn)
    ensures ConnLive(|chunks|, HandlerStep(s, |chunks|, conn).1)
  {
    if conn.pc.AtCheck? && |s.rows| < |chunks| {
      CheckLacks(f, chunks, s, conn);
    }
  }

  lemma BreakLive(n: nat, conn: Conn, hello: bool, arriving: nat, leaving: nat, cut: nat)
    requires ConnLive(n, conn)
    ensures ConnLive(n, BreakConn(conn, hello, arriving, leaving, cut))
  {
  }

  lemma ReplaceConn(f: Suite, chunks: seq<seq<byte>>, net: Net, t: Store, c: nat, next: Conn)
    requires NetOk(f, chunks, net) && c < |net.conns|
    requires StoreGrows(f, chunks, net.store, t) && ConnOk(f, chunks, t, next) && ConnLive(|chunks|, next)
    ensures NetOk(f, chunks, Net(t, net.conns[c := next]))
  {
    forall d | 0 <= d < |net.conns| && d != c
      ensures ConnOk(f, chunks, t, net.conns[d])
    {
      OthersUnharmed(f, chunks, net.store, t, net.conns[d]);
    }
  }

  /** Every step, of any handler, keeps every record sound and every connection in order. */
  lemma StepKeeps(f: Suite, chunks: seq<seq<byte>>, net: Net, step: Step)
    requires NetOk(f, chunks, net)
    ensures NetOk(f, chunks, Next(net, |chunks|, step))
    ensures StoreGrows(f, chunks, net.store, Next(net, |chunks|, step).store)
  {
    if step.c < |net.conns| {
      var s, conn := net.store, net.conns[step.c];
      match step {
        case Handle(c) =>
          StoreStep(f, chunks, s, conn);
          OwnStep(f, chunks, s, conn);
          HandlerLive(f, chunks, s, conn);
          ReplaceConn(f, chunks, net, HandlerStep(s, |chunks|, conn).0, c, HandlerStep(s, |chunks|, conn).1);
        case Break(c, hello, arriving, leaving, cut) =>
          BreakKeeps(f, chunks, s, conn, hello, arriving, leaving, cut);
          BreakLive(|chunks|, conn, hello, arriving, leaving, cut);
          ReplaceConn(f, chunks, net, s, c, BreakConn(conn, hello, arriving, leaving, cut));
        case Stop(c) =>
          SilentStep(f, chunks, s, conn, Ended);
          ReplaceConn(f, chunks, net, s, c, conn.(pc := Ended));
      }
    }
  }

  /** Re-uploading never corrupts the store: over any run of any number of handlers, with breaks
      and deaths anywhere, no record is lost and every record stays sound. */
  lemma {:induction false} RunKeeps(f: Suite, chunks: seq<seq<byte>>, net: Net, steps: seq<Step>)
    requires NetOk(f, chunks, net)
    ensures NetOk(f, chunks, Run(net, |chunks|, steps))
    ensures StoreGrows(f, chunks, net.store, Run(net, |chunks|, steps).store)
    decreases |steps|
  {
    if |steps| > 0 {
      StepKeeps(f, chunks, net, steps[0]);
      RunKeeps(f, chunks, Next(net, |chunks|, steps[0]), steps[1..]);
    }
  }

  // ---------------------------------------------------------------- one handler, left alone

  function Drive(s: Store, total: int, conn: Conn, k: nat): (Store, Conn)
    decreases k
  {
    if k == 0 then (s, conn)
    else Drive(HandlerStep(s, total, conn).0, total, HandlerStep(s, total, conn).1, k - 1)
  }

  /** Four steps carry one frame from the inbox to its ACK. */
  lemma OneFrame(s: Store, total: int, conn: Conn)
    requires conn.pc.AtCheck? && !conn.broken && |s.rows| < total
    requires |conn.inbox| > 0 && IsAscii(conn.inbox[0].checksum)
    ensures Drive(s, total, conn, 4)
         == (Take(s, conn.inbox[0]),
             conn.(inbox := conn.inbox[1..], lines := conn.lines + [ACK],
                   taken := conn.taken + 1, acks := conn.acks + 1))
  {
    var frame := conn.inbox[0];
    var checksum := StripLeft(StripRight(frame.checksum));
    var c1 := conn.(pc := Reading);
    assert HandlerStep(s, total, conn) == (s, c1);
    var s2 := WriteDisk(s, frame.index, frame.payload);
    var c2 := conn.(pc := Storing(frame.index, checksum), inbox := conn.inbox[1..], taken := conn.taken + 1);
    assert HandlerStep(s, total, c1) == (s2, c2);
    var s3 := AddChunk(s2, frame.index, checksum);
    var c3 := c2.(pc := Acking);
    assert HandlerStep(s2, total, c2) == (s3, c3);
    var c4 := c3.(pc := AtCheck, lines := conn.lines + [ACK], acks := conn.acks + 1);
    assert HandlerStep(s3, total, c3) == (s3, c4);
    assert Drive(s3, total, c3, 1) == Drive(s3, total, c4, 0);
    assert Drive(s2, total, c2, 2) == Drive(s3, total, c3, 1);
    assert Drive(s, total, c1, 3) == Drive(s2, total, c2, 2);
  }

  lemma {:induction false} DriveOn(s: Store, total: int, conn: Conn, j: nat, k: nat)
    ensures Drive(s, total, conn, j + k)
         == Drive(Drive(s, total, conn, j).0, total, Drive(s, total, conn, j).1, k)
    decreases j
  {
    if j > 0 {
      var s1, c1 := HandlerStep(s, total, conn).0, HandlerStep(s, total, conn).1;
      assert Drive(s, total, conn, j + k) == Drive(s1, total, c1, j - 1 + k);
      assert Drive(s, total, conn, j) == Drive(s1, total, c1, j - 1);
      DriveOn(s1, total, c1, j - 1, k);
    }
  }

  /** Where the handler of `conn` stands after the session `r`. */
  predicate Served(conn: Conn, r: Session, t: Store, d: Conn) {
    && t == r.store && d.lines == conn.lines + r.lines
    && d.pc == (if r.ending.Waiting? then Reading else Ended)
    && (r.ending.Waiting? ==> d.inbox == [])
  }

  /** Left alone, the handler with its program points does exactly what the sequential upload
      loop does with the frames it has been sent. */
  lemma {:induction false} HandlerServes(s: Store, total: int, conn: Conn) returns (k: nat)
    requires conn.pc.AtCheck? && !conn.broken
    ensures Served(conn, Serve(s, total, conn.inbox), Drive(s, total, conn, k).0, Drive(s, total, conn, k).1)
    decreases |conn.inbox|
  {
    if |s.rows| >= total {
      k := 2;
      var last := conn.(pc := Finishing);
      assert Drive(s, total, last, 1) == Drive(s, total, HandlerStep(s, total, last).1, 0);
    } else if |conn.inbox| == 0 {
      k := 1;
    } else if !IsAscii(conn.inbox[0].checksum) {
      k := 2;
      assert Drive(s, total, conn.(pc := Reading), 1) == Drive(s, total, conn.(pc := Ended), 0);
    } else {
      OneFrame(s, total, conn);
      var s1, c1 := Drive(s, total, conn, 4).0, Drive(s, total, conn, 4).1;
      k := HandlerServes(s1, total, c1);
      DriveOn(s, total, conn, 4, k);
      k := 4 + k;
    }
  }
}
