/** client/handlers/file.py: splitting a file and uploading it over the network of UploadNetwork,
    which may do anything it can do whenever the client waits. */
module UploadClient {
  import opened Bytes
  import opened Text
  import opened Crypto
  import opened Sets
  import opened Frames
  import opened ChunkStore
  import opened TcpServer
  import opened UploadNetwork
  import opened UploadProgress
  import opened LineLimit

  const CHUNK_SIZE := 512 * 1024
  const MAX_ATTEMPTS := 3

  // ---------------------------------------------------------------- splitting

  /** raw[offset : offset + size] for offset in range(0, len(raw), size) */
  function Slices(raw: seq<byte>, size: nat): (chunks: seq<seq<byte>>)
    requires size > 0
    decreases |raw|
  {
    if |raw| == 0 then []
    else if |raw| <= size then [raw]
    else [raw[..size]] + Slices(raw[size..], size)
  }

  /** The chunks of a file; an empty file is one empty chunk. */
  function Split(raw: seq<byte>): (chunks: seq<seq<byte>>)
    ensures |chunks| > 0
  {
    var chunks := Slices(raw, CHUNK_SIZE);
    if |chunks| == 0 then [[]] else chunks
  }

  function Concat(parts: seq<seq<byte>>): seq<byte> {
    if |parts| == 0 then [] else parts[0] + Concat(parts[1..])
  }

  lemma {:induction false} SlicesConcat(raw: seq<byte>, size: nat)
    requires size > 0
    ensures Concat(Slices(raw, size)) == raw
    decreases |raw|
  {
    if |raw| <= size {
      if |raw| > 0 {
        assert Concat([raw][1..]) == [];
      }
    } else {
      SlicesConcat(raw[size..], size);
      var rest := Slices(raw[size..], size);
      assert ([raw[..size]] + rest)[1..] == rest;
      assert raw[..size] + raw[size..] == raw;
    }
  }

  /** All slices are full but the last, which is not empty. */
  ghost predicate Sliced(chunks: seq<seq<byte>>, size: nat) {
    && (forall i :: 0 <= i < |chunks| ==> 0 < |chunks[i]| <= size)
    && (forall i :: 0 <= i < |chunks| - 1 ==> |chunks[i]| == size)
  }

  lemma {:induction false} SliceSizes(raw: seq<byte>, size: nat)
    requires size > 0
    ensures Sliced(Slices(raw, size), size)
    decreases |raw|
  {
    if |raw| > size {
      SliceSizes(raw[size..], size);
    }
  }

  /** The chunks join to the file, and have 524288 bytes each but for the last. */
  lemma SplitConcat(raw: seq<byte>)
    ensures Concat(Split(raw)) == raw
    ensures forall i :: 0 <= i < |Split(raw)| ==> |Split(raw)[i]| <= 524288
    ensures forall i :: 0 <= i < |Split(raw)| - 1 ==> |Split(raw)[i]| == 524288
    ensures forall i :: 0 <= i < |Split(raw)| && raw != [] ==> Split(raw)[i] != []
  {
    SlicesConcat(raw, CHUNK_SIZE);
    SliceSizes(raw, CHUNK_SIZE);
    if |Slices(raw, CHUNK_SIZE)| == 0 {
      var empty: seq<seq<byte>> := [[]];
      assert raw == [];
      assert Concat(empty[1..]) == [];
    }
  }

  lemma {:induction false} SliceCount(raw: seq<byte>)
    ensures var k := |Slices(raw, CHUNK_SIZE)|;
            |raw| <= k * CHUNK_SIZE && (k > 0 ==> (k - 1) * CHUNK_SIZE < |raw|)
    decreases |raw|
  {
    if |raw| > CHUNK_SIZE {
      SliceCount(raw[CHUNK_SIZE..]);
    }
  }

  lemma ChunkCount(raw: seq<byte>, k: nat)
    requires k > 0
    ensures |Split(raw)| <= k <==> |raw| <= k * 524288
  {
    SliceCount(raw);
  }

  /** Both header fields of every frame fit in uint32 for files of up to 2^51 bytes, and the
      chunk index no longer does just past that size. */
  lemma HeaderFits(raw: seq<byte>)
    ensures |Split(raw)| <= 0x1_0000_0000 <==> |raw| <= 0x8_0000_0000_0000
    ensures forall i :: 0 <= i < |Split(raw)| ==> 28 + |Split(raw)[i]| < 0x1_0000_0000
  {
    SplitConcat(raw);
    ChunkCount(raw, 0x1_0000_0000);
  }

  // ---------------------------------------------------------------- the environment

  /** What the client may rely on about its own connection while the network runs. */
  ghost predicate Later(a: Conn, b: Conn) {
    && b.log == a.log && b.read == a.read && b.initial == a.initial && a.acks <= b.acks
    && (a.read > 0 ==> b.listed == a.listed)
    && (a.broken ==> b.broken)
    && (Silent(a) ==> Silent(b) && |b.lines| <= |a.lines|)
    && (!b.broken ==> |a.lines| <= |b.lines|)
    && (!b.broken && |a.lines| == |b.lines| ==> Rank(b.pc) <= Rank(a.pc))
  }

  /** The network ran: the store grew, no connection was opened, connection c went on. */
  ghost predicate Ran(f: Suite, chunks: seq<seq<byte>>, a: Net, b: Net, c: nat) {
    && NetOk(f, chunks, b) && StoreGrows(f, chunks, a.store, b.store)
    && |b.conns| == |a.conns|
    && (c < |a.conns| ==> Later(a.conns[c], b.conns[c]))
  }

  lemma HandlerKeeps(s: Store, total: int, conn: Conn)
    requires conn.pc.Opened? ==> conn.read == 0
    ensures HandlerStep(s, total, conn).1.log == conn.log
    ensures HandlerStep(s, total, conn).1.read == conn.read
    ensures HandlerStep(s, total, conn).1.initial == conn.initial
    ensures HandlerStep(s, total, conn).1.broken == conn.broken
    ensures HandlerStep(s, total, conn).1.acks >= conn.acks
    ensures |HandlerStep(s, total, conn).1.lines| >= |conn.lines|
    ensures Silent(conn) ==>
              Silent(HandlerStep(s, total, conn).1) && |HandlerStep(s, total, conn).1.lines| == |conn.lines|
    ensures conn.read > 0 ==> HandlerStep(s, total, conn).1.listed == conn.listed
  {
  }

  lemma HandlerLater(f: Suite, chunks: seq<seq<byte>>, s: Store, conn: Conn)
    requires ConnOk(f, chunks, s, conn)
    ensures Later(conn, HandlerStep(s, |chunks|, conn).1)
  {
    StuckIff(s, |chunks|, conn);
    if !conn.broken && !Stuck(conn) {
      RankFalls(s, |chunks|, conn);
    }
    HandlerKeeps(s, |chunks|, conn);
  }

  lemma StepRan(f: Suite, chunks: seq<seq<byte>>, net: Net, step: Step, c: nat)
    requires NetOk(f, chunks, net)
    ensures Ran(f, chunks, net, Next(net, |chunks|, step), c)
  {
    StepKeeps(f, chunks, net, step);
    if step.c < |net.conns| && step.c == c && step.Handle? {
      HandlerLater(f, chunks, net.store, net.conns[c]);
    }
  }

  lemma RanOn(f: Suite, chunks: seq<seq<byte>>, a: Net, b: Net, d: Net, c: nat)
    requires Ran(f, chunks, a, b, c) && Ran(f, chunks, b, d, c)
    ensures Ran(f, chunks, a, d, c)
  {
  }

  lemma CalmStep(f: Suite, chunks: seq<seq<byte>>, base: Net, net: Net, d: nat, c: nat)
    requires NetOk(f, chunks, net)
    ensures Steady(base, net, c) ==> Steady(base, Next(net, |chunks|, Handle(d)), c)
    ensures Alone(net, |net.conns|) ==> Next(net, |chunks|, Handle(d)) == net
  {
    if Steady(base, net, c) {
      StepSteady(f, chunks, base, net, d, c);
    }
    if Alone(net, |net.conns|) && d < |net.conns| {
      StepAlone(net, |chunks|, d, |net.conns|);
    }
  }

  /** Any number of steps of the network, in any order; when `calm`, of its handlers only. */
  method Environment(f: Suite, chunks: seq<seq<byte>>, net0: Net, c: nat, calm: bool, ghost base: Net)
    returns (net: Net)
    requires NetOk(f, chunks, net0)
    ensures Ran(f, chunks, net0, net, c)
    ensures calm && Steady(base, net0, c) ==> Steady(base, net, c)
    ensures calm && Alone(net0, |net0.conns|) ==> net == net0
  {
    net := net0;
    var steps: nat := *;
    while steps > 0
      invariant Ran(f, chunks, net0, net, c)
      invariant calm && Steady(base, net0, c) ==> Steady(base, net, c)
      invariant calm && Alone(net0, |net0.conns|) ==> net == net0
    {
      var step: Step := *;
      if !calm || step.Handle? {
        StepRan(f, chunks, net, step, c);
        if calm {
          CalmStep(f, chunks, base, net, step.c, c);
        }
        net := Next(net, |chunks|, step);
      }
      steps := steps - 1;
    }
  }

  /** open_connection, then the file_id line. */
  function Open(net: Net): Net {
    net.(conns := net.conns + [
      Conn(Opened, true, [], [], 0, false, net.store.rows.Keys, {}, [], 0, 0)])
  }

  /** A frame is put on the connection; on a broken one it is lost. */
  function Send(conn: Conn, frame: Frame): Conn {
    if conn.broken then conn
    else conn.(inbox := conn.inbox + [frame], log := conn.log + [frame.index])
  }

  /** writer.close(): what was sent still arrives, nothing more is delivered to the client. */
  function Close(conn: Conn): Conn {
    BreakConn(conn, true, |conn.inbox|, |conn.lines|, 0)
  }

  lemma OpenKeeps(f: Suite, chunks: seq<seq<byte>>, net: Net)
    requires NetOk(f, chunks, net)
    ensures NetOk(f, chunks, Open(net))
  {
  }

  lemma SendLive(n: nat, conn: Conn, frame: Frame)
    requires ConnLive(n, conn)
    ensures ConnLive(n, Send(conn, frame))
  {
    if conn.pc.Reading? && !conn.broken {
      assert (conn.log + [frame.index])[..conn.taken] == conn.log[..conn.taken];
    }
  }

  lemma SendKeeps(f: Suite, chunks: seq<seq<byte>>, net: Net, c: nat, frame: Frame)
    requires NetOk(f, chunks, net) && c < |net.conns| && Honest(f, chunks, frame)
    ensures NetOk(f, chunks, net.(conns := net.conns[c := Send(net.conns[c], frame)]))
  {
    var conn := net.conns[c];
    var next := Send(conn, frame);
    SameLines(net.store.rows.Keys, |chunks|, conn, next);
    assert InboxOk(f, chunks, next);
    SendLive(|chunks|, conn, frame);
    ReplaceConn(f, chunks, net, net.store, c, next);
  }

  lemma SendSteady(base: Net, net: Net, c: nat, frame: Frame)
    requires Steady(base, net, c) && net.conns[c].taken <= |net.conns[c].log|
    ensures Steady(base, net.(conns := net.conns[c := Send(net.conns[c], frame)]), c)
  {
    var conn := net.conns[c];
    assert (conn.log + [frame.index])[..conn.taken] == conn.log[..conn.taken];
  }

  lemma ReadKeeps(f: Suite, chunks: seq<seq<byte>>, net: Net, c: nat)
    requires NetOk(f, chunks, net) && c < |net.conns| && net.conns[c].read < |net.conns[c].lines|
    ensures NetOk(f, chunks, net.(conns := net.conns[c := net.conns[c].(read := net.conns[c].read + 1)]))
  {
    var conn := net.conns[c];
    var next := conn.(read := conn.read + 1);
    SameLines(net.store.rows.Keys, |chunks|, conn, next);
    assert InboxOk(f, chunks, next);
    ReplaceConn(f, chunks, net, net.store, c, next);
  }

  /** Nothing is left to read, now or later. */
  predicate Quiet(conn: Conn) {
    Silent(conn) && |conn.lines| <= conn.read
  }

  /** `line` is the next line of the connection, or "" at its end. */
  ghost predicate Got(a: Conn, b: Conn, line: string) {
    || (b.read == a.read + 1 <= |b.lines| && line == b.lines[a.read])
    || (line == "" && b.read == a.read && Quiet(b))
  }

  /** The line taken was longer than the reader admits. */
  predicate Overlong(a: Conn, b: Conn) {
    b.read == a.read + 1 <= |b.lines| && !Readable(b.lines[a.read])
  }

  datatype Reply =
    | Line(text: string)  // a line, or what a closed connection left of one
    | Reset               // OSError
    | TooLong             // ValueError: the line exceeds the reader's limit

  /** What readline() makes of a line. */
  function Shown(line: string): Reply {
    if Readable(line) then Line(line) else TooLong
  }

  /** A steady connection whose DONE has not been read. */
  ghost predicate Going(base: Net, net: Net, c: nat) {
    Steady(base, net, c) && net.conns[c].read <= 1 + net.conns[c].acks
  }

  lemma HandlerMoves(f: Suite, chunks: seq<seq<byte>>, net: Net, c: nat)
    requires NetOk(f, chunks, net) && c < |net.conns|
    requires !Silent(net.conns[c]) && Due(|chunks|, net.conns[c]) && net.conns[c].read == |net.conns[c].lines|
    ensures || |Next(net, |chunks|, Handle(c)).conns[c].lines| == |net.conns[c].lines| + 1
            || Rank(Next(net, |chunks|, Handle(c)).conns[c].pc) < Rank(net.conns[c].pc)
  {
    DeadlockFree(f, chunks, net, c);
    RankFalls(net.store, |chunks|, net.conns[c]);
  }

  lemma StillDue(n: nat, a: Conn, b: Conn)
    requires Later(a, b) && (Silent(a) || Due(n, a)) && !Silent(b)
    ensures Due(n, b)
  {
  }

  lemma TurnTaken(a: Conn, next: Conn, after: Conn)
    requires a.read == |a.lines| && Later(a, next) && Later(next, after)
    requires |next.lines| == |a.lines| + 1 || Rank(next.pc) < Rank(a.pc)
    requires !Silent(after) && |after.lines| <= after.read
    ensures Rank(after.pc) < Rank(a.pc)
  {
  }

  /** The client waits for a line. */
  predicate Starved(conn: Conn) {
    !Silent(conn) && |conn.lines| <= conn.read
  }

  /** One turn of the handler the client waits for, and anything else the network does. */
  method HandlerTurn(f: Suite, chunks: seq<seq<byte>>, net0: Net, c: nat, calm: bool, ghost base: Net)
    returns (net: Net)
    requires NetOk(f, chunks, net0) && c < |net0.conns|
    requires Starved(net0.conns[c]) && Due(|chunks|, net0.conns[c])
    ensures Ran(f, chunks, net0, net, c)
    ensures calm && Steady(base, net0, c) ==> Steady(base, net, c)
    ensures Starved(net.conns[c]) ==> Rank(net.conns[c].pc) < Rank(net0.conns[c].pc)
  {
    assert ConnOk(f, chunks, net0.store, net0.conns[c]);
    HandlerMoves(f, chunks, net0, c);
    StepRan(f, chunks, net0, Handle(c), c);
    if calm {
      CalmStep(f, chunks, base, net0, c, c);
    }
    var next := Next(net0, |chunks|, Handle(c));
    net := Environment(f, chunks, next, c, calm, base);
    RanOn(f, chunks, net0, next, net, c);
    if Starved(net.conns[c]) {
      TurnTaken(net0.conns[c], next.conns[c], net.conns[c]);
    }
  }

  lemma RanFrom(f: Suite, chunks: seq<seq<byte>>, net: Net, c: nat)
    requires NetOk(f, chunks, net)
    ensures Ran(f, chunks, net, net, c)
  {
  }

  /** The wait of reader.readline(): whatever else the network does, the handler of the connection
      gets its turn, and is never stuck, so that a line or the end of the stream comes. */
  method Await(f: Suite, chunks: seq<seq<byte>>, net0: Net, c: nat, calm: bool, ghost base: Net)
    returns (net: Net)
    requires NetOk(f, chunks, net0) && c < |net0.conns|
    requires Silent(net0.conns[c]) || Due(|chunks|, net0.conns[c])
    ensures Ran(f, chunks, net0, net, c)
    ensures calm && Steady(base, net0, c) ==> Steady(base, net, c)
    ensures !Starved(net.conns[c])
    decreases Rank(net0.conns[c].pc)
  {
    if !Starved(net0.conns[c]) {
      RanFrom(f, chunks, net0, c);
      return net0;
    }
    var next := HandlerTurn(f, chunks, net0, c, calm, base);
    if !Starved(next.conns[c]) {
      return next;
    }
    StillDue(|chunks|, net0.conns[c], next.conns[c]);
    net := Await(f, chunks, next, c, calm, base);
    RanOn(f, chunks, net0, next, net, c);
  }

  method Wait(f: Suite, chunks: seq<seq<byte>>, net0: Net, c: nat, calm: bool, ghost base: Net)
    returns (net: Net)
    requires NetOk(f, chunks, net0) && c < |net0.conns|
    requires Silent(net0.conns[c]) || Due(|chunks|, net0.conns[c])
    ensures Ran(f, chunks, net0, net, c)
    ensures calm && Steady(base, net0, c) ==> Steady(base, net, c)
    ensures !Starved(net.conns[c])
  {
    var ran := Environment(f, chunks, net0, c, calm, base);
    if Starved(ran.conns[c]) {
      StillDue(|chunks|, net0.conns[c], ran.conns[c]);
    }
    net := Await(f, chunks, ran, c, calm, base);
    RanOn(f, chunks, net0, ran, net, c);
  }

  function TakeLine(net: Net, c: nat): Net
    requires c < |net.conns|
  {
    net.(conns := net.conns[c := net.conns[c].(read := net.conns[c].read + 1)])
  }

  lemma TakeSteady(base: Net, net: Net, c: nat)
    requires Steady(base, net, c)
    ensures Steady(base, TakeLine(net, c), c)
  {
  }

  /** What a client can tell once the wait is over; `taken`: a line was there and was taken. */
  lemma AfterWait(a: Conn, b: Conn, taken: bool)
    requires Later(a, b) && !Starved(b) && (taken ==> b.read < |b.lines|)
    requires !taken ==> b.broken || |b.lines| <= b.read
    ensures taken ==> Got(a, b.(read := b.read + 1), b.lines[b.read])
    ensures !taken && |b.lines| <= b.read ==> Got(a, b, "")
    ensures Quiet(a) ==> !taken && Quiet(b)
  {
  }

  lemma GoingOn(base: Net, net0: Net, net: Net, c: nat)
    requires Going(base, net0, c) && Steady(base, net, c) && c < |net0.conns| && Later(net0.conns[c], net.conns[c])
    requires !Starved(net.conns[c])
    ensures net.conns[c].read < |net.conns[c].lines| && net.conns[c].read <= 1 + net.conns[c].acks
  {
    if Silent(net.conns[c]) {
      MoreToRead(net.conns[c]);
    }
  }

  /** reader.readline(): the next line, "" at the end of the stream, or an error. On a calm network
      the next line of the protocol, if the reader's limit admits it. */
  method ReadLine(f: Suite, chunks: seq<seq<byte>>, net0: Net, c: nat, calm: bool, ghost base: Net)
    returns (net: Net, reply: Reply)
    requires NetOk(f, chunks, net0) && c < |net0.conns|
    requires Silent(net0.conns[c]) || Due(|chunks|, net0.conns[c])
    ensures NetOk(f, chunks, net) && StoreGrows(f, chunks, net0.store, net.store)
    ensures |net.conns| == |net0.conns|
    ensures net.conns[c].log == net0.conns[c].log && net.conns[c].initial == net0.conns[c].initial
    ensures net0.conns[c].read > 0 ==> net.conns[c].listed == net0.conns[c].listed
    ensures net0.conns[c].broken ==> net.conns[c].broken
    ensures reply.Line? ==> Got(net0.conns[c], net.conns[c], reply.text)
    ensures reply.Line? && Quiet(net0.conns[c]) ==>
              reply.text == "" && Quiet(net.conns[c]) && net.conns[c].read == net0.conns[c].read
    ensures reply.TooLong? ==> Overlong(net0.conns[c], net.conns[c]) && !Quiet(net0.conns[c])
    ensures calm && Going(base, net0, c) ==>
              && Steady(base, net, c)
              && net.conns[c].read == net0.conns[c].read + 1 <= |net.conns[c].lines|
              && net.conns[c].read <= 2 + net.conns[c].acks
              && reply == Shown(net.conns[c].lines[net0.conns[c].read])
  {
    net := Wait(f, chunks, net0, c, calm, base);
    var conn := net.conns[c];
    var reset: bool := *;
    var taken := conn.read < |conn.lines| && !(conn.broken && reset);
    AfterWait(net0.conns[c], conn, taken);
    if calm && Going(base, net0, c) {
      GoingOn(base, net0, net, c);
      TakeSteady(base, net, c);
    }
    if taken {
      ReadKeeps(f, chunks, net, c);
      net := TakeLine(net, c);
      return net, Shown(conn.lines[conn.read]);
    }
    reply := if conn.broken && reset then Reset else Line("");
  }

  // ---------------------------------------------------------------- what a line tells the client

  lemma StripAck(p: string)
    requires p <= "ACK\n"
    ensures Strip(p) != "DONE"
    ensures Strip(p) == "" ==> p == ""
  {
    if |p| <= 3 {
      StripSolid(p);
    } else {
      assert p == "ACK\n" && RStrip(p) == RStrip(p[..3]) && p[..3] == "ACK";
      StripSolid("ACK");
    }
  }

  lemma StripDone(p: string)
    requires p <= "DONE\n"
    ensures Strip(p) != "ACK"
  {
    if |p| <= 4 {
      StripSolid(p);
    } else {
      assert p == "DONE\n" && RStrip(p) == RStrip(p[..4]) && p[..4] == "DONE";
      StripSolid("DONE");
    }
  }

  /** Line j >= 1: "ACK" means that the j-th frame of this connection is recorded, "DONE" that
      the store is complete -- also when the line arrived without its newline. */
  lemma AckMeans(f: Suite, chunks: seq<seq<byte>>, s: Store, conn: Conn, j: nat)
    requires ConnOk(f, chunks, s, conn) && 1 <= j < |conn.lines|
    ensures Strip(conn.lines[j]) == "ACK" ==> j <= |conn.log| && conn.log[j - 1] in s.rows
    ensures Strip(conn.lines[j]) == "DONE" ==> Complete(s, |chunks|)
  {
    var line := conn.lines[j];
    assert LineOk(s.rows.Keys, |chunks|, conn, j);
    if line <= "ACK\n" { StripAck(line); }
    if line <= "DONE\n" { StripDone(line); }
  }

  /** The client's `have` set against what it should be: everything recorded when the connection
      was opened, and nothing that is not recorded. */
  ghost predicate Faithful(s: Store, conn: Conn, have: set<nat>) {
    conn.initial <= have <= s.rows.Keys
  }

  /** The answer is taken for an ACK, or for DONE. */
  predicate IsAck(answer: Reply) {
    answer.Line? && Strip(answer.text) == "ACK"
  }

  predicate IsDone(answer: Reply) {
    answer.Line? && Strip(answer.text) == "DONE"
  }

  lemma StripAnswers()
    ensures IsAck(Line(ACK)) && !IsDone(Line(ACK))
    ensures IsDone(Line(DONE)) && !IsAck(Line(DONE))
    ensures Readable(ACK) && Readable(DONE)
  {
    assert RStrip("ACK\n") == RStrip("ACK\n"[..3]) && "ACK\n"[..3] == "ACK";
    assert RStrip("DONE\n") == RStrip("DONE\n"[..4]) && "DONE\n"[..4] == "DONE";
    StripSolid("ACK");
    StripSolid("DONE");
  }

  lemma HaveLineMeans(listed: set<nat>, n: nat, line: string)
    requires listed <= Range(n) && n > 0 && line <= HaveLine(listed)
    ensures ParseHave(line).Some? && ParseHave(line).value <= Range(n)
    ensures ParseHave(line).value == listed || (line != HaveLine(listed) && n - 1 !in ParseHave(line).value)
  {
    HaveTruncated(listed, n, line);
  }

  lemma FirstLine(f: Suite, chunks: seq<seq<byte>>, s: Store, conn: Conn)
    requires Sound(f, chunks, s) && ConnOk(f, chunks, s, conn) && 1 == conn.read
    ensures conn.initial <= conn.listed <= s.rows.Keys <= Range(|chunks|)
    ensures conn.lines[0] <= HaveLine(conn.listed)
    ensures conn.lines[0] != HaveLine(conn.listed) ==> conn.broken && Quiet(conn)
  {
    assert LineOk(s.rows.Keys, |chunks|, conn, 0);
  }

  lemma AnswersFit(p: string)
    requires p <= ACK || p <= DONE
    ensures Readable(p)
  {
  }

  /** What is left of a line is too long only if the line is. */
  lemma CutFits(p: string, indexes: set<nat>)
    requires p <= HaveLine(indexes)
    ensures Readable(HaveLine(indexes)) ==> Readable(p)
  {
    LineLength(Join(Sorted(indexes)));
  }

  /** No line but the first is ever too long, and the first only if the server printed it so. */
  lemma OnlyHaveOverlong(f: Suite, chunks: seq<seq<byte>>, s: Store, conn: Conn, j: nat)
    requires ConnOk(f, chunks, s, conn) && j < |conn.lines|
    ensures !Readable(conn.lines[j]) ==> j == 0 && !Readable(HaveLine(conn.listed))
  {
    assert LineOk(s.rows.Keys, |chunks|, conn, j);
    if j == 0 {
      CutFits(conn.lines[0], conn.listed);
    } else {
      AnswersFit(conn.lines[j]);
    }
  }

  /** The first line gives a faithful `have`, or it was cut short: then the connection is over
      and at least the last chunk is not in `have`. */
  lemma HaveMeans(f: Suite, chunks: seq<seq<byte>>, s: Store, conn: Conn)
    requires Sound(f, chunks, s) && ConnOk(f, chunks, s, conn) && 1 == conn.read && |chunks| > 0
    ensures ParseHave(conn.lines[0]).Some? && ParseHave(conn.lines[0]).value <= Range(|chunks|)
    ensures || Faithful(s, conn, ParseHave(conn.lines[0]).value)
            || (Quiet(conn) && |chunks| - 1 !in ParseHave(conn.lines[0]).value)
    ensures conn.broken || ParseHave(conn.lines[0]).value == conn.listed
  {
    FirstLine(f, chunks, s, conn);
    HaveLineMeans(conn.listed, |chunks|, conn.lines[0]);
    HaveRoundTrip(conn.listed);
  }

  // ---------------------------------------------------------------- one attempt

  /** The client took the server's own list for its `have`, unless the connection is over. */
  ghost predicate Heard(conn: Conn, have: set<nat>) {
    conn.broken || Quiet(conn) || have == conn.listed
  }

  /** Every frame of the attempt but those lost with the connection is on it, and each was
      answered before the next was sent. */
  predicate StopAndWait(conn: Conn, mine: seq<nat>) {
    && conn.log <= mine && (conn.log != mine ==> conn.broken)
    && (conn.read == 1 + |mine| || (Quiet(conn) && mine == []))
  }

  /** Where an attempt stands: `have` was read from the server, `mine` are the indexes of the
      acknowledged frames in the order sent, `acked` the same indexes as a set. An attempt whose
      `have` is wrong has had, and can have, no frame acknowledged. */
  ghost predicate Progress(f: Suite, chunks: seq<seq<byte>>, net0: Net, net: Net, c: nat,
                           have: set<nat>, acked: set<nat>, mine: seq<nat>) {
    && NetOk(f, chunks, net) && StoreGrows(f, chunks, net0.store, net.store)
    && c < |net.conns| == |net0.conns|
    && net.conns[c].initial == net0.conns[c].initial
    && acked <= net.store.rows.Keys && acked !! have && |mine| == |acked| && have <= Range(|chunks|)
    && StopAndWait(net.conns[c], mine) && Heard(net.conns[c], have)
    && (Faithful(net.store, net.conns[c], have)
        || (Quiet(net.conns[c]) && mine == [] && |chunks| - 1 !in have))
  }

  lemma GrowsOn(f: Suite, chunks: seq<seq<byte>>, a: Store, b: Store, c: Store)
    requires StoreGrows(f, chunks, a, b) && StoreGrows(f, chunks, b, c)
    ensures StoreGrows(f, chunks, a, c)
  {
  }

  /** What the answer to a frame means for the attempt; `a` is the connection before the frame
      was sent, `b` the connection after the answer was read. */
  lemma AnswerMeans(f: Suite, chunks: seq<seq<byte>>, s: Store, a: Conn, b: Conn, mine: seq<nat>,
                    frame: Frame, line: string)
    requires ConnOk(f, chunks, s, b) && StopAndWait(a, mine)
    requires b.log == Send(a, frame).log && (a.broken ==> b.broken)
    requires Got(a, b, line)
    requires Quiet(a) ==> line == "" && Quiet(b) && b.read == a.read
    ensures Strip(line) == "ACK" ==>
              !Quiet(a) && frame.index in s.rows && StopAndWait(b, mine + [frame.index])
    ensures Strip(line) == "DONE" ==> Complete(s, |chunks|)
  {
    assert Strip("") == "";
    if line != "" || b.read == a.read + 1 {
      var j := 1 + |mine|;
      if b.read == a.read + 1 && !Quiet(a) {
        AckMeans(f, chunks, s, b, j);
      }
    }
  }

  /** The frame of a chunk, under a fresh nonce. */
  method Seal(f: Suite, chunks: seq<seq<byte>>, index: nat) returns (frame: Frame)
    requires index < |chunks|
    ensures Honest(f, chunks, frame) && frame.index == index
  {
    var nonce: Nonce := *;
    frame := Frame(index, f.sha(chunks[index]), SealChunk(f, nonce, chunks[index]));
    OpenSealed(f, nonce, chunks[index]);
  }

  function PutFrame(net: Net, c: nat, frame: Frame): Net
    requires c < |net.conns|
  {
    net.(conns := net.conns[c := Send(net.conns[c], frame)])
  }

  /** After sending, the client may wait: for its answer, or for the end of a lost connection. */
  lemma SentIsDue(n: nat, conn: Conn, mine: seq<nat>, frame: Frame)
    requires StopAndWait(conn, mine)
    ensures Silent(Send(conn, frame)) || Due(n, Send(conn, frame))
  {
  }

  /** An ACK advances the attempt by the index it answers. */
  lemma Acked(f: Suite, chunks: seq<seq<byte>>, net0: Net, net1: Net, net: Net, c: nat, index: nat,
              have: set<nat>, acked: set<nat>, mine: seq<nat>)
    requires Progress(f, chunks, net0, net1, c, have, acked, mine)
    requires index !in have && index !in acked && !Quiet(net1.conns[c])
    requires NetOk(f, chunks, net) && StoreGrows(f, chunks, net1.store, net.store)
    requires |net.conns| == |net1.conns| && net.conns[c].initial == net1.conns[c].initial
    requires net.conns[c].listed == net1.conns[c].listed && (net1.conns[c].broken ==> net.conns[c].broken)
    requires index in net.store.rows && StopAndWait(net.conns[c], mine + [index])
    ensures Progress(f, chunks, net0, net, c, have, acked + {index}, mine + [index])
    ensures Faithful(net.store, net.conns[c], have)
  {
    GrowsOn(f, chunks, net0.store, net1.store, net.store);
  }

  /** On a calm network the answer is ACK or DONE, and ACK if nobody else records chunks. */
  lemma CalmAnswer(f: Suite, chunks: seq<seq<byte>>, base: Net, net: Net, c: nat, mine: seq<nat>, index: nat)
    requires NetOk(f, chunks, net) && Steady(base, net, c) && index < |chunks|
    requires net.conns[c].log == mine + [index] && net.conns[c].read == 2 + |mine| <= |net.conns[c].lines|
    requires index !in mine && index !in net.conns[c].listed
    ensures net.conns[c].lines[1 + |mine|] in {ACK, DONE}
    ensures net.conns[c].lines[1 + |mine|] == ACK ==> Going(base, net, c)
    ensures net.conns[c].lines[1 + |mine|] == DONE ==> !Alone(base, c)
  {
    var conn := net.conns[c];
    assert conn.lines[1 + |mine|] == Prescribed(conn, 1 + |mine|);
    if conn.lines[1 + |mine|] == DONE && Alone(base, c) {
      assert conn.acks == |mine| && conn.log[..|mine|] == mine;
      DoneAlone(f, chunks, base, net, c, index);
    }
  }

  /** Sending on a steady connection that is still going. */
  lemma CalmSent(f: Suite, chunks: seq<seq<byte>>, base: Net, net: Net, c: nat, frame: Frame, mine: seq<nat>)
    requires NetOk(f, chunks, net) && Going(base, net, c) && StopAndWait(net.conns[c], mine)
    ensures Going(base, PutFrame(net, c, frame), c) && !Quiet(net.conns[c])
    ensures net.conns[c].read == 1 + |mine| && Send(net.conns[c], frame).log == mine + [frame.index]
  {
    assert ConnOk(f, chunks, net.store, net.conns[c]);
    SendSteady(base, net, c, frame);
    if Silent(net.conns[c]) {
      MoreToRead(net.conns[c]);
    }
  }

  /** One turn of the chunk loop for a chunk the server lacks: encrypt, send, read the answer. */
  method Exchange(f: Suite, chunks: seq<seq<byte>>, ghost net0: Net, net1: Net, c: nat, index: nat,
                  ghost have: set<nat>, ghost acked: set<nat>, ghost mine: seq<nat>, calm: bool, ghost base: Net)
    returns (net: Net, answer: Reply)
    requires Progress(f, chunks, net0, net1, c, have, acked, mine)
    requires index < |chunks| && index !in have && index !in acked && index !in mine
    ensures NetOk(f, chunks, net) && StoreGrows(f, chunks, net0.store, net.store)
    ensures |net.conns| == |net0.conns|
    ensures acked <= net.store.rows.Keys
    ensures IsAck(answer) ==>
              && Progress(f, chunks, net0, net, c, have, acked + {index}, mine + [index])
              && Faithful(net.store, net.conns[c], have)
    ensures IsDone(answer) ==> Complete(net.store, |chunks|)
    ensures !answer.TooLong?
    ensures calm && Going(base, net1, c) ==>
              && Steady(base, net, c) && net.conns[c].log == mine + [index]
              && net.conns[c].listed == net1.conns[c].listed
              && (answer == Line(ACK) || (answer == Line(DONE) && !Alone(base, c)))
              && (answer == Line(ACK) ==> Going(base, net, c))
  {
    var frame := Seal(f, chunks, index);
    SendKeeps(f, chunks, net1, c, frame);
    var sent := PutFrame(net1, c, frame);
    SentIsDue(|chunks|, net1.conns[c], mine, frame);
    if calm && Going(base, net1, c) {
      CalmSent(f, chunks, base, net1, c, frame, mine);
    }
    net, answer := ReadLine(f, chunks, sent, c, calm, base);
    GrowsOn(f, chunks, net0.store, net1.store, net.store);
    if answer.TooLong? {
      OnlyHaveOverlong(f, chunks, net.store, net.conns[c], net1.conns[c].read);
    }
    if answer.Line? {
      AnswerMeans(f, chunks, net.store, net1.conns[c], net.conns[c], mine, frame, answer.text);
      if IsAck(answer) {
        Acked(f, chunks, net0, net1, net, c, index, have, acked, mine);
      }
    }
    if calm && Going(base, net1, c) {
      CalmAnswer(f, chunks, base, net, c, mine, index);
      StripAnswers();
    }
  }

  /** The state of the attempt once the first line has been read. */
  lemma HaveRead(f: Suite, chunks: seq<seq<byte>>, s: Store, a: Conn, b: Conn, line: string)
    requires Sound(f, chunks, s) && ConnOk(f, chunks, s, b) && |chunks| > 0
    requires a.log == b.log == [] && a.read == 0 && Got(a, b, line)
    ensures ParseHave(line).Some? && ParseHave(line).value <= Range(|chunks|) && StopAndWait(b, [])
    ensures Heard(b, ParseHave(line).value)
    ensures Faithful(s, b, ParseHave(line).value) || (Quiet(b) && |chunks| - 1 !in ParseHave(line).value)
  {
    if b.read == 1 {
      HaveMeans(f, chunks, s, b);
    }
  }

  /** While some chunk is neither held by the server nor acknowledged, fewer than n are counted. */
  lemma CountBelow(n: nat, have: set<nat>, acked: set<nat>, index: nat)
    requires have <= Range(n) && acked <= Range(n) && have !! acked
    requires index < n && index !in have && index !in acked
    ensures |have| + |acked| < n
  {
    RangeSize(n);
    SubsetSize(have + acked + {index}, Range(n));
    assert |have + acked| == |have| + |acked|;
  }

  lemma CountAll(n: nat, have: set<nat>, acked: set<nat>)
    requires have <= Range(n) && acked <= Range(n) && have !! acked
    requires forall j :: 0 <= j < n ==> j in have || j in acked
    ensures have + acked == Range(n) && |have| + |acked| == n
  {
    RangeSize(n);
    assert have + acked == Range(n);
    assert |have + acked| == |have| + |acked|;
  }

  /** An attempt that has gone through all chunks has a faithful `have` and a complete store. */
  lemma AllAnswered(f: Suite, chunks: seq<seq<byte>>, net0: Net, net: Net, c: nat,
                    have: set<nat>, acked: set<nat>, mine: seq<nat>)
    requires Progress(f, chunks, net0, net, c, have, acked, mine) && |chunks| > 0
    requires acked <= Range(|chunks|)
    requires forall j :: 0 <= j < |chunks| ==> j in have || j in acked
    ensures Complete(net.store, |chunks|) && |have| + |acked| == |chunks|
  {
    CountAll(|chunks|, have, acked);
    assert |chunks| - 1 in have || acked != {};
    assert net.store.rows.Keys <= Range(|chunks|);
  }

  datatype Ending =
    | Returned        // `return` inside the try
    | FellThrough     // the line after the last chunk was neither empty nor DONE
    | Failed          // OSError or IncompleteReadError, caught
    | Crashed         // ValueError or struct.error, not caught

  /** Every index and length fits its header field. */
  predicate Fits(chunks: seq<seq<byte>>) {
    && |chunks| <= UINT32_SPAN
    && forall i :: 0 <= i < |chunks| ==> NONCE_LEN + TAG_LEN + |chunks[i]| < UINT32_SPAN
  }

  /** struct.pack takes the header of this chunk's frame. */
  predicate Packable(chunks: seq<seq<byte>>, index: nat)
    requires index < |chunks|
  {
    index < 0x1_0000_0000 && 28 + |chunks[index]| < 0x1_0000_0000
  }

  /** So it does for every chunk below `index` that is to be sent. */
  ghost predicate Packed(chunks: seq<seq<byte>>, have: set<nat>, index: nat)
    requires index <= |chunks|
  {
    forall i :: 0 <= i < index && i !in have ==> Packable(chunks, i)
  }

  lemma FitsPacks(chunks: seq<seq<byte>>, have: set<nat>)
    requires Fits(chunks)
    ensures Packed(chunks, have, |chunks|)
  {
  }

  lemma PackedNext(chunks: seq<seq<byte>>, have: set<nat>, index: nat)
    requires index < |chunks|
    ensures Packed(chunks, have, index + 1)
       <==> Packed(chunks, have, index) && (index in have || Packable(chunks, index))
    ensures Packed(chunks, have, |chunks|) ==> Packed(chunks, have, index + 1)
  {
  }

  ghost predicate Covered(have: set<nat>, acked: set<nat>, index: nat) {
    forall j :: 0 <= j < index ==> j in have || j in acked
  }

  /** Chunks below `index` are dealt with: the server listed them, or acknowledged them. */
  ghost predicate Turn(f: Suite, chunks: seq<seq<byte>>, net0: Net, net: Net, c: nat,
                       have: set<nat>, acked: set<nat>, mine: seq<nat>, index: nat) {
    && Progress(f, chunks, net0, net, c, have, acked, mine)
    && acked <= Range(index) && index <= |chunks|
    && acked !! net.conns[c].initial
    && Covered(have, acked, index)
  }

  lemma CoverMore(have: set<nat>, acked: set<nat>, index: nat)
    requires Covered(have, acked, index) && acked <= Range(index) && index !in have
    ensures Covered(have, acked + {index}, index + 1) && acked + {index} <= Range(index + 1)
    ensures |acked + {index}| == |acked| + 1
  {
  }

  lemma NextTurn(f: Suite, chunks: seq<seq<byte>>, net0: Net, net: Net, next: Net, c: nat,
                 have: set<nat>, acked: set<nat>, mine: seq<nat>, index: nat)
    requires Turn(f, chunks, net0, net, c, have, acked, mine, index)
    requires index !in have && index < |chunks|
    requires Progress(f, chunks, net0, next, c, have, acked + {index}, mine + [index])
    requires Faithful(next.store, next.conns[c], have)
    ensures Turn(f, chunks, net0, next, c, have, acked + {index}, mine + [index], index + 1)
    ensures |acked + {index}| == |acked| + 1
  {
    CoverMore(have, acked, index);
    assert index !in net0.conns[c].initial;
  }

  lemma SkipTurn(f: Suite, chunks: seq<seq<byte>>, net0: Net, net: Net, c: nat,
                 have: set<nat>, acked: set<nat>, mine: seq<nat>, index: nat)
    requires Turn(f, chunks, net0, net, c, have, acked, mine, index)
    requires index in have && index < |chunks|
    ensures Turn(f, chunks, net0, net, c, have, acked, mine, index + 1)
  {
  }

  /** How an attempt may stop early: with the store complete if it says so. */
  ghost predicate Over(f: Suite, chunks: seq<seq<byte>>, net0: Net, net: Net, c: nat,
                       ending: Ending, sent: nat, acked: set<nat>) {
    && NetOk(f, chunks, net) && StoreGrows(f, chunks, net0.store, net.store)
    && c < |net.conns| == |net0.conns|
    && sent <= |chunks|
    && (sent == |chunks| || ending.Returned? ==> Complete(net.store, |chunks|))
    && (ending.FellThrough? ==> sent == |chunks|)
    && acked <= net.store.rows.Keys && acked !! net0.conns[c].initial
  }

  /** The acknowledged frames were sent in index order. */
  ghost predicate InOrder(mine: seq<nat>, acked: set<nat>, index: nat) {
    Increasing(mine) && (forall x :: x in mine <==> x in acked) && forall x :: x in acked ==> x < index
  }

  lemma InOrderOn(mine: seq<nat>, acked: set<nat>, index: nat)
    requires InOrder(mine, acked, index)
    ensures InOrder(mine, acked, index + 1)
    ensures InOrder(mine + [index], acked + {index}, index + 1)
  {
    var next := mine + [index];
    assert forall j :: 0 <= j < |mine| ==> mine[j] in mine;
    assert forall x :: x in next <==> x in mine || x == index;
  }

  lemma InOrderMissing(n: nat, have: set<nat>, mine: seq<nat>, acked: set<nat>)
    requires InOrder(mine, acked, n) && have + acked == Range(n) && have !! acked
    ensures mine == Missing(n, have)
  {
    assert acked == Range(n) - have;
    SameOrder(mine, Missing(n, have));
  }

  /** How many elements of an increasing sequence are below a bound. */
  lemma {:induction false} CountUpTo(xs: seq<nat>, bound: nat) returns (k: nat)
    requires Increasing(xs)
    ensures k <= |xs| && (forall j :: 0 <= j < k ==> xs[j] < bound) && (forall j :: k <= j < |xs| ==> xs[j] >= bound)
    decreases |xs|
  {
    k := |xs|;
    if |xs| > 0 && xs[|xs| - 1] >= bound {
      var front := xs[..|xs| - 1];
      k := CountUpTo(front, bound);
      assert forall j :: 0 <= j < |front| ==> xs[j] == front[j];
    }
  }

  /** What has been sent so far is a beginning of what the server lacks. */
  lemma SentPrefix(n: nat, have: set<nat>, mine: seq<nat>, acked: set<nat>, index: nat)
    requires InOrder(mine, acked, index) && index <= n && acked !! have
    requires forall j :: 0 <= j < index ==> j in have || j in acked
    ensures mine <= Missing(n, have)
  {
    var all := Missing(n, have);
    var k := CountUpTo(all, index);
    forall x
      ensures x in all[..k] <==> x in mine
    {
      if x in all[..k] {
        var j :| 0 <= j < k && all[..k][j] == x;
        assert all[j] < index && all[j] in all;
      }
      if x in mine {
        assert x in Range(n) - have && x in all;
        var j :| 0 <= j < |all| && all[j] == x;
        assert j < k && all[..k][j] == x;
      }
    }
    SameOrder(all[..k], mine);
  }

  /** An attempt that stops at a chunk the server lacks. */
  lemma EndsAt(f: Suite, chunks: seq<seq<byte>>, net0: Net, net1: Net, net: Net, c: nat,
               have: set<nat>, acked: set<nat>, mine: seq<nat>, index: nat, ending: Ending, sent: nat)
    requires Turn(f, chunks, net0, net1, c, have, acked, mine, index) && index < |chunks| && index !in have
    requires NetOk(f, chunks, net) && StoreGrows(f, chunks, net0.store, net.store)
    requires |net.conns| == |net0.conns| && acked <= net.store.rows.Keys
    requires if ending.Returned? then Complete(net.store, |chunks|) && sent == |have| + |acked| + 1
             else !ending.FellThrough? && sent == |have| + |acked|
    ensures Over(f, chunks, net0, net, c, ending, sent, acked)
  {
    CountBelow(|chunks|, have, acked, index);
  }

  /** DONE in answer to a chunk, on a calm network: what was sent is a beginning of what is owed. */
  lemma SentAt(chunks: seq<seq<byte>>, have: set<nat>, acked: set<nat>, mine: seq<nat>, index: nat)
    requires InOrder(mine, acked, index) && index < |chunks| && acked !! have && index !in have
    requires forall j :: 0 <= j < index ==> j in have || j in acked
    ensures mine + [index] <= Missing(|chunks|, have)
  {
    InOrderOn(mine, acked, index);
    SentPrefix(|chunks|, have, mine + [index], acked + {index}, index + 1);
  }

  /** The chunk at `index`, which the server did not list: acknowledged (`over` is None), or the
      end of the attempt. */
  method OwedChunk(f: Suite, chunks: seq<seq<byte>>, ghost net0: Net, net1: Net, c: nat,
                   ghost have: set<nat>, index: nat, ghost acked: set<nat>, ghost mine: seq<nat>,
                   calm: bool, ghost base: Net)
    returns (net: Net, over: Option<Ending>, frames: nat)
    requires Turn(f, chunks, net0, net1, c, have, acked, mine, index) && index < |chunks|
    requires InOrder(mine, acked, index) && index !in have
    ensures over.None? ==>
              Turn(f, chunks, net0, net, c, have, acked + {index}, mine + [index], index + 1) && frames == 1
    ensures over.Some? && over.value.Returned? ==>
              Over(f, chunks, net0, net, c, Returned, |have| + |acked| + 1, acked)
    ensures over.Some? && !over.value.Returned? ==>
              Over(f, chunks, net0, net, c, over.value, |have| + |acked|, acked)
    ensures frames <= 1
    ensures over == Some(Crashed) <==> !Packable(chunks, index)
    ensures calm && Going(base, net1, c) && Fits(chunks) ==>
              && Steady(base, net, c) && net.conns[c].log == mine + [index] && frames == 1
              && net.conns[c].listed == net1.conns[c].listed
              && (over.None? ==> Going(base, net, c))
              && (over.Some? ==> over.value.Returned? && !Alone(base, c))
  {
    if index >= UINT32_SPAN || NONCE_LEN + TAG_LEN + |chunks[index]| >= UINT32_SPAN {
      EndsAt(f, chunks, net0, net1, net1, c, have, acked, mine, index, Crashed, |have| + |acked|);
      return net1, Some(Crashed), 0;
    }
    var answer;
    net, answer := Exchange(f, chunks, net0, net1, c, index, have, acked, mine, calm, base);
    frames := 1;
    StripAnswers();
    if IsAck(answer) {
      NextTurn(f, chunks, net0, net1, net, c, have, acked, mine, index);
      over := None;
    } else {
      var ending := if IsDone(answer) then Returned else if answer.TooLong? then Crashed else Failed;
      EndsAt(f, chunks, net0, net1, net, c, have, acked, mine, index, ending,
             |have| + |acked| + if ending.Returned? then 1 else 0);
      over := Some(ending);
    }
  }

  /** The chunk at `index`: skipped, acknowledged (`over` is None), or the end of the attempt. */
  method OneChunk(f: Suite, chunks: seq<seq<byte>>, ghost net0: Net, net1: Net, c: nat,
                  have: set<nat>, index: nat, sent0: nat, ghost acked0: set<nat>, ghost mine0: seq<nat>,
                  calm: bool, ghost base: Net)
    returns (net: Net, over: Option<Ending>, sent: nat, frames: nat,
             ghost acked: set<nat>, ghost mine: seq<nat>)
    requires Turn(f, chunks, net0, net1, c, have, acked0, mine0, index) && index < |chunks|
    requires InOrder(mine0, acked0, index)
    requires sent0 == |have| + |acked0|
    ensures over.None? ==>
              && Turn(f, chunks, net0, net, c, have, acked, mine, index + 1)
              && InOrder(mine, acked, index + 1)
              && sent == |have| + |acked| && frames == |acked| - |acked0|
    ensures over.Some? ==> Over(f, chunks, net0, net, c, over.value, sent, acked)
    ensures over.Some? ==> frames <= 1 && acked == acked0
    ensures over == Some(Crashed) <==> index !in have && !Packable(chunks, index)
    ensures calm && Going(base, net1, c) && Fits(chunks) && over.None? ==>
              Going(base, net, c) && net.conns[c].listed == net1.conns[c].listed
    ensures calm && Going(base, net1, c) && Fits(chunks) && over.Some? ==>
              && over.value == Returned && !Alone(base, c) && Steady(base, net, c)
              && net.conns[c].listed == net1.conns[c].listed
              && frames == 1 && |net.conns[c].log| == |mine0| + 1 && net.conns[c].log <= Missing(|chunks|, have)
  {
    acked, mine := acked0, mine0;
    InOrderOn(mine, acked, index);
    if index in have {
      SkipTurn(f, chunks, net0, net1, c, have, acked, mine, index);
      return net1, None, sent0, 0, acked, mine;
    }
    net, over, frames := OwedChunk(f, chunks, net0, net1, c, have, index, acked, mine, calm, base);
    sent := if over.None? || over.value.Returned? then sent0 + 1 else sent0;
    if over.None? {
      acked, mine := acked + {index}, mine + [index];
    } else {
      SentAt(chunks, have, acked, mine, index);
    }
  }

  /** With every chunk listed or acknowledged, the client may wait for DONE. */
  lemma AllSent(n: nat, conn: Conn, have: set<nat>, mine: seq<nat>, acked: set<nat>)
    requires StopAndWait(conn, mine) && Heard(conn, have) && InOrder(mine, acked, n)
    requires forall j :: 0 <= j < n ==> j in have || j in acked
    ensures Silent(conn) || Due(n, conn)
  {
  }

  /** The chunk loop of one attempt. Run to its end, it has sent exactly the chunks the server did
      not list, in index order, and had each of them acknowledged; it crashes at one whose header does not
      fit, and at no other. On a calm network it runs to
      its end, unless the handler of an earlier attempt completes the store first. */
  method SendMissing(f: Suite, chunks: seq<seq<byte>>, ghost net0: Net, net1: Net, c: nat, have: set<nat>,
                     calm: bool, ghost base: Net)
    returns (net: Net, over: Option<Ending>, sent: nat, frames: nat, ghost acked: set<nat>, ghost mine: seq<nat>)
    requires Turn(f, chunks, net0, net1, c, have, {}, [], 0) && |chunks| > 0
    ensures Over(f, chunks, net0, net, c, over.GetOr(Returned), sent, acked)
    ensures over.None? ==> sent == |chunks| && mine == Missing(|chunks|, have) && frames == |mine|
    ensures over.None? ==> Silent(net.conns[c]) || Due(|chunks|, net.conns[c])
    ensures over.None? ==> StopAndWait(net.conns[c], mine)
    ensures over == Some(Crashed) ==> !Packed(chunks, have, |chunks|)
    ensures over.None? ==> Packed(chunks, have, |chunks|)
    ensures frames <= |acked| + 1
    ensures calm && Going(base, net1, c) && Fits(chunks) ==>
              && Steady(base, net, c) && net.conns[c].listed == net1.conns[c].listed
              && (over.None? ==> Going(base, net, c))
              && (over.Some? ==> over.value == Returned && !Alone(base, c))
              && (over.Some? ==> frames == |net.conns[c].log| && net.conns[c].log <= Missing(|chunks|, have))
  {
    net, over, sent, frames, acked := net1, None, |have|, 0, {};
    mine := [];
    var index := 0;
    while index < |chunks|
      invariant index <= |chunks| && InOrder(mine, acked, index)
      invariant Turn(f, chunks, net0, net, c, have, acked, mine, index)
      invariant Packed(chunks, have, index)
      invariant sent == |have| + |acked| && frames == |acked|
      invariant calm && Going(base, net1, c) && Fits(chunks) ==>
                  Going(base, net, c) && net.conns[c].listed == net1.conns[c].listed
    {
      var more;
      net, over, sent, more, acked, mine :=
        OneChunk(f, chunks, net0, net, c, have, index, sent, acked, mine, calm, base);
      frames := frames + more;
      PackedNext(chunks, have, index);
      if over.Some? {
        return;
      }
      index := index + 1;
    }
    AllAnswered(f, chunks, net0, net, c, have, acked, mine);
    CountAll(|chunks|, have, acked);
    AllSent(|chunks|, net.conns[c], have, mine, acked);
    InOrderMissing(|chunks|, have, mine, acked);
    over := None;
  }

  /** How an attempt ends on a calm network: it returns if the reader admits the HAVE line, and
      raises at once if not; it has sent the missing chunks in order, and all of them if no other
      handler was at work. */
  ghost predicate CalmEnd(n: nat, base: Net, net: Net, c: nat, ending: Ending, frames: nat)
    requires c < |net.conns|
  {
    && frames == |net.conns[c].log|
    && (!Readable(HaveLine(net.conns[c].listed)) ==> ending.Crashed? && frames == 0)
    && (Readable(HaveLine(net.conns[c].listed)) ==>
          ending.Returned? && net.conns[c].log <= Missing(n, net.conns[c].listed))
    && (Readable(HaveLine(net.conns[c].listed)) && Alone(base, c) ==>
          net.conns[c].log == Missing(n, net.conns[c].listed))
    && (Alone(base, c) && c < |base.conns| ==> net.conns[c].listed == base.conns[c].initial)
  }

  /** The first line on a calm network. */
  lemma CalmHave(base: Net, net: Net, c: nat)
    requires Steady(base, net, c) && net.conns[c].read == 1 <= |net.conns[c].lines|
    ensures Going(base, net, c) && !Quiet(net.conns[c])
    ensures net.conns[c].lines[0] == HaveLine(net.conns[c].listed)
    ensures Alone(base, c) && c < |base.conns| ==> net.conns[c].listed == base.conns[c].initial
  {
    if Silent(net.conns[c]) {
      MoreToRead(net.conns[c]);
    }
  }

  /** The line after the last ACK on a calm network. */
  lemma CalmDone(f: Suite, chunks: seq<seq<byte>>, base: Net, net: Net, c: nat)
    requires NetOk(f, chunks, net) && Steady(base, net, c)
    requires net.conns[c].read == 2 + |net.conns[c].log| <= |net.conns[c].lines|
    ensures net.conns[c].lines[1 + |net.conns[c].log|] == DONE
  {
    assert ConnOk(f, chunks, net.store, net.conns[c]);
    assert net.conns[c].lines[1 + |net.conns[c].log|] == Prescribed(net.conns[c], 1 + |net.conns[c].log|);
  }

  /** `done.strip() in (b"", b"DONE")` */
  function LastEnding(done: Reply): Ending {
    match done
    case TooLong => Crashed
    case Reset => Failed
    case Line(text) => if Strip(text) == "" || Strip(text) == "DONE" then Returned else FellThrough
  }

  lemma GoingReads(conn: Conn, mine: seq<nat>)
    requires Orderly(conn) && conn.read <= 1 + conn.acks && StopAndWait(conn, mine)
    ensures conn.log == mine && conn.read == 1 + |mine|
  {
    if Silent(conn) {
      MoreToRead(conn);
    }
  }

  /** After the loop: one more line is read, and whatever it says the store is complete. */
  method LastLine(f: Suite, chunks: seq<seq<byte>>, net0: Net, c: nat, ghost mine: seq<nat>,
                  calm: bool, ghost base: Net)
    returns (net: Net, ending: Ending)
    requires NetOk(f, chunks, net0) && Complete(net0.store, |chunks|) && c < |net0.conns|
    requires Silent(net0.conns[c]) || Due(|chunks|, net0.conns[c])
    requires StopAndWait(net0.conns[c], mine)
    ensures NetOk(f, chunks, net) && StoreGrows(f, chunks, net0.store, net.store)
    ensures Complete(net.store, |chunks|) && |net.conns| == |net0.conns|
    ensures !ending.Crashed?
    ensures calm && Going(base, net0, c) ==>
              && ending.Returned? && Steady(base, net, c)
              && net.conns[c].log == mine == net0.conns[c].log
              && net.conns[c].listed == net0.conns[c].listed && net.conns[c].initial == net0.conns[c].initial
  {
    var done;
    net, done := ReadLine(f, chunks, net0, c, calm, base);
    CompleteStays(f, chunks, net0.store, net.store);
    ending := LastEnding(done);
    if done.TooLong? {
      OnlyHaveOverlong(f, chunks, net.store, net.conns[c], net0.conns[c].read);
    }
    if calm && Going(base, net0, c) {
      GoingReads(net0.conns[c], mine);
      CalmDone(f, chunks, base, net, c);
      StripAnswers();
    }
  }

  /** The server listed records whose line the reader does not admit. */
  ghost predicate Unreadable(n: nat, net: Net, c: nat)
    requires c < |net.conns|
  {
    net.conns[c].listed <= Range(n) && !Readable(HaveLine(net.conns[c].listed))
  }

  /** The first line of an attempt, and the set read from it. int() cannot fail on that line, even
      cut short. */
  method ReadHave(f: Suite, chunks: seq<seq<byte>>, net0: Net, c: nat, calm: bool)
    returns (net: Net, over: Option<Ending>, have: set<nat>)
    requires NetOk(f, chunks, net0) && |chunks| > 0
    requires c < |net0.conns| && net0.conns[c].log == [] && net0.conns[c].read == 0
    ensures NetOk(f, chunks, net) && StoreGrows(f, chunks, net0.store, net.store) && |net.conns| == |net0.conns|
    ensures over.None? ==> Turn(f, chunks, net0, net, c, have, {}, [], 0)
    ensures over.Some? ==> over.value.Crashed? || over.value.Failed?
    ensures over == Some(Crashed) ==> Unreadable(|chunks|, net, c)
    ensures calm && Going(net0, net0, c) ==>
              && Steady(net0, net, c) && net.conns[c].log == []
              && (Alone(net0, c) ==> net.conns[c].listed == net0.conns[c].initial)
              && (if Readable(HaveLine(net.conns[c].listed))
                  then over.None? && Going(net0, net, c) && have == net.conns[c].listed
                  else over == Some(Crashed))
  {
    var line;
    net, line := ReadLine(f, chunks, net0, c, calm, net0);
    have := {};
    if calm && Going(net0, net0, c) {
      CalmHave(net0, net, c);
    }
    if !line.Line? {
      if line.TooLong? {
        FirstLine(f, chunks, net.store, net.conns[c]);
        OnlyHaveOverlong(f, chunks, net.store, net.conns[c], 0);
      }
      over := Some(if line.TooLong? then Crashed else Failed);
    } else {
      HaveRead(f, chunks, net.store, net0.conns[c], net.conns[c], line.text);
      over, have := None, ParseHave(line.text).value;
      assert Progress(f, chunks, net0, net, c, have, {}, []);
    }
  }

  /** The body of the try. `sent` keeps its old value until the HAVE line has been read. On a calm
      network the attempt returns exactly when that line is not too long for the reader. */
  method Attempt(f: Suite, chunks: seq<seq<byte>>, net0: Net, c: nat, sent0: nat, calm: bool)
    returns (net: Net, ending: Ending, sent: nat, frames: nat, ghost acked: set<nat>)
    requires NetOk(f, chunks, net0) && |chunks| > 0 && sent0 < |chunks|
    requires c < |net0.conns| && net0.conns[c].log == [] && net0.conns[c].read == 0
    ensures Over(f, chunks, net0, net, c, ending, sent, acked)
    ensures frames <= |acked| + 1
    ensures Fits(chunks) && ending.Crashed? ==> Unreadable(|chunks|, net, c)
    ensures calm && Going(net0, net0, c) && Fits(chunks) ==> CalmEnd(|chunks|, net0, net, c, ending, frames)
  {
    var first, have;
    net, first, have := ReadHave(f, chunks, net0, c, calm);
    if first.Some? {
      return net, first.value, sent0, 0, {};
    }
    var last;
    ghost var mine;
    net, last, sent, frames, acked, mine := SendMissing(f, chunks, net0, net, c, have, calm, net0);
    if Fits(chunks) {
      FitsPacks(chunks, have);
    }
    if last.Some? {
      return net, last.value, sent, frames, acked;
    }
    ghost var store := net.store;
    net, ending := LastLine(f, chunks, net, c, mine, calm, net0);
    GrowsOn(f, chunks, net0.store, store, net.store);
  }

  // ---------------------------------------------------------------- the retry loop

  datatype Outcome =
    | Normal
    | Raised          // the last attempt's OSError or IncompleteReadError, or an uncaught error
    | NotConnected    // open_connection failed: it stands outside the try, so it is never retried

  /** Frames acknowledged over all attempts are distinct and were not held at the start: the
      records `r0` of the start, `r1` before and `r2` after the latest attempt. */
  lemma AckedBound(n: nat, r0: set<nat>, r1: set<nat>, r2: set<nat>, acked: set<nat>, newly: set<nat>)
    requires r0 <= r1 <= r2 <= Range(n)
    requires acked <= r1 && acked !! r0 && newly <= r2 && newly !! r1
    ensures acked + newly <= r2 && acked + newly !! r0
    ensures |acked + newly| == |acked| + |newly| <= n - |r0|
  {
    RangeSize(n);
    SubsetSize(r0 + (acked + newly), Range(n));
    assert |r0 + (acked + newly)| == |r0| + |acked + newly|;
  }

  lemma SoundInRange(f: Suite, chunks: seq<seq<byte>>, s: Store)
    requires Sound(f, chunks, s)
    ensures s.rows.Keys <= Range(|chunks|)
  {
  }

  /** What holds between attempts. */
  ghost predicate Between(f: Suite, chunks: seq<seq<byte>>, net0: Net, net: Net, sent: nat, acked: set<nat>) {
    && NetOk(f, chunks, net) && StoreGrows(f, chunks, net0.store, net.store)
    && sent <= |chunks| && (sent == |chunks| ==> Complete(net.store, |chunks|))
    && acked <= net.store.rows.Keys && acked !! net0.store.rows.Keys
    && |acked| <= |chunks| - |net0.store.rows|
  }

  lemma BetweenOn(f: Suite, chunks: seq<seq<byte>>, net0: Net, before: Net, net: Net,
                  sent0: nat, acked: set<nat>, sent: nat, newly: set<nat>)
    requires Between(f, chunks, net0, before, sent0, acked) && Between(f, chunks, before, net, sent, newly)
    ensures Between(f, chunks, net0, net, sent, acked + newly)
    ensures |acked + newly| == |acked| + |newly|
  {
    GrowsOn(f, chunks, net0.store, before.store, net.store);
    assert |net0.store.rows.Keys| == |net0.store.rows|;
    SoundInRange(f, chunks, net.store);
    AckedBound(|chunks|, net0.store.rows.Keys, before.store.rows.Keys, net.store.rows.Keys, acked, newly);
  }

  lemma AckedFits(n: nat, r0: set<nat>, r1: set<nat>, r2: set<nat>, acked: set<nat>)
    requires r0 <= r1 && acked <= r2 <= Range(n) && acked !! r1 && r1 <= r2
    ensures acked !! r0 && |acked| <= n - |r0|
  {
    var none: set<nat> := {};
    AckedBound(n, r0, r1, r2, none, acked);
    assert none + acked == acked;
  }

  lemma OpenGoing(net: Net)
    ensures Going(Open(net), Open(net), |net.conns|)
  {
  }

  lemma OpenAlone(net: Net)
    requires Alone(net, |net.conns|)
    ensures Alone(Open(net), |net.conns|)
  {
  }

  /** writer.close() once the attempt is over. */
  lemma CloseKeeps(f: Suite, chunks: seq<seq<byte>>, net: Net, c: nat)
    requires NetOk(f, chunks, net) && c < |net.conns|
    ensures NetOk(f, chunks, net.(conns := net.conns[c := Close(net.conns[c])]))
    ensures Close(net.conns[c]).listed == net.conns[c].listed && Close(net.conns[c]).log == net.conns[c].log
  {
    var conn := net.conns[c];
    StepKeeps(f, chunks, net, Break(c, true, |conn.inbox|, |conn.lines|, 0));
  }

  /** What one connection comes to on a calm network; `idle`: no other handler was at work. */
  ghost predicate CalmTurn(n: nat, net0: Net, net: Net, ending: Ending, frames: nat) {
    && |net.conns| == |net0.conns| + 1
    && frames == |net.conns[|net0.conns|].log|
    && (!Readable(HaveLine(net.conns[|net0.conns|].listed)) ==> ending.Crashed? && frames == 0)
    && (Readable(HaveLine(net.conns[|net0.conns|].listed)) ==>
          ending.Returned? && net.conns[|net0.conns|].log <= Missing(n, net.conns[|net0.conns|].listed))
    && (Alone(net0, |net0.conns|) ==> net.conns[|net0.conns|].listed == net0.store.rows.Keys)
    && (Alone(net0, |net0.conns|) && Readable(HaveLine(net0.store.rows.Keys)) ==>
          net.conns[|net0.conns|].log == Missing(n, net0.store.rows.Keys))
  }

  lemma CalmConnected(n: nat, net0: Net, ready: Net, last: Net, net: Net, ending: Ending, frames: nat)
    requires |ready.conns| == |net0.conns| && (Alone(net0, |net0.conns|) ==> ready == net0)
    requires |last.conns| == |net0.conns| + 1
    requires CalmEnd(n, Open(ready), last, |net0.conns|, ending, frames)
    requires net == last.(conns := last.conns[|net0.conns| := Close(last.conns[|net0.conns|])])
    ensures CalmTurn(n, net0, net, ending, frames)
  {
    if Alone(net0, |net0.conns|) {
      OpenAlone(net0);
    }
  }

  /** One turn of the retry loop: open a connection, make the attempt, close. */
  method Connect(f: Suite, chunks: seq<seq<byte>>, net0: Net, sent0: nat, calm: bool)
    returns (net: Net, ending: Ending, sent: nat, frames: nat, ghost acked: set<nat>)
    requires NetOk(f, chunks, net0) && |chunks| > 0 && sent0 < |chunks|
    ensures Between(f, chunks, net0, net, sent, acked)
    ensures ending.Returned? ==> Complete(net.store, |chunks|)
    ensures ending.FellThrough? ==> sent == |chunks|
    ensures frames <= |acked| + 1 && |net.conns| == |net0.conns| + 1
    ensures Fits(chunks) && ending.Crashed? ==> Unreadable(|chunks|, net, |net0.conns|)
    ensures calm && Fits(chunks) ==> CalmTurn(|chunks|, net0, net, ending, frames)
  {
    var ready := Environment(f, chunks, net0, |net0.conns|, calm, net0);
    OpenKeeps(f, chunks, ready);
    var c := |ready.conns|;
    OpenGoing(ready);
    var last;
    last, ending, sent, frames, acked := Attempt(f, chunks, Open(ready), c, sent0, calm);
    GrowsOn(f, chunks, net0.store, ready.store, last.store);
    SoundInRange(f, chunks, last.store);
    assert |net0.store.rows.Keys| == |net0.store.rows|;
    AckedFits(|chunks|, net0.store.rows.Keys, ready.store.rows.Keys, last.store.rows.Keys, acked);
    CloseKeeps(f, chunks, last, c);
    net := last.(conns := last.conns[c := Close(last.conns[c])]);
    if calm && Fits(chunks) {
      CalmConnected(|chunks|, net0, ready, last, net, ending, frames);
    }
  }

  /** What retrying achieves, for chunks whose frames fit their headers; the network is calm from
      attempt `storms` + 1 on. */
  ghost predicate Verdict(n: nat, net: Net, storms: nat, outcome: Outcome, attempt: nat, last: Option<Ending>) {
    && (last == Some(Crashed) ==> |net.conns| > 0 && Unreadable(n, net, |net.conns| - 1))
    && (attempt > storms ==>
          && attempt == storms + 1 && |net.conns| > 0
          && outcome == (if Readable(HaveLine(net.conns[|net.conns| - 1].listed)) then Normal else Raised)
          && net.conns[|net.conns| - 1].log <= Missing(n, net.conns[|net.conns| - 1].listed))
    && (n <= 12773 && storms <= 2 ==>
          outcome == Normal || (outcome == NotConnected && attempt <= storms))
  }

  lemma TurnVerdict(n: nat, before: Net, net: Net, storms: nat, attempt: nat, ending: Ending, frames: nat)
    requires |net.conns| == |before.conns| + 1 && attempt <= storms + 1
    requires ending.Crashed? ==> Unreadable(n, net, |before.conns|)
    requires attempt > storms ==> CalmTurn(n, before, net, ending, frames)
    ensures ending.Returned? ==> Verdict(n, net, storms, Normal, attempt, Some(ending))
    ensures ending.Crashed? || (ending.Failed? && attempt >= 3) ==>
              Verdict(n, net, storms, Raised, attempt, Some(ending))
    ensures attempt > storms ==> ending.Returned? || ending.Crashed?
  {
    if ending.Crashed? && n <= 12773 {
      BelowFits(net.conns[|before.conns|].listed, n);
    }
  }

  /** Exactly the missing chunks were sent, or none because the HAVE line is not readable. */
  ghost predicate OnlyMissing(n: nat, net0: Net, net: Net, frames: nat) {
    && |net.conns| == |net0.conns| + 1
    && net.conns[|net0.conns|].listed == net0.store.rows.Keys
    && net.conns[|net0.conns|].log
    == (if Readable(HaveLine(net0.store.rows.Keys)) then Missing(n, net0.store.rows.Keys) else [])
    && frames == |net.conns[|net0.conns|].log|
  }

  lemma CalmSendsMissing(n: nat, net0: Net, net: Net, ending: Ending, frames: nat)
    requires CalmTurn(n, net0, net, ending, frames) && Alone(net0, |net0.conns|)
    ensures OnlyMissing(n, net0, net, frames)
  {
  }

  /** A turn of the retry loop, with what it adds to the turns before it. */
  method Retry(f: Suite, chunks: seq<seq<byte>>, ghost net0: Net, net1: Net, sent0: nat, ghost acked0: set<nat>,
               attempt: nat, storms: nat)
    returns (net: Net, ending: Ending, sent: nat, frames: nat, ghost acked: set<nat>)
    requires Between(f, chunks, net0, net1, sent0, acked0) && |chunks| > 0 && sent0 < |chunks|
    requires Fits(chunks) ==> attempt <= storms + 1
    ensures Between(f, chunks, net0, net, sent, acked)
    ensures ending.Returned? ==> Complete(net.store, |chunks|)
    ensures ending.FellThrough? ==> sent == |chunks|
    ensures frames + |acked0| <= |acked| + 1
    ensures Fits(chunks) && ending.Returned? ==> Verdict(|chunks|, net, storms, Normal, attempt, Some(ending))
    ensures Fits(chunks) && (ending.Crashed? || (ending.Failed? && attempt >= 3)) ==>
              Verdict(|chunks|, net, storms, Raised, attempt, Some(ending))
    ensures Fits(chunks) && attempt > storms ==> ending.Returned? || ending.Crashed?
    ensures Fits(chunks) && attempt > storms && Alone(net1, |net1.conns|) ==> OnlyMissing(|chunks|, net1, net, frames)
  {
    ghost var newly;
    net, ending, sent, frames, newly := Connect(f, chunks, net1, sent0, attempt > storms);
    BetweenOn(f, chunks, net0, net1, net, sent0, acked0, sent, newly);
    acked := acked0 + newly;
    if Fits(chunks) {
      TurnVerdict(|chunks|, net1, net, storms, attempt, ending, frames);
      if attempt > storms && Alone(net1, |net1.conns|) {
        CalmSendsMissing(|chunks|, net1, net, ending, frames);
      }
    }
  }

  /** _upload_chunks. Started on any sound store and any leftovers of earlier uploads of the same
      chunks, under every schedule of handlers, breaks and deaths: a normal return means that
      exactly the records 0..n-1 are there; whatever the outcome every record is sound and none is
      lost; and at most one frame is wasted by each attempt. The call raises only after the third
      attempt, or at a HAVE line the reader does not admit.
      From attempt `storms` + 1 on the network is calm: handlers run, nothing breaks, no connection is
      refused. The first calm attempt is the last, and succeeds exactly if the reader admits the HAVE
      line; so an upload of up to 12773 chunks survives two broken attempts. If all is calm and no
      earlier handler is at work, exactly the missing chunks are sent.
      `refusal` is the first attempt whose connection is refused, 0 if none is; it ends the call.
      `last` is how the last attempt ended, None if it found no connection. */
  method UploadChunks(f: Suite, chunks: seq<seq<byte>>, net0: Net, storms: nat, refusal: nat)
    returns (net: Net, outcome: Outcome, attempt: nat, frames: nat, last: Option<Ending>)
    requires NetOk(f, chunks, net0) && |chunks| > 0 && refusal <= storms
    ensures NetOk(f, chunks, net) && StoreGrows(f, chunks, net0.store, net.store)
    ensures outcome == Normal ==> Complete(net.store, |chunks|)
    ensures 1 <= attempt <= 3
    ensures frames <= |chunks| - |net0.store.rows| + attempt
    ensures outcome == NotConnected <==> last.None?
    ensures outcome == NotConnected <==> attempt == refusal
    ensures refusal > 0 ==> attempt <= refusal
    ensures outcome == Raised
       <==> last.Some? && (last.value.Crashed? || (last.value.Failed? && attempt == 3))
    ensures Fits(chunks) ==> Verdict(|chunks|, net, storms, outcome, attempt, last)
    ensures Fits(chunks) && |chunks| <= 12773 && storms <= 2 ==>
              outcome == Normal || (outcome == NotConnected && attempt <= storms)
    ensures Fits(chunks) && storms == 0 && Alone(net0, |net0.conns|) ==> OnlyMissing(|chunks|, net0, net, frames)
  {
    net, attempt, frames, last := net0, 0, 0, None;
    var sent: nat := 0;
    ghost var acked: set<nat> := {};
    CountIsComplete(f, chunks, net.store);
    while sent < |chunks| && attempt < MAX_ATTEMPTS
      invariant Between(f, chunks, net0, net, sent, acked)
      invariant attempt <= 3
      invariant attempt == 3 ==> sent == |chunks|
      invariant attempt == 0 ==> sent == 0 && frames == 0 && net == net0
      invariant attempt > 0 ==> last.Some? && !last.value.Crashed? && (last.value.Failed? ==> attempt < 3)
      invariant frames <= |acked| + attempt
      invariant refusal > 0 ==> attempt < refusal
      invariant Fits(chunks) ==> attempt <= storms
      decreases 3 - attempt
    {
      attempt := attempt + 1;
      if attempt == refusal {
        return net, NotConnected, attempt, frames, None;
      }
      var ending: Ending, more: nat;
      net, ending, sent, more, acked := Retry(f, chunks, net0, net, sent, acked, attempt, storms);
      frames, last := frames + more, Some(ending);
      if ending.Returned? {
        return net, Normal, attempt, frames, last;
      }
      if ending.Crashed? || (ending.Failed? && attempt >= MAX_ATTEMPTS) {
        return net, Raised, attempt, frames, last;
      }
    }
    outcome := Normal;
  }
}
