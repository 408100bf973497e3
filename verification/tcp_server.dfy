/** server/tcp_server.py: one upload or download connection, run against the bytes it receives. */
module TcpServer {
  import opened Bytes
  import opened Text
  import opened Crypto
  import opened Sets
  import opened Frames
  import opened ChunkStore

  const ACK := "ACK\n"
  const DONE := "DONE\n"

  predicate IsAscii(bs: seq<byte>) {
    forall i :: 0 <= i < |bs| ==> bs[i] < 128
  }

  predicate IsSpaceByte(b: byte) {
    IsSpace(b as char)
  }

  function StripLeft(bs: seq<byte>): seq<byte> {
    if |bs| > 0 && IsSpaceByte(bs[0]) then StripLeft(bs[1..]) else bs
  }

  function StripRight(bs: seq<byte>): seq<byte> {
    if |bs| > 0 && IsSpaceByte(bs[|bs| - 1]) then StripRight(bs[..|bs| - 1]) else bs
  }

  /** How an upload connection stands once it has handled everything that reached it. */
  datatype Ending =
    | Waiting   // reading; a closed connection ends it here
    | Refused   // the checksum field was not ASCII
    | Finished  // DONE was written

  datatype Session = Session(store: Store, lines: seq<string>, ending: Ending)

  function After(lines: seq<string>, next: Session): Session {
    next.(lines := lines + next.lines)
  }

  function Take(s: Store, frame: Frame): Store {
    AfterStore(s, frame.index, frame.payload, StripLeft(StripRight(frame.checksum)))
  }

  /** The upload loop, frame by frame. */
  function Serve(s: Store, total: int, frames: seq<Frame>): Session
    decreases |frames|
  {
    if |s.rows| >= total then Session(s, [DONE], Finished)
    else if |frames| == 0 then Session(s, [], Waiting)
    else if !IsAscii(frames[0].checksum) then Session(s, [], Refused)
    else After([ACK], Serve(Take(s, frames[0]), total, frames[1..]))
  }

  lemma ServeFirst(s: Store, total: int, frames: seq<Frame>)
    requires |s.rows| < total && |frames| > 0 && IsAscii(frames[0].checksum)
    ensures Serve(s, total, frames) == After([ACK], Serve(Take(s, frames[0]), total, frames[1..]))
  {
  }

  lemma AfterAck(lines: seq<string>, next: Session)
    ensures After(lines, After([ACK], next)) == After(lines + [ACK], next)
  {
    assert lines + ([ACK] + next.lines) == (lines + [ACK]) + next.lines;
  }

  lemma ServeNext(s: Store, total: int, rest: seq<byte>, frame: Frame, after: seq<byte>, lines: seq<string>)
    requires |s.rows| < total && ReadFrame(rest) == Some((frame, after))
    ensures After(lines, Serve(s, total, DecodeAll(rest)))
         == if !IsAscii(frame.checksum) then Session(s, lines, Refused)
            else After(lines + [ACK], Serve(Take(s, frame), total, DecodeAll(after)))
  {
    var frames := DecodeAll(rest);
    assert frames == [frame] + DecodeAll(after);
    assert frames[0] == frame && frames[1..] == DecodeAll(after);
    if IsAscii(frame.checksum) {
      ServeFirst(s, total, frames);
      AfterAck(lines, Serve(Take(s, frame), total, DecodeAll(after)));
    } else {
      assert Serve(s, total, frames) == Session(s, [], Refused);
      assert lines + [] == lines;
    }
  }

  /** _process_upload from the file lookup on; `input` is everything that arrives before the
      connection ends, `have` the first line written and `lines` the ones after it. */
  method ProcessUpload(files: ChunkFiles, total: int, input: seq<byte>)
    returns (have: string, lines: seq<string>, ending: Ending)
    requires files.Valid()
    modifies files
    ensures files.Valid()
    ensures have == HaveLine(old(files.rows.Keys))
    ensures Session(files.View(), lines, ending) == Serve(old(files.View()), total, DecodeAll(input))
  {
    ghost var goal := Serve(files.View(), total, DecodeAll(input));
    have, lines := HaveLine(files.rows.Keys), [];
    var rest := input;
    var count := files.CountDelivered();
    while count < total
      invariant files.Valid() && count == |files.rows|
      invariant goal == After(lines, Serve(files.View(), total, DecodeAll(rest)))
      decreases |rest|
    {
      var read := ReadFrame(rest);
      if read.None? {
        return have, lines, Waiting;
      }
      var (frame, after) := read.value;
      ServeNext(files.View(), total, rest, frame, after, lines);
      if !IsAscii(frame.checksum) {
        return have, lines, Refused;
      }
      files.StoreChunk(frame.index, frame.payload, StripLeft(StripRight(frame.checksum)));
      lines, rest := lines + [ACK], after;
      count := files.CountDelivered();
    }
    lines, ending := lines + [DONE], Finished;
  }

  predicate Recorded(s: Store, indexes: seq<nat>) {
    forall i :: i in indexes ==> i in s.rows
  }

  /** The frames a download sends: records in index order, until one has no data or a checksum
      of the wrong length. */
  function DownloadFrames(s: Store, indexes: seq<nat>): seq<Frame>
    requires Recorded(s, indexes)
  {
    if |indexes| == 0 then []
    else
      match ReadDisk(s, indexes[0])
      case None => []
      case Some(data) =>
        if |s.rows[indexes[0]]| != CHECKSUM_LEN then []
        else [Frame(indexes[0], s.rows[indexes[0]], data)] + DownloadFrames(s, indexes[1..])
  }

  function Download(s: Store): seq<Frame> {
    DownloadFrames(s, Sorted(s.rows.Keys))
  }

  lemma DownloadNext(s: Store, indexes: seq<nat>, frame: Frame)
    requires |indexes| > 0 && Recorded(s, indexes)
    requires ReadDisk(s, indexes[0]) == Some(frame.payload) && |frame.checksum| == CHECKSUM_LEN
    requires frame.index == indexes[0] && frame.checksum == s.rows[indexes[0]]
    ensures EncodeAll(DownloadFrames(s, indexes)) == Encode(frame) + EncodeAll(DownloadFrames(s, indexes[1..]))
  {
    var tail := DownloadFrames(s, indexes[1..]);
    assert DownloadFrames(s, indexes) == [frame] + tail;
    assert ([frame] + tail)[1..] == tail;
  }

  lemma DownloadStops(s: Store, indexes: seq<nat>, output: seq<byte>)
    requires Recorded(s, indexes)
    requires |indexes| > 0 ==> ReadDisk(s, indexes[0]).None? || |s.rows[indexes[0]]| != CHECKSUM_LEN
    ensures output + EncodeAll(DownloadFrames(s, indexes)) == output
  {
    assert DownloadFrames(s, indexes) == [];
  }

  /** _process_download once the file is known. */
  method ProcessDownload(files: ChunkFiles) returns (output: seq<byte>)
    requires files.Valid()
    ensures output == EncodeAll(Download(files.View()))
  {
    output := [];
    ghost var view, goal := files.View(), EncodeAll(Download(files.View()));
    var rest := Sorted(files.rows.Keys);
    while |rest| > 0
      invariant files.View() == view
      invariant Recorded(view, rest)
      invariant goal == output + EncodeAll(DownloadFrames(view, rest))
    {
      var index := rest[0];
      var data := files.GetChunk(index);
      if data.None? || |files.rows[index]| != CHECKSUM_LEN {
        DownloadStops(view, rest, output);
        return;
      }
      var frame := Frame(index, files.rows[index], data.value);
      DownloadNext(view, rest, frame);
      Regroup(output, Encode(frame), EncodeAll(DownloadFrames(view, rest[1..])));
      output := output + Encode(frame);
      rest := rest[1..];
    }
    DownloadStops(view, rest, output);
  }

  /** What is stored for index i can be sent. */
  predicate Sendable(s: Store, i: nat) {
    i in s.rows && i in s.disk && |s.rows[i]| == 64
  }

  /** The frames `d` are those of the first |d| indexes, and the next one cannot be sent. */
  ghost predicate SendsUntil(s: Store, indexes: seq<nat>, d: seq<Frame>) {
    && |d| <= |indexes|
    && (forall j :: 0 <= j < |d| ==>
          Sendable(s, indexes[j]) && d[j] == Frame(indexes[j], s.rows[indexes[j]], s.disk[indexes[j]]))
    && (|d| < |indexes| ==> !Sendable(s, indexes[|d|]))
  }

  lemma {:induction false} DownloadSends(s: Store, indexes: seq<nat>)
    requires Recorded(s, indexes)
    ensures SendsUntil(s, indexes, DownloadFrames(s, indexes))
    decreases |indexes|
  {
    if |indexes| > 0 {
      DownloadSends(s, indexes[1..]);
    }
  }

  /** A download of any store sends the records in index order up to the first that has no data or
      a checksum of the wrong length, and nothing after it. */
  lemma DownloadStopsAt(s: Store)
    ensures SendsUntil(s, Sorted(s.rows.Keys), Download(s))
  {
    DownloadSends(s, Sorted(s.rows.Keys));
  }

  // ---------------------------------------------------------------- without breaks

  lemma {:induction false} DigestUntouched(bs: seq<byte>)
    requires forall i :: 0 <= i < |bs| ==> IsHexByte(bs[i])
    ensures IsAscii(bs) && StripLeft(StripRight(bs)) == bs
  {
  }

  function Acks(k: nat): (lines: seq<string>)
    ensures |lines| == k
  {
    seq(k, _ => ACK)
  }

  /** The indexes a client owes a server that listed `have`, in the order it sends them. */
  function Missing(n: nat, have: set<nat>): seq<nat> {
    Sorted(Range(n) - have)
  }

  /** One honest frame for each of `indexes`, in order. */
  ghost predicate FramesFor(f: Suite, chunks: seq<seq<byte>>, indexes: seq<nat>, frames: seq<Frame>) {
    && |frames| == |indexes|
    && (forall j :: 0 <= j < |frames| ==> frames[j].index == indexes[j] && Honest(f, chunks, frames[j]))
  }

  ghost predicate AllHonest(f: Suite, chunks: seq<seq<byte>>, frames: seq<Frame>) {
    forall j :: 0 <= j < |frames| ==> Honest(f, chunks, frames[j])
  }

  /** No index twice, none of them recorded yet. */
  ghost predicate Fresh(s: Store, frames: seq<Frame>) {
    && (forall j :: 0 <= j < |frames| ==> frames[j].index !in s.rows)
    && (forall i, j :: 0 <= i < j < |frames| ==> frames[i].index != frames[j].index)
  }

  lemma TakeHonest(f: Suite, chunks: seq<seq<byte>>, s: Store, frames: seq<Frame>)
    requires Sound(f, chunks, s) && |frames| > 0 && Honest(f, chunks, frames[0]) && Fresh(s, frames)
    ensures IsAscii(frames[0].checksum) && |s.rows| < |chunks|
    ensures Sound(f, chunks, Take(s, frames[0])) && |Take(s, frames[0]).rows| == |s.rows| + 1
  {
    CountIsComplete(f, chunks, s);
    var first := frames[0];
    assert first.index in Range(|chunks|) && first.index !in s.rows.Keys;
    DigestUntouched(first.checksum);
    StoreKeepsSound(f, chunks, s, first);
    assert Take(s, first).rows == s.rows[first.index := first.checksum];
  }

  lemma StillFresh(f: Suite, chunks: seq<seq<byte>>, s: Store, frames: seq<Frame>)
    requires |frames| > 0 && Fresh(s, frames) && AllHonest(f, chunks, frames)
    ensures Honest(f, chunks, frames[0])
    ensures Fresh(Take(s, frames[0]), frames[1..]) && AllHonest(f, chunks, frames[1..])
  {
    var rest := frames[1..];
    assert forall j :: 0 <= j < |rest| ==> rest[j] == frames[j + 1];
  }

  /** The session `r` of a server that held `s` and was sent k frames it lacked. */
  ghost predicate ServedAll(f: Suite, chunks: seq<seq<byte>>, s: Store, k: nat, r: Session) {
    && Sound(f, chunks, r.store)
    && |r.store.rows| == |s.rows| + k
    && r.ending == (if |r.store.rows| == |chunks| then Finished else Waiting)
    && r.lines == Acks(k) + (if r.ending == Finished then [DONE] else [])
  }

  lemma ServedOneMore(f: Suite, chunks: seq<seq<byte>>, s: Store, t: Store, k: nat, r: Session)
    requires |t.rows| == |s.rows| + 1 && ServedAll(f, chunks, t, k, r)
    ensures ServedAll(f, chunks, s, k + 1, After([ACK], r))
  {
    assert [ACK] + Acks(k) == Acks(k + 1);
  }

  lemma ServedFirst(f: Suite, chunks: seq<seq<byte>>, s: Store, frames: seq<Frame>)
    requires |s.rows| < |chunks| && |frames| > 0 && IsAscii(frames[0].checksum)
    requires |Take(s, frames[0]).rows| == |s.rows| + 1
    requires ServedAll(f, chunks, Take(s, frames[0]), |frames| - 1, Serve(Take(s, frames[0]), |chunks|, frames[1..]))
    ensures ServedAll(f, chunks, s, |frames|, Serve(s, |chunks|, frames))
  {
    ServeFirst(s, |chunks|, frames);
    ServedOneMore(f, chunks, s, Take(s, frames[0]), |frames| - 1, Serve(Take(s, frames[0]), |chunks|, frames[1..]));
  }

  lemma ServedNone(f: Suite, chunks: seq<seq<byte>>, s: Store)
    requires Sound(f, chunks, s)
    ensures ServedAll(f, chunks, s, 0, Serve(s, |chunks|, []))
  {
    CountIsComplete(f, chunks, s);
    assert Acks(0) == [] && [] + [DONE] == [DONE];
  }

  lemma {:induction false} ServeHonest(f: Suite, chunks: seq<seq<byte>>, s: Store, frames: seq<Frame>)
    requires Sound(f, chunks, s) && Fresh(s, frames) && AllHonest(f, chunks, frames)
    ensures ServedAll(f, chunks, s, |frames|, Serve(s, |chunks|, frames))
    decreases |frames|
  {
    if |frames| == 0 {
      ServedNone(f, chunks, s);
    } else {
      StillFresh(f, chunks, s, frames);
      TakeHonest(f, chunks, s, frames);
      ServeHonest(f, chunks, Take(s, frames[0]), frames[1..]);
      ServedFirst(f, chunks, s, frames);
    }
  }

  lemma FramesFresh(f: Suite, chunks: seq<seq<byte>>, s: Store, indexes: seq<nat>, frames: seq<Frame>, k: nat)
    requires FramesFor(f, chunks, indexes, frames) && k <= |frames|
    requires Increasing(indexes) && forall j :: 0 <= j < |indexes| ==> indexes[j] !in s.rows
    ensures Fresh(s, frames[..k])
    ensures AllHonest(f, chunks, frames[..k])
  {
  }

  lemma MissingFacts(n: nat, have: set<nat>)
    requires have <= Range(n)
    ensures var m := Missing(n, have);
            && |m| == n - |have| && Increasing(m)
            && forall j :: 0 <= j < |m| ==> m[j] !in have && m[j] < n
  {
    RangeSize(n);
    var rest := Range(n) - have;
    assert Range(n) == have + rest;
    forall j | 0 <= j < |Missing(n, have)|
      ensures Missing(n, have)[j] in rest
    {
      assert Missing(n, have)[j] in Missing(n, have);
    }
  }

  lemma OwedAreFresh(f: Suite, chunks: seq<seq<byte>>, s: Store, frames: seq<Frame>, k: nat)
    requires Sound(f, chunks, s) && FramesFor(f, chunks, Missing(|chunks|, s.rows.Keys), frames)
    requires k <= |frames|
    ensures |frames| == |chunks| - |s.rows|
    ensures Fresh(s, frames[..k])
    ensures AllHonest(f, chunks, frames[..k])
  {
    MissingFacts(|chunks|, s.rows.Keys);
    assert |s.rows| == |s.rows.Keys|;
    FramesFresh(f, chunks, s, Missing(|chunks|, s.rows.Keys), frames, k);
  }

  /** Lockstep: from any sound partial store, once the client has sent the first k frames it owes
      the server has written HAVE, exactly k ACKs, and DONE precisely when nothing is owed any
      more. So while k frames have been sent and fewer than k acknowledgements read the client's
      next line is already there, the server waits only for a frame the client still owes, and
      n minus the recorded count falls by one with every frame until DONE. */
  lemma Lockstep(f: Suite, chunks: seq<seq<byte>>, s: Store, frames: seq<Frame>, k: nat)
    requires Sound(f, chunks, s) && FramesFor(f, chunks, Missing(|chunks|, s.rows.Keys), frames)
    requires k <= |frames|
    ensures |frames| == |chunks| - |s.rows|
    ensures Serve(s, |chunks|, frames[..k]).lines == Acks(k) + (if k == |frames| then [DONE] else [])
    ensures Serve(s, |chunks|, frames[..k]).ending == if k == |frames| then Finished else Waiting
    ensures |chunks| - |Serve(s, |chunks|, frames[..k]).store.rows| == |frames| - k
    ensures k == |frames| ==> Complete(Serve(s, |chunks|, frames[..k]).store, |chunks|)
  {
    var sent := frames[..k];
    OwedAreFresh(f, chunks, s, frames, k);
    ServeHonest(f, chunks, s, sent);
    CountIsComplete(f, chunks, Serve(s, |chunks|, sent).store);
  }

  // ---------------------------------------------------------------- whatever is sent

  function Indexes(frames: seq<Frame>): set<nat> {
    if |frames| == 0 then {} else {frames[0].index} + Indexes(frames[1..])
  }

  predicate Numbers(frames: seq<Frame>, total: nat, i: nat) {
    exists j: nat :: j < total && j < |frames| && frames[j].index == i
  }

  /** Position j holds the first frame with its index. */
  predicate IsFirst(frames: seq<Frame>, j: nat) {
    j < |frames| && forall k: nat :: k < j ==> frames[k].index != frames[j].index
  }

  /** Position j holds the last of the first `total` frames with its index. */
  predicate IsLast(frames: seq<Frame>, total: nat, j: nat) {
    j < total <= |frames| && forall k: nat :: j < k < total ==> frames[k].index != frames[j].index
  }

  function TakeAll(s: Store, frames: seq<Frame>): Store
    decreases |frames|
  {
    if |frames| == 0 then s else TakeAll(Take(s, frames[0]), frames[1..])
  }

  /** ASCII, as a bytes.decode("ascii") that does not raise has it. */
  predicate SevenBit(bs: seq<byte>) {
    forall b :: b in bs ==> b < 128
  }

  lemma AsciiIff(bs: seq<byte>)
    ensures IsAscii(bs) <==> SevenBit(bs)
  {
    if SevenBit(bs) {
      assert forall i :: 0 <= i < |bs| ==> bs[i] in bs;
    }
  }

  /** The session `r` answered the first k frames, each ASCII and found with too few records, and
      ended as it must: by DONE once there are enough records, by waiting if no frame is left, and by
      refusing the next frame if its checksum is not ASCII. */
  ghost predicate Exact(s: Store, total: int, frames: seq<Frame>, r: Session, k: nat) {
    && k <= |frames| && r.store == TakeAll(s, frames[..k])
    && r.lines == Acks(k) + (if r.ending.Finished? then ["DONE\n"] else [])
    && (forall j :: 0 <= j < k ==> SevenBit(frames[j].checksum) && |TakeAll(s, frames[..j]).rows| < total)
    && (r.ending.Finished? <==> |r.store.rows| >= total)
    && (r.ending.Waiting? <==> |r.store.rows| < total && k == |frames|)
    && (r.ending.Refused? <==> |r.store.rows| < total && k < |frames| && !SevenBit(frames[k].checksum))
  }

  lemma TakeFirst(s: Store, frames: seq<Frame>, k: nat)
    requires 0 < k <= |frames|
    ensures TakeAll(s, frames[..k]) == TakeAll(Take(s, frames[0]), frames[1..][..k - 1])
  {
    assert frames[..k][0] == frames[0] && frames[..k][1..] == frames[1..][..k - 1];
  }

  lemma ExactFirst(s: Store, total: int, frames: seq<Frame>, next: Session, k: nat)
    requires |frames| > 0 && SevenBit(frames[0].checksum) && |s.rows| < total
    requires Exact(Take(s, frames[0]), total, frames[1..], next, k)
    ensures Exact(s, total, frames, After([ACK], next), k + 1)
  {
    TakeFirst(s, frames, k + 1);
    assert [ACK] + Acks(k) == Acks(k + 1);
    assert frames[..0] == [];
    forall j | 0 <= j < k + 1
      ensures SevenBit(frames[j].checksum) && |TakeAll(s, frames[..j]).rows| < total
    {
      if j > 0 {
        TakeFirst(s, frames, j);
        assert frames[1..][j - 1] == frames[j];
      }
    }
  }

  /** The upload loop on any frames at all. */
  lemma {:induction false} ServeExact(s: Store, total: int, frames: seq<Frame>) returns (k: nat)
    ensures Exact(s, total, frames, Serve(s, total, frames), k)
    decreases |frames|
  {
    k := 0;
    assert frames[..0] == [] && Acks(0) == [];
    if |frames| > 0 {
      AsciiIff(frames[0].checksum);
    }
    if |s.rows| < total && |frames| > 0 && IsAscii(frames[0].checksum) {
      ServeFirst(s, total, frames);
      k := ServeExact(Take(s, frames[0]), total, frames[1..]);
      ExactFirst(s, total, frames, Serve(Take(s, frames[0]), total, frames[1..]), k);
      k := k + 1;
    }
  }

  /** Spaces, tabs, line ends, and the four separators that count as white space in text. */
  predicate AllWhite(bs: seq<byte>) {
    forall i :: 0 <= i < |bs| ==> bs[i] == 32 || 9 <= bs[i] <= 13 || 28 <= bs[i] <= 31
  }

  /** `r` is `bs` without the white space at its ends. */
  ghost predicate IsStripped(bs: seq<byte>, r: seq<byte>) {
    && (r != [] ==> !AllWhite([r[0]]) && !AllWhite([r[|r| - 1]]))
    && exists a, b :: bs == a + r + b && AllWhite(a) && AllWhite(b)
  }

  lemma WhiteByte(b: byte)
    ensures IsSpaceByte(b) <==> AllWhite([b])
  {
    assert [b][0] == b;
  }

  lemma WhiteJoin(a: seq<byte>, b: seq<byte>)
    requires AllWhite(a) && AllWhite(b)
    ensures AllWhite(a + b)
  {
  }

  lemma {:induction false} StripsRight(bs: seq<byte>) returns (b: seq<byte>)
    ensures bs == StripRight(bs) + b && AllWhite(b)
    ensures StripRight(bs) != [] ==> !AllWhite([StripRight(bs)[|StripRight(bs)| - 1]])
  {
    b := [];
    if |bs| > 0 {
      var n := |bs| - 1;
      WhiteByte(bs[n]);
      if IsSpaceByte(bs[n]) {
        var c := StripsRight(bs[..n]);
        WhiteJoin(c, [bs[n]]);
        b := c + [bs[n]];
      }
    }
  }

  lemma {:induction false} StripsLeft(bs: seq<byte>) returns (a: seq<byte>)
    ensures bs == a + StripLeft(bs) && AllWhite(a)
    ensures StripLeft(bs) != [] ==> !AllWhite([StripLeft(bs)[0]])
  {
    a := [];
    if |bs| > 0 {
      WhiteByte(bs[0]);
      if IsSpaceByte(bs[0]) {
        var c := StripsLeft(bs[1..]);
        WhiteJoin([bs[0]], c);
        a := [bs[0]] + c;
      }
    }
  }

  lemma StripsBoth(bs: seq<byte>)
    ensures IsStripped(bs, StripLeft(StripRight(bs)))
  {
    var b := StripsRight(bs);
    var a := StripsLeft(StripRight(bs));
    var r := StripLeft(StripRight(bs));
    assert bs == a + r + b;
    assert r != [] ==> r[|r| - 1] == StripRight(bs)[|StripRight(bs)| - 1];
  }

  /** The records of `t`, reached from `s` by storing `frames`: an index keeps the first checksum it
      was ever recorded with. */
  ghost predicate KeepsFirst(s: Store, frames: seq<Frame>, t: Store) {
    && t.rows.Keys == s.rows.Keys + Indexes(frames)
    && (forall i :: i in s.rows ==> i in t.rows && t.rows[i] == s.rows[i])
    && (forall j: nat :: IsFirst(frames, j) && frames[j].index !in s.rows ==>
          frames[j].index in t.rows && IsStripped(frames[j].checksum, t.rows[frames[j].index]))
  }

  /** The files of `t`: an index has the data that came last. */
  ghost predicate KeepsLast(s: Store, frames: seq<Frame>, t: Store) {
    && (forall j: nat :: IsLast(frames, |frames|, j) ==>
          frames[j].index in t.disk && t.disk[frames[j].index] == frames[j].payload)
    && (forall i :: i !in Indexes(frames) ==> ReadDisk(t, i) == ReadDisk(s, i))
  }

  lemma NumbersFirst(frames: seq<Frame>, total: nat, i: nat)
    requires 0 < total <= |frames|
    ensures Numbers(frames, total, i) <==> frames[0].index == i || Numbers(frames[1..], total - 1, i)
  {
    if Numbers(frames[1..], total - 1, i) {
      var j: nat :| j < total - 1 && j < |frames[1..]| && frames[1..][j].index == i;
      assert frames[j + 1].index == i;
    }
    if Numbers(frames, total, i) {
      var j: nat :| j < total && j < |frames| && frames[j].index == i;
      assert j > 0 ==> frames[1..][j - 1].index == i;
    }
  }

  lemma {:induction false} IndexesAll(frames: seq<Frame>)
    ensures forall i :: i in Indexes(frames) <==> Numbers(frames, |frames|, i)
    decreases |frames|
  {
    if |frames| > 0 {
      IndexesAll(frames[1..]);
      forall i
        ensures i in Indexes(frames) <==> Numbers(frames, |frames|, i)
      {
        NumbersFirst(frames, |frames|, i);
      }
    }
  }

  lemma LastFirst(frames: seq<Frame>, total: nat, j: nat)
    requires 0 < total && IsLast(frames, total, j)
    ensures j > 0 ==> IsLast(frames[1..], total - 1, j - 1)
    ensures j == 0 ==> !Numbers(frames[1..], total - 1, frames[0].index)
  {
    forall k: nat | j <= k < total - 1
      ensures frames[1..][k].index != frames[j].index
    {
      assert frames[1..][k] == frames[k + 1];
    }
  }

  lemma FirstLater(frames: seq<Frame>, j: nat)
    requires IsFirst(frames, j) && j > 0
    ensures IsFirst(frames[1..], j - 1) && frames[j].index != frames[0].index
  {
    forall k: nat | k < j - 1
      ensures frames[1..][k].index != frames[1..][j - 1].index
    {
      assert frames[1..][k] == frames[k + 1];
    }
  }

  lemma KeepsFirstFrom(s: Store, frames: seq<Frame>, t: Store)
    requires |frames| > 0 && KeepsFirst(Take(s, frames[0]), frames[1..], t)
    ensures KeepsFirst(s, frames, t)
  {
    forall j: nat | IsFirst(frames, j) && frames[j].index !in s.rows
      ensures frames[j].index in t.rows && IsStripped(frames[j].checksum, t.rows[frames[j].index])
    {
      StripsBoth(frames[j].checksum);
      if j > 0 {
        FirstLater(frames, j);
        assert frames[1..][j - 1] == frames[j];
      }
    }
  }

  lemma KeepsLastFrom(s: Store, frames: seq<Frame>, t: Store)
    requires |frames| > 0 && KeepsLast(Take(s, frames[0]), frames[1..], t)
    ensures KeepsLast(s, frames, t)
  {
    IndexesAll(frames[1..]);
    forall j: nat | IsLast(frames, |frames|, j)
      ensures frames[j].index in t.disk && t.disk[frames[j].index] == frames[j].payload
    {
      LastFirst(frames, |frames|, j);
      if j > 0 {
        assert frames[1..][j - 1] == frames[j];
      } else {
        assert ReadDisk(t, frames[0].index) == Some(frames[0].payload);
      }
    }
  }

  /** Storing any frames, in any order, with any repetitions: the first checksum and the last data
      of each index are kept, and no other index is touched. */
  lemma {:induction false} TakenStay(s: Store, frames: seq<Frame>)
    ensures KeepsFirst(s, frames, TakeAll(s, frames))
    ensures KeepsLast(s, frames, TakeAll(s, frames))
    decreases |frames|
  {
    if |frames| > 0 {
      TakenStay(Take(s, frames[0]), frames[1..]);
      KeepsFirstFrom(s, frames, TakeAll(s, frames));
      KeepsLastFrom(s, frames, TakeAll(s, frames));
    }
  }

  // ---------------------------------------------------------------- counting alone

  predicate InRange(frames: seq<Frame>, n: nat) {
    forall j :: 0 <= j < |frames| ==> frames[j].index < n
  }

  lemma {:induction false} IndexesInRange(frames: seq<Frame>, n: nat)
    ensures Indexes(frames) <= Range(n) <==> InRange(frames, n)
    decreases |frames|
  {
    if |frames| > 0 {
      IndexesInRange(frames[1..], n);
      assert InRange(frames, n) <==> frames[0].index < n && InRange(frames[1..], n) by {
        assert forall j :: 0 < j < |frames| ==> frames[j] == frames[1..][j - 1];
      }
    }
  }

  /** What a session that ended with DONE took: a frame for each ACK before it. */
  function Taken(frames: seq<Frame>, r: Session): seq<Frame> {
    if 1 <= |r.lines| <= |frames| + 1 then frames[..|r.lines| - 1] else frames
  }

  /** The session `r` recorded what it took, and counted to the total. */
  ghost predicate Recorder(s: Store, total: int, frames: seq<Frame>, r: Session) {
    && 1 <= |r.lines| <= |frames| + 1 && |r.store.rows| >= total
    && r.store.rows.Keys == s.rows.Keys + Indexes(Taken(frames, r))
  }

  lemma RecordsAll(s: Store, frames: seq<Frame>)
    ensures TakeAll(s, frames).rows.Keys == s.rows.Keys + Indexes(frames)
  {
    TakenStay(s, frames);
  }

  lemma ExactRecorder(s: Store, total: int, frames: seq<Frame>, r: Session, k: nat)
    requires Exact(s, total, frames, r, k) && r.ending.Finished?
    ensures Recorder(s, total, frames, r)
  {
    RecordsAll(s, frames[..k]);
    assert |r.lines| == k + 1;
  }

  lemma FinishedRecords(s: Store, total: int, frames: seq<Frame>)
    requires Serve(s, total, frames).ending.Finished?
    ensures Recorder(s, total, frames, Serve(s, total, frames))
  {
    var k := ServeExact(s, total, frames);
    ExactRecorder(s, total, frames, Serve(s, total, frames), k);
  }

  lemma RecordedRange(s: Store, n: nat, frames: seq<Frame>, r: Session)
    requires s.rows.Keys <= Range(n) && Recorder(s, n, frames, r)
    ensures Complete(r.store, n) <==> InRange(Taken(frames, r), n)
  {
    IndexesInRange(Taken(frames, r), n);
    CountIff(r.store, n);
    assert r.store.rows.Keys <= Range(n) <==> Indexes(Taken(frames, r)) <= Range(n);
  }

  /** DONE means a complete upload if and only if every frame the server took was in range: the
      guard that the loop does not have and the sender can check. */
  lemma FinishedIffInRange(s: Store, n: nat, frames: seq<Frame>)
    requires s.rows.Keys <= Range(n) && Serve(s, n, frames).ending.Finished?
    ensures 1 <= |Serve(s, n, frames).lines| <= |frames| + 1
    ensures Complete(Serve(s, n, frames).store, n) <==> InRange(Taken(frames, Serve(s, n, frames)), n)
  {
    FinishedRecords(s, n, frames);
    RecordedRange(s, n, frames, Serve(s, n, frames));
  }

  /** The input: one frame numbered 1 for an upload of one chunk is acknowledged and answered with
      DONE, and chunk 0 is not there. */
  lemma OutOfRangeIsDone(frame: Frame)
    requires frame.index == 1 && IsAscii(frame.checksum)
    ensures Serve(Store(map[], map[]), 1, [frame]).lines == [ACK, DONE]
    ensures Serve(Store(map[], map[]), 1, [frame]).ending.Finished?
    ensures ReadDisk(Serve(Store(map[], map[]), 1, [frame]).store, 0).None?
    ensures 0 !in Serve(Store(map[], map[]), 1, [frame]).store.rows
  {
    var s := Store(map[], map[]);
    ServeFirst(s, 1, [frame]);
    assert Take(s, frame).rows.Keys == {1};
    assert |Take(s, frame).rows| == |Take(s, frame).rows.Keys| == 1;
    assert Serve(Take(s, frame), 1, [frame][1..]).lines == [DONE];
    assert [ACK] + [DONE] == [ACK, DONE];
  }
}
