/** FileHandler.receive: downloading, checking and joining the chunks; and the whole transfer. */
module FileReceive {
  import opened Bytes
  import opened Text
  import opened Crypto
  import opened Sets
  import opened Frames
  import opened ChunkStore
  import opened TcpServer
  import opened UploadNetwork
  import opened UploadProgress
  import opened LineLimit
  import opened UploadClient

  /** The loop over `total` frames: None is its ValueError or IncompleteReadError. */
  function Gather(f: Suite, total: nat, frames: seq<Frame>, chunks: map<nat, seq<byte>>): Option<map<nat, seq<byte>>> {
    if total == 0 then Some(chunks)
    else if |frames| == 0 then None
    else
      match OpenChunk(f, frames[0].payload)
      case None => None
      case Some(plaintext) =>
        if f.sha(plaintext) != frames[0].checksum then None
        else Gather(f, total - 1, frames[1..], chunks[frames[0].index := plaintext])
  }

  /** b"".join(chunks[i] for i in indexes) */
  function Assemble(chunks: map<nat, seq<byte>>, indexes: seq<nat>): seq<byte>
    requires forall i :: i in indexes ==> i in chunks
  {
    if |indexes| == 0 then [] else chunks[indexes[0]] + Assemble(chunks, indexes[1..])
  }

  function Received(f: Suite, total: nat, frames: seq<Frame>): Option<seq<byte>> {
    match Gather(f, total, frames, map[])
    case None => None
    case Some(chunks) => Some(Assemble(chunks, Sorted(chunks.Keys)))
  }

  method Receive(f: Suite, total: nat, stream: seq<byte>) returns (file: Option<seq<byte>>)
    ensures file == Received(f, total, DecodeAll(stream))
  {
    var chunks: map<nat, seq<byte>> := map[];
    var rest := stream;
    ghost var goal := Gather(f, total, DecodeAll(stream), map[]);
    for i := 0 to total
      invariant goal == Gather(f, total - i, DecodeAll(rest), chunks)
    {
      var read := ReadFrame(rest);
      if read.None? {
        return None;
      }
      var (frame, after) := read.value;
      assert DecodeAll(rest)[1..] == DecodeAll(after);
      var plaintext := OpenChunk(f, frame.payload);
      if plaintext.None? || f.sha(plaintext.value) != frame.checksum {
        return None;
      }
      chunks, rest := chunks[frame.index := plaintext.value], after;
    }
    file := Some(Assemble(chunks, Sorted(chunks.Keys)));
  }

  // ---------------------------------------------------------------- what is received

  /** A frame that can be decrypted, to what its checksum says. */
  predicate Intact(f: Suite, frame: Frame) {
    OpenChunk(f, frame.payload).Some? && f.sha(OpenChunk(f, frame.payload).value) == frame.checksum
  }

  function Plain(f: Suite, frame: Frame): seq<byte>
    requires Intact(f, frame)
  {
    OpenChunk(f, frame.payload).value
  }

  ghost predicate AllIntact(f: Suite, total: nat, frames: seq<Frame>) {
    total <= |frames| && forall j :: 0 <= j < total ==> Intact(f, frames[j])
  }

  lemma IntactNext(f: Suite, total: nat, frames: seq<Frame>)
    requires total > 0 && |frames| > 0
    ensures AllIntact(f, total, frames) <==> Intact(f, frames[0]) && AllIntact(f, total - 1, frames[1..])
  {
    if Intact(f, frames[0]) && AllIntact(f, total - 1, frames[1..]) {
      forall j | 0 <= j < total
        ensures Intact(f, frames[j])
      {
        assert j > 0 ==> frames[j] == frames[1..][j - 1];
      }
    }
  }

  lemma {:induction false} GatherIff(f: Suite, total: nat, frames: seq<Frame>, m: map<nat, seq<byte>>)
    ensures Gather(f, total, frames, m).Some? <==> AllIntact(f, total, frames)
    decreases total
  {
    if total > 0 && |frames| > 0 {
      IntactNext(f, total, frames);
      if Intact(f, frames[0]) {
        GatherIff(f, total - 1, frames[1..], m[frames[0].index := Plain(f, frames[0])]);
      }
    }
  }

  /** The download succeeds exactly when `total` frames arrive, and each of them decrypts to what
      its checksum says: one that does not is never passed over. */
  lemma ReceivedIff(f: Suite, total: nat, frames: seq<Frame>)
    ensures Received(f, total, frames).Some?
       <==> total <= |frames| && forall j :: 0 <= j < total ==>
              && OpenChunk(f, frames[j].payload).Some?
              && f.sha(OpenChunk(f, frames[j].payload).value) == frames[j].checksum
  {
    GatherIff(f, total, frames, map[]);
    if AllIntact(f, total, frames) {
      forall j | 0 <= j < total
        ensures OpenChunk(f, frames[j].payload).Some?
        ensures f.sha(OpenChunk(f, frames[j].payload).value) == frames[j].checksum
      {
        assert Intact(f, frames[j]);
      }
    }
  }

  /** What the loop holds for index i, of `m` before it and the frames it went through. */
  ghost predicate HoldsAt(f: Suite, total: nat, frames: seq<Frame>, m: map<nat, seq<byte>>,
                          r: map<nat, seq<byte>>, i: nat)
    requires AllIntact(f, total, frames)
  {
    && (i in r <==> i in m || Numbers(frames, total, i))
    && (forall j: nat :: IsLast(frames, total, j) && frames[j].index == i ==> i in r && r[i] == Plain(f, frames[j]))
    && (i in m && !Numbers(frames, total, i) ==> i in r && r[i] == m[i])
  }

  lemma HoldsNext(f: Suite, total: nat, frames: seq<Frame>, m: map<nat, seq<byte>>, r: map<nat, seq<byte>>, i: nat)
    requires 0 < total && AllIntact(f, total, frames) && AllIntact(f, total - 1, frames[1..])
    requires HoldsAt(f, total - 1, frames[1..], m[frames[0].index := Plain(f, frames[0])], r, i)
    ensures HoldsAt(f, total, frames, m, r, i)
  {
    NumbersFirst(frames, total, i);
    forall j: nat | IsLast(frames, total, j) && frames[j].index == i
      ensures i in r && r[i] == Plain(f, frames[j])
    {
      LastFirst(frames, total, j);
      assert j > 0 ==> frames[1..][j - 1] == frames[j];
    }
  }

  lemma {:induction false} GatherHolds(f: Suite, total: nat, frames: seq<Frame>, m: map<nat, seq<byte>>, i: nat)
    requires AllIntact(f, total, frames)
    ensures Gather(f, total, frames, m).Some?
    ensures HoldsAt(f, total, frames, m, Gather(f, total, frames, m).value, i)
    decreases total
  {
    if total > 0 {
      IntactNext(f, total, frames);
      var next := m[frames[0].index := Plain(f, frames[0])];
      assert Gather(f, total, frames, m) == Gather(f, total - 1, frames[1..], next);
      GatherHolds(f, total - 1, frames[1..], next, i);
      HoldsNext(f, total, frames, m, Gather(f, total, frames, m).value, i);
    }
  }

  ghost predicate AllLast(frames: seq<Frame>, total: nat, order: seq<nat>) {
    forall k :: 0 <= k < |order| ==> IsLast(frames, total, order[k])
  }

  predicate Names(frames: seq<Frame>, order: seq<nat>, i: nat) {
    exists k :: 0 <= k < |order| && order[k] < |frames| && frames[order[k]].index == i
  }

  /** `order` names, by increasing index, the last frame of each index that arrived. */
  ghost predicate InIndexOrder(frames: seq<Frame>, total: nat, order: seq<nat>) {
    && AllLast(frames, total, order)
    && (forall k, l :: 0 <= k < l < |order| ==> frames[order[k]].index < frames[order[l]].index)
    && (forall i :: Numbers(frames, total, i) ==> Names(frames, order, i))
  }

  function Plains(f: Suite, frames: seq<Frame>, order: seq<nat>): (parts: seq<seq<byte>>)
    requires forall k :: 0 <= k < |order| ==> order[k] < |frames| && Intact(f, frames[order[k]])
    ensures |parts| == |order|
  {
    seq(|order|, k requires 0 <= k < |order| => Plain(f, frames[order[k]]))
  }

  lemma {:induction false} AssembleParts(m: map<nat, seq<byte>>, indexes: seq<nat>, parts: seq<seq<byte>>)
    requires |indexes| == |parts|
    requires forall k :: 0 <= k < |indexes| ==> indexes[k] in m && m[indexes[k]] == parts[k]
    ensures Assemble(m, indexes) == Concat(parts)
    decreases |indexes|
  {
    if |indexes| > 0 {
      AssembleParts(m, indexes[1..], parts[1..]);
    }
  }

  function IndexesOf(frames: seq<Frame>, order: seq<nat>): (indexes: seq<nat>)
    requires forall k :: 0 <= k < |order| ==> order[k] < |frames|
    ensures |indexes| == |order| && forall k :: 0 <= k < |order| ==> indexes[k] == frames[order[k]].index
  {
    seq(|order|, k requires 0 <= k < |order| => frames[order[k]].index)
  }

  lemma OrderWithin(f: Suite, frames: seq<Frame>, total: nat, order: seq<nat>)
    requires AllIntact(f, total, frames) && InIndexOrder(frames, total, order)
    ensures forall k :: 0 <= k < |order| ==> order[k] < |frames| && Intact(f, frames[order[k]])
  {
    forall k | 0 <= k < |order|
      ensures order[k] < |frames| && Intact(f, frames[order[k]])
    {
      assert IsLast(frames, total, order[k]);
    }
  }

  lemma IndexesSorted(f: Suite, frames: seq<Frame>, total: nat, order: seq<nat>, keys: set<nat>)
    requires AllIntact(f, total, frames) && InIndexOrder(frames, total, order)
    requires forall k :: 0 <= k < |order| ==> order[k] < |frames|
    requires forall i :: i in keys <==> Numbers(frames, total, i)
    ensures IndexesOf(frames, order) == Sorted(keys)
  {
    var indexes := IndexesOf(frames, order);
    forall i
      ensures i in indexes <==> i in keys
    {
      if i in indexes {
        var k :| 0 <= k < |indexes| && indexes[k] == i;
        assert IsLast(frames, total, order[k]);
      }
      if Numbers(frames, total, i) {
        assert Names(frames, order, i);
        var k :| 0 <= k < |order| && order[k] < |frames| && frames[order[k]].index == i;
        assert indexes[k] == i;
      }
    }
    SameOrder(indexes, Sorted(keys));
  }

  /** The loop's dictionary once it has gone through `total` frames. */
  ghost predicate Collected(f: Suite, total: nat, frames: seq<Frame>, r: map<nat, seq<byte>>)
    requires AllIntact(f, total, frames)
  {
    && (forall i :: i in r <==> Numbers(frames, total, i))
    && (forall j: nat :: IsLast(frames, total, j) ==>
          frames[j].index in r && r[frames[j].index] == Plain(f, frames[j]))
  }

  lemma GatherCollects(f: Suite, total: nat, frames: seq<Frame>)
    requires AllIntact(f, total, frames)
    ensures Gather(f, total, frames, map[]).Some?
    ensures Collected(f, total, frames, Gather(f, total, frames, map[]).value)
  {
    GatherHolds(f, total, frames, map[], 0);
    var r := Gather(f, total, frames, map[]).value;
    forall i
      ensures i in r <==> Numbers(frames, total, i)
    {
      GatherHolds(f, total, frames, map[], i);
    }
    forall j: nat | IsLast(frames, total, j)
      ensures frames[j].index in r && r[frames[j].index] == Plain(f, frames[j])
    {
      GatherHolds(f, total, frames, map[], frames[j].index);
    }
  }

  lemma CollectedParts(f: Suite, total: nat, frames: seq<Frame>, order: seq<nat>, r: map<nat, seq<byte>>)
    requires AllIntact(f, total, frames) && AllLast(frames, total, order) && Collected(f, total, frames, r)
    requires forall k :: 0 <= k < |order| ==> order[k] < |frames| && Intact(f, frames[order[k]])
    ensures Assemble(r, IndexesOf(frames, order)) == Concat(Plains(f, frames, order))
  {
    var indexes := IndexesOf(frames, order);
    forall k | 0 <= k < |order|
      ensures indexes[k] in r && r[indexes[k]] == Plain(f, frames[order[k]])
    {
      assert IsLast(frames, total, order[k]);
    }
    AssembleParts(r, indexes, Plains(f, frames, order));
  }

  /** In whatever order the frames come, and whatever indexes they carry: the file is the plaintexts
      joined by increasing index, of frames with the same index the last one. */
  lemma ReceivedJoins(f: Suite, total: nat, frames: seq<Frame>, order: seq<nat>)
    requires AllIntact(f, total, frames) && InIndexOrder(frames, total, order)
    ensures forall k :: 0 <= k < |order| ==> order[k] < |frames| && Intact(f, frames[order[k]])
    ensures Received(f, total, frames) == Some(Concat(Plains(f, frames, order)))
  {
    OrderWithin(f, frames, total, order);
    GatherCollects(f, total, frames);
    var r := Gather(f, total, frames, map[]).value;
    IndexesSorted(f, frames, total, order, r.Keys);
    CollectedParts(f, total, frames, order, r);
  }

  lemma OneChunkFile(index: nat, plaintext: seq<byte>)
    ensures Assemble(map[index := plaintext], Sorted(map[index := plaintext].Keys)) == plaintext
  {
    var m: map<nat, seq<byte>> := map[index := plaintext];
    SameOrder(Sorted(m.Keys), [index]);
    assert [index][1..] == [];
    assert Assemble(m, [index]) == m[index] + Assemble(m, []);
  }

  /** The input on which frames are not chunks: one frame twice passes for two chunks. */
  lemma RepeatedFrameCounts(f: Suite, frame: Frame)
    requires Intact(f, frame)
    ensures Received(f, 2, [frame, frame]) == Some(Plain(f, frame))
  {
    var none: map<nat, seq<byte>> := map[];
    var one: map<nat, seq<byte>> := map[frame.index := Plain(f, frame)];
    assert [frame, frame][1..] == [frame] && [frame][1..] == [];
    assert none[frame.index := Plain(f, frame)] == one == one[frame.index := Plain(f, frame)];
    assert Gather(f, 1, [frame], one) == Gather(f, 0, [], one) == Some(one);
    assert Gather(f, 2, [frame, frame], none) == Gather(f, 1, [frame], one);
    OneChunkFile(frame.index, Plain(f, frame));
  }

  // ---------------------------------------------------------------- honest frames come back

  ghost predicate FirstOf(chunks: seq<seq<byte>>, m: map<nat, seq<byte>>, n: nat) {
    && n <= |chunks| && m.Keys == Range(n)
    && forall i :: 0 <= i < n ==> m[i] == chunks[i]
  }

  /** One honest frame for every chunk, in any order. */
  ghost predicate OnePerChunk(f: Suite, chunks: seq<seq<byte>>, frames: seq<Frame>) {
    && |frames| == |chunks| && AllHonest(f, chunks, frames)
    && forall i, j :: 0 <= i < j < |frames| ==> frames[i].index != frames[j].index
  }

  lemma HonestIntact(f: Suite, chunks: seq<seq<byte>>, frames: seq<Frame>, total: nat)
    requires AllHonest(f, chunks, frames) && total <= |frames|
    ensures AllIntact(f, total, frames)
    ensures forall j :: 0 <= j < total ==> frames[j].index < |chunks| && Plain(f, frames[j]) == chunks[frames[j].index]
  {
    forall j | 0 <= j < total
      ensures Intact(f, frames[j])
    {
      assert Honest(f, chunks, frames[j]);
    }
  }

  lemma {:induction false} DistinctIndexes(frames: seq<Frame>)
    requires forall i, j :: 0 <= i < j < |frames| ==> frames[i].index != frames[j].index
    ensures |Indexes(frames)| == |frames|
    decreases |frames|
  {
    if |frames| > 0 {
      DistinctIndexes(frames[1..]);
      IndexesAll(frames[1..]);
      assert frames[0].index !in Indexes(frames[1..]);
    }
  }

  /** n distinct indexes below n are all of them. */
  lemma EveryNumber(frames: seq<Frame>, i: nat)
    requires forall i, j :: 0 <= i < j < |frames| ==> frames[i].index != frames[j].index
    requires InRange(frames, |frames|) && i < |frames|
    ensures Numbers(frames, |frames|, i)
  {
    DistinctIndexes(frames);
    IndexesAll(frames);
    IndexesInRange(frames, |frames|);
    RangeSize(|frames|);
    SubsetSize(Indexes(frames), Range(|frames|));
  }

  lemma CollectsChunks(f: Suite, chunks: seq<seq<byte>>, frames: seq<Frame>)
    requires OnePerChunk(f, chunks, frames)
    ensures Gather(f, |chunks|, frames, map[]).Some?
    ensures FirstOf(chunks, Gather(f, |chunks|, frames, map[]).value, |chunks|)
  {
    var n := |chunks|;
    HonestIntact(f, chunks, frames, n);
    GatherCollects(f, n, frames);
    var r := Gather(f, n, frames, map[]).value;
    forall i: nat
      ensures i in r <==> i < n
      ensures i < n ==> r[i] == chunks[i]
    {
      if i < n {
        EveryNumber(frames, i);
        var j: nat :| j < n && j < |frames| && frames[j].index == i;
        assert IsLast(frames, n, j);
      }
      assert i in r <==> Numbers(frames, n, i);
    }
  }

  lemma {:induction false} AssembleAll(chunks: seq<seq<byte>>, m: map<nat, seq<byte>>, k: nat)
    requires FirstOf(chunks, m, |chunks|) && k <= |chunks|
    ensures forall i :: i in Upto(|chunks|)[k..] ==> i in m
    ensures Assemble(m, Upto(|chunks|)[k..]) == Concat(chunks[k..])
    decreases |chunks| - k
  {
    if k < |chunks| {
      AssembleAll(chunks, m, k + 1);
      assert Upto(|chunks|)[k..][1..] == Upto(|chunks|)[k + 1..];
      assert chunks[k..][1..] == chunks[k + 1..];
    }
  }

  /** One honest frame for every chunk gives back the file, whatever the order of the frames and
      whichever encryption of each chunk they carry. */
  lemma HonestFramesGiveFile(f: Suite, raw: seq<byte>, frames: seq<Frame>)
    requires OnePerChunk(f, Split(raw), frames)
    ensures Received(f, |Split(raw)|, frames) == Some(raw)
  {
    var chunks := Split(raw);
    CollectsChunks(f, chunks, frames);
    var m := Gather(f, |chunks|, frames, map[]).value;
    SortedRange(|chunks|);
    AssembleAll(chunks, m, 0);
    assert Upto(|chunks|)[0..] == Upto(|chunks|) && chunks[0..] == chunks;
    SplitConcat(raw);
  }

  lemma TooFew(f: Suite, total: nat, frames: seq<Frame>)
    requires |frames| < total
    ensures Received(f, total, frames) == None
  {
    GatherIff(f, total, frames, map[]);
  }

  /** One honest frame for each record of a sound store gives the file if the store is complete,
      and a failure if it is not. */
  lemma HonestFramesDecide(f: Suite, raw: seq<byte>, s: Store, frames: seq<Frame>)
    requires Sound(f, Split(raw), s) && FramesFor(f, Split(raw), Sorted(s.rows.Keys), frames)
    ensures Received(f, |Split(raw)|, frames) == if Complete(s, |Split(raw)|) then Some(raw) else None
  {
    var chunks := Split(raw);
    CountIsComplete(f, chunks, s);
    if Complete(s, |chunks|) {
      SortedRange(|chunks|);
      HonestFramesGiveFile(f, raw, frames);
    } else {
      assert |s.rows| == |s.rows.Keys|;
      TooFew(f, |chunks|, frames);
    }
  }

  // ---------------------------------------------------------------- while uploads go on

  /** The frames a download sends while the network runs: the records are those of the start, each
      chunk file is read after whatever `turns` lets happen before it. */
  function DownloadAmid(net: Net, total: int, rows: map<nat, seq<byte>>, indexes: seq<nat>,
                        turns: seq<seq<Step>>): seq<Frame>
    requires forall i :: i in indexes ==> i in rows
    decreases |indexes|
  {
    if |indexes| == 0 then []
    else
      var next := if |turns| > 0 then Run(net, total, turns[0]) else net;
      match ReadDisk(next.store, indexes[0])
      case None => []
      case Some(data) =>
        if |rows[indexes[0]]| != CHECKSUM_LEN then []
        else
          [Frame(indexes[0], rows[indexes[0]], data)]
          + DownloadAmid(next, total, rows, indexes[1..], if |turns| > 0 then turns[1..] else [])
  }

  /** Undisturbed, that is what the download loop sends. */
  lemma {:induction false} UndisturbedDownload(net: Net, total: int, indexes: seq<nat>)
    requires Recorded(net.store, indexes)
    ensures DownloadAmid(net, total, net.store.rows, indexes, []) == DownloadFrames(net.store, indexes)
    decreases |indexes|
  {
    if |indexes| > 0 {
      UndisturbedDownload(net, total, indexes[1..]);
    }
  }

  /** `s` was the store when the download began. */
  ghost predicate Since(f: Suite, chunks: seq<seq<byte>>, s: Store, net: Net) {
    Sound(f, chunks, s) && NetOk(f, chunks, net) && StoreGrows(f, chunks, s, net.store)
  }

  lemma SinceOn(f: Suite, chunks: seq<seq<byte>>, s: Store, net: Net, steps: seq<Step>)
    requires Since(f, chunks, s, net)
    ensures Since(f, chunks, s, Run(net, |chunks|, steps))
  {
    RunKeeps(f, chunks, net, steps);
    GrowsOn(f, chunks, s, net.store, Run(net, |chunks|, steps).store);
  }

  /** A chunk recorded at the start is found on disk ever after, in some encryption. */
  lemma StillThere(f: Suite, chunks: seq<seq<byte>>, s: Store, net: Net, i: nat)
    requires Since(f, chunks, s, net) && i in s.rows
    ensures ReadDisk(net.store, i).Some? && |s.rows[i]| == CHECKSUM_LEN
    ensures Honest(f, chunks, Frame(i, s.rows[i], ReadDisk(net.store, i).value))
  {
  }

  lemma FramesForFirst(f: Suite, chunks: seq<seq<byte>>, indexes: seq<nat>, frame: Frame, rest: seq<Frame>)
    requires |indexes| > 0 && frame.index == indexes[0] && Honest(f, chunks, frame)
    requires FramesFor(f, chunks, indexes[1..], rest)
    ensures FramesFor(f, chunks, indexes, [frame] + rest)
  {
    var frames := [frame] + rest;
    forall j | 0 <= j < |frames|
      ensures frames[j].index == indexes[j] && Honest(f, chunks, frames[j])
    {
      if j > 0 {
        assert frames[j] == rest[j - 1] && indexes[j] == indexes[1..][j - 1];
      }
    }
  }

  /** Whatever goes on meanwhile, a download sends one honest frame for every chunk that was
      recorded when it began. */
  lemma {:induction false} DownloadsHonest(f: Suite, chunks: seq<seq<byte>>, s: Store, net: Net,
                                           indexes: seq<nat>, turns: seq<seq<Step>>)
    requires Since(f, chunks, s, net) && forall i :: i in indexes ==> i in s.rows
    ensures FramesFor(f, chunks, indexes, DownloadAmid(net, |chunks|, s.rows, indexes, turns))
    decreases |indexes|
  {
    if |indexes| > 0 {
      var next := if |turns| > 0 then Run(net, |chunks|, turns[0]) else net;
      if |turns| > 0 {
        SinceOn(f, chunks, s, net, turns[0]);
      }
      StillThere(f, chunks, s, next, indexes[0]);
      var frame := Frame(indexes[0], s.rows[indexes[0]], ReadDisk(next.store, indexes[0]).value);
      var later := if |turns| > 0 then turns[1..] else [];
      DownloadsHonest(f, chunks, s, next, indexes[1..], later);
      FramesForFirst(f, chunks, indexes, frame, DownloadAmid(next, |chunks|, s.rows, indexes[1..], later));
    }
  }

  lemma FramesEncodable(f: Suite, raw: seq<byte>, indexes: seq<nat>, frames: seq<Frame>)
    requires FramesFor(f, Split(raw), indexes, frames) && |raw| <= 0x8_0000_0000_0000
    ensures forall frame :: frame in frames ==> Encodable(frame)
  {
    HeaderFits(raw);
    forall frame | frame in frames
      ensures Encodable(frame)
    {
      assert Honest(f, Split(raw), frame);
      OpenedSize(f, frame.payload);
    }
  }

  /** Downloading a sound store gives the file back exactly when the upload is complete, and
      otherwise fails: a partial upload is never taken for the file. */
  lemma DeliveredIffComplete(f: Suite, raw: seq<byte>, s: Store)
    requires Sound(f, Split(raw), s)
    ensures Received(f, |Split(raw)|, Download(s))
         == if Complete(s, |Split(raw)|) then Some(raw) else None
  {
    var chunks, indexes, net := Split(raw), Sorted(s.rows.Keys), Net(s, []);
    Restarted(f, chunks, s);
    DownloadsHonest(f, chunks, s, net, indexes, []);
    UndisturbedDownload(net, |chunks|, indexes);
    HonestFramesDecide(f, raw, s, Download(s));
  }

  /** The bytes a download sends that begins at `net`. */
  function DownloadBytes(net: Net, total: int, turns: seq<seq<Step>>): seq<byte> {
    EncodeAll(DownloadAmid(net, total, net.store.rows, Sorted(net.store.rows.Keys), turns))
  }

  lemma ProperPrefix<T>(p: seq<T>, all: seq<T>)
    requires p <= all && p != all
    ensures !(all <= p)
  {
  }

  /** A proper prefix of the encodings lacks a frame. */
  lemma CutLacksFrame(frames: seq<Frame>, p: seq<byte>)
    requires forall frame :: frame in frames ==> Encodable(frame)
    requires p <= EncodeAll(frames)
    ensures p == EncodeAll(frames) ==> DecodeAll(p) == frames
    ensures p != EncodeAll(frames) ==> |DecodeAll(p)| < |frames|
  {
    DecodePrefix(frames, p);
    var n := |frames|;
    assert frames[..n] == frames;
    assert EncodeAll(frames[..n]) <= p <==> n <= |DecodeAll(p)|;
    if p == EncodeAll(frames) {
      DecodeEncoded(frames);
    } else {
      ProperPrefix(p, EncodeAll(frames));
    }
  }

  /** Over the wire, for every file whose chunk count fits the index field: of a download that
      begins at `net`, with handlers, breaks and deaths between any two of its reads, any part `p`
      may arrive before its own connection is lost. The recipient gets the file exactly when all
      of it arrives and the store was complete as it began, and a failure otherwise. */
  lemma DeliveredOverWire(f: Suite, raw: seq<byte>, net: Net, turns: seq<seq<Step>>, p: seq<byte>)
    requires NetOk(f, Split(raw), net) && |raw| <= 0x8_0000_0000_0000
    requires p <= DownloadBytes(net, |Split(raw)|, turns)
    ensures Received(f, |Split(raw)|, DecodeAll(p))
         == if Complete(net.store, |Split(raw)|) && p == DownloadBytes(net, |Split(raw)|, turns)
            then Some(raw) else None
  {
    var chunks, indexes := Split(raw), Sorted(net.store.rows.Keys);
    var frames := DownloadAmid(net, |chunks|, net.store.rows, indexes, turns);
    DownloadsHonest(f, chunks, net.store, net, indexes, turns);
    FramesEncodable(f, raw, indexes, frames);
    CutLacksFrame(frames, p);
    if p == EncodeAll(frames) {
      HonestFramesDecide(f, raw, net.store, frames);
    } else {
      CountIsComplete(f, chunks, net.store);
      assert |frames| == |net.store.rows.Keys| == |net.store.rows|;
      TooFew(f, |chunks|, DecodeAll(p));
    }
  }

  lemma FileFits(raw: seq<byte>)
    requires |raw| <= 0x8_0000_0000_0000
    ensures Fits(Split(raw))
  {
    HeaderFits(raw);
  }

  /** What arrives of the bytes sent over a connection that is lost after `cut` of them. */
  function Arrived(sent: seq<byte>, cut: nat, whole: bool): (p: seq<byte>)
    ensures p <= sent && (whole ==> p == sent)
  {
    if whole || cut > |sent| then sent else sent[..cut]
  }

  /** A download that begins at `net`, over a connection that may be lost at any byte. */
  method Fetch(f: Suite, raw: seq<byte>, net: Net, whole: bool) returns (file: Option<seq<byte>>)
    requires NetOk(f, Split(raw), net) && |raw| <= 0x8_0000_0000_0000
    ensures file == None || file == Some(raw)
    ensures whole ==> file == if Complete(net.store, |Split(raw)|) then Some(raw) else None
  {
    var turns: seq<seq<Step>> := *;
    var cut: nat := *;
    var arrived := Arrived(DownloadBytes(net, |Split(raw)|, turns), cut, whole);
    DeliveredOverWire(f, raw, net, turns, arrived);
    file := Receive(f, |Split(raw)|, arrived);
  }

  /** The whole transfer: upload through any network, let it run on, and download while it still
      runs, over a connection that may be lost at any byte unless `whole`. The recipient gets the file
      or a failure, never anything else. It gets the file after a normal return of the upload and a
      whole download; and the upload of a file of up to 12773 chunks returns normally in spite of two
      broken attempts, unless a connection is refused in one of them. */
  method Transfer(f: Suite, raw: seq<byte>, net0: Net, storms: nat, refusal: nat, whole: bool)
    returns (outcome: Outcome, file: Option<seq<byte>>)
    requires NetOk(f, Split(raw), net0) && |raw| <= 0x8_0000_0000_0000
    requires refusal <= storms
    ensures file == None || file == Some(raw)
    ensures outcome == Normal && whole ==> file == Some(raw)
    ensures |raw| <= 12773 * 524288 && storms <= 2 && refusal == 0 ==> outcome == Normal
    ensures |raw| <= 12773 * 524288 && storms <= 2 ==> outcome != Raised
    ensures storms == 0 && Alone(net0, |net0.conns|) && Readable(HaveLine(net0.store.rows.Keys)) ==> outcome == Normal
  {
    FileFits(raw);
    ChunkCount(raw, 12773);
    var net, attempt, frames, last;
    net, outcome, attempt, frames, last := UploadChunks(f, Split(raw), net0, storms, refusal);
    var later := Environment(f, Split(raw), net, |net.conns|, false, net);
    if outcome == Normal {
      CompleteStays(f, Split(raw), net.store, later.store);
    }
    file := Fetch(f, raw, later, whole);
  }
}
