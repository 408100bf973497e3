/** client/audio/stream.py and client/crypto/audio_crypto.py: numbering and framing of outgoing
    audio, and the receive loop. Encoding, encryption and the socket are abstract and may fail. */
module AudioStream {
  import opened Bytes
  import opened Text
  import opened Jitter
  import opened JitterOrder
  import opened JitterRuns

  const SEQ_LEN := 4
  const NONCE_LEN := 12
  const HEADER_LEN := SEQ_LEN + NONCE_LEN
  const SEQ_SPAN := 0x1_0000_0000

  /** _seq_to_nonce: eight bytes little-endian, four zero bytes. */
  function SeqToNonce(x: nat): (nonce: seq<byte>)
    ensures |nonce| == NONCE_LEN
  {
    LittleEndian(x % 0x1_0000_0000_0000_0000, 8) + [0, 0, 0, 0]
  }

  function Payload(x: nat, ciphertext: seq<byte>): seq<byte> {
    LittleEndian(x % SEQ_SPAN, SEQ_LEN) + SeqToNonce(x) + ciphertext
  }

  datatype Parts = Parts(x: nat, nonce: seq<byte>, ciphertext: seq<byte>)

  /** The receive loop's split of a payload; None is a payload too short to have a header. */
  function SplitPayload(payload: seq<byte>): Option<Parts> {
    if |payload| < HEADER_LEN then None
    else Some(Parts(FromLittleEndian(payload[..SEQ_LEN]), payload[SEQ_LEN..HEADER_LEN], payload[HEADER_LEN..]))
  }

  lemma SplitJoined(a: seq<byte>, b: seq<byte>, c: seq<byte>)
    requires |a| == SEQ_LEN && |b| == NONCE_LEN
    ensures SplitPayload(a + b + c) == Some(Parts(FromLittleEndian(a), b, c))
  {
    var p := a + b + c;
    assert p[..SEQ_LEN] == a && p[SEQ_LEN..HEADER_LEN] == b && p[HEADER_LEN..] == c;
  }

  lemma ReadsNumber(x: nat, width: nat)
    requires width == SEQ_LEN && x < SEQ_SPAN
    ensures FromLittleEndian(LittleEndian(x, width)) == x
  {
    Widths();
    LittleEndianRoundTrip(x, width);
  }

  /** The receiver recovers what the sender packed. */
  lemma SplitRoundTrip(x: nat, ciphertext: seq<byte>)
    requires x < 0x1_0000_0000
    ensures SplitPayload(Payload(x, ciphertext)) == Some(Parts(x, SeqToNonce(x), ciphertext))
  {
    var width := SEQ_LEN;
    var head := LittleEndian(x, width);
    assert x % SEQ_SPAN == x;
    ReadsNumber(x, width);
    SplitJoined(head, SeqToNonce(x), ciphertext);
    assert Payload(x, ciphertext) == head + SeqToNonce(x) + ciphertext;
  }

  lemma {:induction false} NoHighBytes(x: nat, width: nat, more: nat)
    requires x < Pow256(width)
    ensures LittleEndian(x, width + more) == LittleEndian(x, width) + LittleEndian(0, more)
  {
    if width > 0 {
      NoHighBytes(x / 256, width - 1, more);
    } else {
      assert LittleEndian(x, 0) == [];
    }
  }

  lemma Zeros(more: nat)
    requires more == 4
    ensures LittleEndian(0, more) == [0, 0, 0, 0]
  {
    assert LittleEndian(0, 2) == [0] + LittleEndian(0, 1) == [0, 0];
  }

  lemma Small(x: nat)
    requires x < SEQ_SPAN
    ensures x % SEQ_SPAN == x == x % 0x1_0000_0000_0000_0000
  {
  }

  lemma NumberBytes(x: nat, width: nat, head: seq<byte>)
    requires width == SEQ_LEN && x < SEQ_SPAN && head == LittleEndian(x, width)
    ensures Word(head[3], head[2], head[1], head[0]) == x
  {
    ReadsNumber(x, width);
    LeastFirst(head);
  }

  lemma NonceBytes(x: nat, width: nat, head: seq<byte>)
    requires width == SEQ_LEN && x < SEQ_SPAN && head == LittleEndian(x, width)
    ensures SeqToNonce(x) == head + [0, 0, 0, 0, 0, 0, 0, 0]
  {
    Small(x);
    Widths();
    var more := 4;
    NoHighBytes(x, width, more);
    Zeros(more);
  }

  lemma PartsOf(a: seq<byte>, b: seq<byte>, c: seq<byte>)
    requires |a| == 4 && |b| == 12
    ensures (a + b + c)[..4] == a && (a + b + c)[4..16] == b && (a + b + c)[16..] == c
  {
  }

  /** A payload on the wire: the number in four bytes, the lowest first; those and eight zero bytes,
      which are the nonce; the ciphertext. */
  lemma PayloadLayout(x: nat, ciphertext: seq<byte>, p: seq<byte>)
    requires x < 0x1_0000_0000 && p == Payload(x, ciphertext)
    ensures |p| == 16 + |ciphertext| && Word(p[3], p[2], p[1], p[0]) == x
    ensures p[4..16] == p[..4] + [0, 0, 0, 0, 0, 0, 0, 0] && p[16..] == ciphertext
  {
    var width := SEQ_LEN;
    var head := LittleEndian(x, width);
    Small(x);
    assert p == head + SeqToNonce(x) + ciphertext;
    PartsOf(head, SeqToNonce(x), ciphertext);
    NumberBytes(x, width, head);
    NonceBytes(x, width, head);
  }

  lemma ReadsCounter(x: nat, width: nat)
    requires width == 8 && x < SEQ_SPAN
    ensures FromLittleEndian(LittleEndian(x, width)) == x
  {
    Widths();
    LittleEndianRoundTrip(x, width);
  }

  lemma NonceValue(x: nat)
    requires x < SEQ_SPAN
    ensures FromLittleEndian(SeqToNonce(x)[..8]) == x
  {
    var width := 8;
    ReadsCounter(x, width);
    assert x % 0x1_0000_0000_0000_0000 == x;
    assert SeqToNonce(x)[..width] == LittleEndian(x, width);
  }

  lemma NonceInjective(x: nat, y: nat)
    requires x < 0x1_0000_0000 && y < 0x1_0000_0000
    ensures SeqToNonce(x) == SeqToNonce(y) <==> x == y
  {
    NonceValue(x);
    NonceValue(y);
  }

  // ---------------------------------------------------------------- sending

  /** What happens to one captured frame: encoding or encryption may raise (None), and handing
      the payload to the transport may raise after the counter has moved on. */
  datatype Capture = Capture(ciphertext: Option<seq<byte>>, delivered: bool)

  class Sender {
    var sendSeq: nat

    constructor ()
      ensures sendSeq == 0
    {
      sendSeq := 0;
    }

    /** _send_frame: the payload that left, if any. */
    method SendFrame(capture: Capture) returns (sent: Option<seq<byte>>)
      requires sendSeq < 0x1_0000_0000
      modifies this
      ensures sendSeq < 0x1_0000_0000
      ensures sendSeq == (old(sendSeq) + if capture.ciphertext.Some? then 1 else 0) % 0x1_0000_0000
      ensures sent == if capture.ciphertext.Some? && capture.delivered
                      then Some(Payload(old(sendSeq), capture.ciphertext.value)) else None
    {
      if capture.ciphertext.None? {
        return None;
      }
      var payload := LittleEndian(sendSeq % SEQ_SPAN, SEQ_LEN) + SeqToNonce(sendSeq) + capture.ciphertext.value;
      sendSeq := (sendSeq + 1) % SEQ_SPAN;
      if !capture.delivered {
        return None;
      }
      return Some(payload);
    }
  }

  function Packed(captures: seq<Capture>, k: nat): nat
    requires k <= |captures|
    decreases k
  {
    if k == 0 then 0 else Packed(captures, k - 1) + if captures[k - 1].ciphertext.Some? then 1 else 0
  }

  /** The number a sender starting at `start` gives to capture k: one for every earlier capture
      that was packed, delivered or not. */
  function NumberOf(start: nat, captures: seq<Capture>, k: nat): nat
    requires k <= |captures|
  {
    (start + Packed(captures, k)) % SEQ_SPAN
  }

  /** What leaves for capture k. */
  function SentFor(start: nat, captures: seq<Capture>, k: nat): Option<seq<byte>>
    requires k < |captures|
  {
    if captures[k].ciphertext.Some? && captures[k].delivered
    then Some(Payload(NumberOf(start, captures, k), captures[k].ciphertext.value)) else None
  }

  lemma NumberNext(start: nat, captures: seq<Capture>, k: nat)
    requires k < |captures|
    ensures NumberOf(start, captures, k + 1)
         == (NumberOf(start, captures, k) + if captures[k].ciphertext.Some? then 1 else 0) % SEQ_SPAN
  {
  }

  method SendAll(sender: Sender, captures: seq<Capture>) returns (sent: seq<Option<seq<byte>>>)
    requires sender.sendSeq < SEQ_SPAN
    modifies sender
    ensures |sent| == |captures|
    ensures forall k :: 0 <= k < |captures| ==> sent[k] == SentFor(old(sender.sendSeq), captures, k)
  {
    sent := [];
    ghost var start := sender.sendSeq;
    for k := 0 to |captures|
      invariant |sent| == k && sender.sendSeq == NumberOf(start, captures, k)
      invariant forall j :: 0 <= j < k ==> sent[j] == SentFor(start, captures, j)
    {
      NumberNext(start, captures, k);
      var payload := sender.SendFrame(captures[k]);
      assert payload == SentFor(start, captures, k);
      sent := sent + [payload];
    }
  }

  lemma {:induction false} PackedGrows(captures: seq<Capture>, i: nat, j: nat)
    requires i <= j <= |captures|
    ensures Packed(captures, i) <= Packed(captures, j) <= Packed(captures, i) + (j - i)
    decreases j - i
  {
    if i < j { PackedGrows(captures, i, j - 1); }
  }

  lemma SameRemainder(a: nat, b: nat)
    requires a <= b
    ensures a % SEQ_SPAN == b % SEQ_SPAN <==> (b - a) % SEQ_SPAN == 0
  {
    var p, q := a / SEQ_SPAN, b / SEQ_SPAN;
    assert b - a == (q - p) * SEQ_SPAN + (b % SEQ_SPAN - a % SEQ_SPAN);
  }

  /** Two captures of one sender share their number -- and so their nonce -- exactly when the packed captures
      from the one up to the other number a multiple of 2^32, failed sends included. */
  lemma SameNumberIff(start: nat, captures: seq<Capture>, i: nat, j: nat)
    requires i <= j < |captures|
    ensures NumberOf(start, captures, i) == NumberOf(start, captures, j)
       <==> (Packed(captures, j) - Packed(captures, i)) % 0x1_0000_0000 == 0
    ensures SeqToNonce(NumberOf(start, captures, i)) == SeqToNonce(NumberOf(start, captures, j))
       <==> NumberOf(start, captures, i) == NumberOf(start, captures, j)
  {
    PackedGrows(captures, i, j);
    SameRemainder(start + Packed(captures, i), start + Packed(captures, j));
    NonceInjective(NumberOf(start, captures, i), NumberOf(start, captures, j));
  }

  lemma Opposite(d: int)
    ensures (0 - d) % SEQ_SPAN == 0 <==> d % SEQ_SPAN == 0
  {
    assert d == d / SEQ_SPAN * SEQ_SPAN + d % SEQ_SPAN;
  }

  lemma EitherRemainder(start: nat, a: nat, b: nat)
    ensures (start + a) % SEQ_SPAN == (start + b) % SEQ_SPAN <==> (a - b) % SEQ_SPAN == 0
  {
    if a <= b {
      SameRemainder(start + a, start + b);
      Opposite(b - a);
    } else {
      SameRemainder(start + b, start + a);
    }
  }

  lemma NumbersAgree(start: nat, mine: seq<Capture>, theirs: seq<Capture>, i: nat, j: nat, d: int)
    requires i < |mine| && j < |theirs| && d == Packed(mine, i) - Packed(theirs, j)
    ensures NumberOf(start, mine, i) == NumberOf(start, theirs, j) <==> d % SEQ_SPAN == 0
  {
    EitherRemainder(start, Packed(mine, i), Packed(theirs, j));
  }

  /** Both ends of a call seal under one key and number from the same start: frame i of the one and
      frame j of the other have the same nonce exactly when their packed counts differ by a multiple
      of 2^32. */
  lemma TwoSendersIff(start: nat, mine: seq<Capture>, theirs: seq<Capture>, i: nat, j: nat)
    requires i < |mine| && j < |theirs|
    ensures SeqToNonce(NumberOf(start, mine, i)) == SeqToNonce(NumberOf(start, theirs, j))
       <==> (Packed(mine, i) - Packed(theirs, j)) % 0x1_0000_0000 == 0
  {
    var x, y, d := NumberOf(start, mine, i), NumberOf(start, theirs, j), Packed(mine, i) - Packed(theirs, j);
    NumbersAgree(start, mine, theirs, i, j, d);
    NonceInjective(x, y);
  }

  /** So their first frames share a nonce. */
  lemma FirstFramesCollide(start: nat, mine: seq<Capture>, theirs: seq<Capture>)
    requires |mine| > 0 && |theirs| > 0
    ensures SeqToNonce(NumberOf(start, mine, 0)) == SeqToNonce(NumberOf(start, theirs, 0))
  {
    TwoSendersIff(start, mine, theirs, 0, 0);
  }

  lemma WithinSpan(d: nat)
    requires 0 < d < SEQ_SPAN
    ensures d % SEQ_SPAN != 0
  {
  }

  /** Among captures of which at most 2^32 were packed, sent or not, no two packed ones share a
      number or a nonce. */
  lemma DistinctWithinSpan(start: nat, captures: seq<Capture>, i: nat, j: nat)
    requires i < j < |captures| && captures[i].ciphertext.Some?
    requires Packed(captures, |captures|) <= 0x1_0000_0000 && captures[j].ciphertext.Some?
    ensures NumberOf(start, captures, i) != NumberOf(start, captures, j)
    ensures SeqToNonce(NumberOf(start, captures, i)) != SeqToNonce(NumberOf(start, captures, j))
  {
    PackedGrows(captures, i + 1, j);
    PackedGrows(captures, j + 1, |captures|);
    SameNumberIff(start, captures, i, j);
    WithinSpan(Packed(captures, j) - Packed(captures, i));
  }

  lemma {:induction false} AllPacked(captures: seq<Capture>, k: nat)
    requires k <= |captures| && forall j :: 0 <= j < |captures| ==> captures[j].ciphertext.Some?
    ensures Packed(captures, k) == k
    decreases k
  {
    if k > 0 { AllPacked(captures, k - 1); }
  }

  /** Counting only the frames that left is not enough: with one failed send among them, 2^32
      delivered frames in a row carry the same number, and nonce, twice. */
  lemma FailedSendCountsToo(ciphertext: seq<byte>)
    ensures exists captures: seq<Capture> ::
      && |captures| == 0x1_0000_0001
      && (forall k :: 0 <= k < |captures| ==> captures[k].ciphertext == Some(ciphertext))
      && (forall k :: 0 <= k < |captures| ==> (captures[k].delivered <==> k != 1))
      && NumberOf(0, captures, 0) == NumberOf(0, captures, 0x1_0000_0000)
      && SeqToNonce(NumberOf(0, captures, 0)) == SeqToNonce(NumberOf(0, captures, 0x1_0000_0000))
  {
    var captures := seq(SEQ_SPAN + 1, k => Capture(Some(ciphertext), k != 1));
    AllPacked(captures, SEQ_SPAN);
    assert NumberOf(0, captures, 0) == NumberOf(0, captures, SEQ_SPAN);
  }

  // ---------------------------------------------------------------- receiving

  type Decrypt = (seq<byte>, seq<byte>) -> Option<Frame>

  /** The packet of one payload, if it is long enough and authentic. */
  function PacketOf(decrypt: Decrypt, payload: seq<byte>): Option<Packet> {
    match SplitPayload(payload)
    case None => None
    case Some(parts) =>
      match decrypt(parts.nonce, parts.ciphertext)
      case None => None
      case Some(frame) => Some((parts.x, frame))
  }

  /** The packets that reach the jitter buffer. */
  function Packets(decrypt: Decrypt, payloads: seq<seq<byte>>): seq<Packet> {
    if |payloads| == 0 then []
    else
      (match PacketOf(decrypt, payloads[0])
       case None => []
       case Some(packet) => [packet])
      + Packets(decrypt, payloads[1..])
  }

  /** The payload carries this packet: a number in four bytes, a nonce of twelve, and what decrypts
      to the frame. */
  predicate Opens(decrypt: Decrypt, payload: seq<byte>, packet: Packet) {
    && |payload| >= 16
    && packet.0 == Word(payload[3], payload[2], payload[1], payload[0])
    && decrypt(payload[4..16], payload[16..]) == Some(packet.1)
  }

  /** The payload is short, or does not authenticate. */
  predicate Refused(decrypt: Decrypt, payload: seq<byte>) {
    |payload| < 16 || decrypt(payload[4..16], payload[16..]).None?
  }

  lemma PacketIff(decrypt: Decrypt, payload: seq<byte>, packet: Packet)
    ensures PacketOf(decrypt, payload) == Some(packet) <==> Opens(decrypt, payload, packet)
    ensures PacketOf(decrypt, payload).None? <==> Refused(decrypt, payload)
  {
    if |payload| >= 16 {
      LeastFirst(payload[..4]);
    }
  }

  function FramesOf(d: seq<Packet>): (frames: seq<Frame>)
    ensures |frames| == |d|
  {
    seq(|d|, i requires 0 <= i < |d| => d[i].1)
  }

  /** Does playing the k-th frame taken from the buffer raise, in the decoder or the device? */
  type Failing = nat -> bool

  /** The receiving end: the buffer, and the packets popped from it so far. */
  datatype Ear = Ear(state: State, popped: seq<Packet>)

  lemma PopShrinks(size: nat, s: State)
    ensures AfterPop(size, s).1.Some? ==> |AfterPop(size, s).0.buffer| < |s.buffer|
  {
    if AfterPop(size, s).1.Some? {
      SmallerBuffer(AfterPop(size, s).0.buffer, s.buffer);
    }
  }

  /** The inner loop of _recv_loop: popping until nothing comes, or until the frame just popped
      cannot be played. */
  function DrainUntil(size: nat, e: Ear, fails: Failing): Ear
    decreases |e.state.buffer|
  {
    var r := AfterPop(size, e.state);
    if r.1.None? then e.(state := r.0)
    else
      PopShrinks(size, e.state);
      var next := Ear(r.0, e.popped + [r.1.value]);
      if fails(|e.popped|) then next else DrainUntil(size, next, fails)
  }

  function HearOne(size: nat, e: Ear, packet: Packet, fails: Failing): Ear {
    DrainUntil(size, e.(state := AfterPush(size, e.state, packet.0, packet.1)), fails)
  }

  /** The receive loop, which goes on with the next packet after an exception. */
  function Hear(size: nat, e: Ear, arrivals: seq<Packet>, fails: Failing): Ear
    decreases |arrivals|
  {
    if |arrivals| == 0 then e
    else HearOne(size, Hear(size, e, arrivals[..|arrivals| - 1], fails), arrivals[|arrivals| - 1], fails)
  }

  /** The frames that are heard of those popped. */
  function Heard(popped: seq<Packet>, fails: Failing): seq<Frame>
    decreases |popped|
  {
    if |popped| == 0 then []
    else
      var last := |popped| - 1;
      Heard(popped[..last], fails) + if fails(last) then [] else [popped[last].1]
  }

  lemma HeardSnoc(popped: seq<Packet>, packet: Packet, fails: Failing)
    ensures Heard(popped + [packet], fails) == Heard(popped, fails) + if fails(|popped|) then [] else [packet.1]
  {
    assert (popped + [packet])[..|popped|] == popped;
  }

  /** How many of the first n frames taken from the buffer cannot be played. */
  function Failures(fails: Failing, n: nat): (k: nat)
    ensures k <= n
  {
    if n == 0 then 0 else Failures(fails, n - 1) + if fails(n - 1) then 1 else 0
  }

  /** Frame i of those popped is heard if it plays, as frame i less the failures before it. */
  ghost predicate HearsAt(popped: seq<Packet>, fails: Failing, heard: seq<Frame>, i: nat)
    requires i < |popped|
  {
    !fails(i) ==> i - Failures(fails, i) < |heard| && heard[i - Failures(fails, i)] == popped[i].1
  }

  /** Each exception costs one frame: the others are heard, in order. */
  lemma {:induction false} HeardExactly(popped: seq<Packet>, fails: Failing)
    ensures |Heard(popped, fails)| == |popped| - Failures(fails, |popped|)
    ensures forall i :: 0 <= i < |popped| ==> HearsAt(popped, fails, Heard(popped, fails), i)
    decreases |popped|
  {
    if |popped| > 0 {
      var last := |popped| - 1;
      var front := popped[..last];
      HeardExactly(front, fails);
      forall i | 0 <= i < |popped|
        ensures HearsAt(popped, fails, Heard(popped, fails), i)
      {
        if i < last {
          assert HearsAt(front, fails, Heard(front, fails), i) && front[i] == popped[i];
        }
      }
    }
  }

  /** Popping from a buffer that has nothing to give changes nothing the second time. */
  lemma DrainTwice(size: nat, s: State)
    requires AfterPop(size, s).1.None?
    ensures AfterPop(size, AfterPop(size, s).0).0 == AfterPop(size, s).0
    ensures AfterPop(size, AfterPop(size, s).0).1.None?
    ensures Drain(size, AfterPop(size, s).0).0 == Drain(size, s).0
    ensures Drain(size, AfterPop(size, s).0).1 == [] == Drain(size, s).1
  {
  }

  /** An exception puts off, but does not lose, what comes after the frame it hits: going on from
      where it stopped, the drain delivers the same packets in all. */
  lemma {:induction false} DrainInParts(size: nat, e: Ear, fails: Failing)
    ensures Drain(size, DrainUntil(size, e, fails).state).0 == Drain(size, e.state).0
    ensures DrainUntil(size, e, fails).popped + Drain(size, DrainUntil(size, e, fails).state).1
         == e.popped + Drain(size, e.state).1
    decreases |e.state.buffer|
  {
    var r := AfterPop(size, e.state);
    if r.1.Some? {
      DrainNext(size, e.state);
      PopShrinks(size, e.state);
      var next := Ear(r.0, e.popped + [r.1.value]);
      Regroup(e.popped, [r.1.value], Drain(size, r.0).1);
      if !fails(|e.popped|) {
        DrainInParts(size, next, fails);
      }
    } else {
      DrainTwice(size, e.state);
    }
  }

  /** A drain that began with `from` packets taken went on past every frame that plays; it stopped at
      the first that does not, or else when the buffer had nothing more to give. */
  ghost predicate StopsRight(size: nat, from: nat, end: Ear, fails: Failing) {
    && from <= |end.popped|
    && (forall j: nat :: from <= j && j + 1 < |end.popped| ==> !fails(j))
    && (AfterPop(size, end.state).1.None? || (|end.popped| > from && fails(|end.popped| - 1)))
  }

  lemma StopsLater(size: nat, from: nat, end: Ear, fails: Failing)
    requires StopsRight(size, from + 1, end, fails) && !fails(from)
    ensures StopsRight(size, from, end, fails)
  {
  }

  lemma {:induction false} DrainStops(size: nat, e: Ear, fails: Failing)
    ensures StopsRight(size, |e.popped|, DrainUntil(size, e, fails), fails)
    decreases |e.state.buffer|
  {
    var r := AfterPop(size, e.state);
    if r.1.Some? {
      PopShrinks(size, e.state);
      var next := Ear(r.0, e.popped + [r.1.value]);
      if !fails(|e.popped|) {
        DrainStops(size, next, fails);
        assert DrainUntil(size, e, fails) == DrainUntil(size, next, fails);
        StopsLater(size, |e.popped|, DrainUntil(size, e, fails), fails);
      }
    } else {
      DrainTwice(size, e.state);
    }
  }

  /** The inner loop of _recv_loop, from where `popped` packets have been taken. */
  method DrainAll(jitter: JitterBuffer, fails: Failing, ghost popped0: seq<Packet>, k0: nat)
    returns (played: seq<Frame>, ghost popped: seq<Packet>, k: nat)
    requires k0 == |popped0|
    modifies jitter
    ensures Ear(jitter.View(), popped) == DrainUntil(jitter.maxSize, Ear(old(jitter.View()), popped0), fails)
    ensures k == |popped| && Heard(popped, fails) == Heard(popped0, fails) + played
  {
    played, popped, k := [], popped0, k0;
    ghost var end := DrainUntil(jitter.maxSize, Ear(jitter.View(), popped0), fails);
    while true
      invariant k == |popped| && Heard(popped, fails) == Heard(popped0, fails) + played
      invariant end == DrainUntil(jitter.maxSize, Ear(jitter.View(), popped), fails)
      decreases |jitter.buffer|
    {
      ghost var before := jitter.View();
      var frame := jitter.Pop();
      PopShrinks(jitter.maxSize, before);
      if frame.None? {
        return;
      }
      ghost var packet := AfterPop(jitter.maxSize, before).1.value;
      HeardSnoc(popped, packet, fails);
      popped, k := popped + [packet], k + 1;
      if fails(k - 1) {
        return;
      }
      played := played + [frame.value];
    }
  }

  lemma {:induction false} PacketsJoin(decrypt: Decrypt, a: seq<seq<byte>>, b: seq<seq<byte>>)
    ensures Packets(decrypt, a + b) == Packets(decrypt, a) + Packets(decrypt, b)
    decreases |a|
  {
    if |a| == 0 {
      assert a + b == b;
    } else {
      assert (a + b)[0] == a[0] && (a + b)[1..] == a[1..] + b;
      PacketsJoin(decrypt, a[1..], b);
    }
  }

  lemma PacketsNext(decrypt: Decrypt, payloads: seq<seq<byte>>, i: nat)
    requires i < |payloads|
    ensures Packets(decrypt, payloads[..i + 1])
         == Packets(decrypt, payloads[..i])
            + match PacketOf(decrypt, payloads[i]) case None => [] case Some(packet) => [packet]
  {
    assert payloads[..i + 1] == payloads[..i] + [payloads[i]];
    PacketsJoin(decrypt, payloads[..i], [payloads[i]]);
    assert Packets(decrypt, [payloads[i]][1..]) == [];
  }

  lemma PacketsOfOne(decrypt: Decrypt, payload: seq<byte>)
    ensures Packets(decrypt, [payload])
         == match PacketOf(decrypt, payload) case None => [] case Some(packet) => [packet]
  {
    assert Packets(decrypt, [payload][1..]) == [];
  }

  /** A payload that is short or forged changes nothing wherever it arrives, and one that opens is
      the packet it opens to: which packets reach the buffer is settled by the bytes. */
  lemma PayloadDecides(decrypt: Decrypt, before: seq<seq<byte>>, payload: seq<byte>, after: seq<seq<byte>>,
                       packet: Packet)
    ensures Refused(decrypt, payload) ==>
              Packets(decrypt, before + [payload] + after) == Packets(decrypt, before + after)
    ensures Opens(decrypt, payload, packet) ==>
              Packets(decrypt, before + [payload] + after)
              == Packets(decrypt, before) + [packet] + Packets(decrypt, after)
  {
    PacketIff(decrypt, payload, packet);
    PacketsOfOne(decrypt, payload);
    PacketsJoin(decrypt, before + [payload], after);
    PacketsJoin(decrypt, before, [payload]);
    PacketsJoin(decrypt, before, after);
    assert Packets(decrypt, before) + [] == Packets(decrypt, before);
  }

  lemma {:induction false} PacketsOpened(decrypt: Decrypt, payloads: seq<seq<byte>>, packet: Packet)
    requires packet in Packets(decrypt, payloads)
    ensures exists payload :: payload in payloads && Opens(decrypt, payload, packet)
    decreases |payloads|
  {
    PacketIff(decrypt, payloads[0], packet);
    if !Opens(decrypt, payloads[0], packet) {
      PacketsOpened(decrypt, payloads[1..], packet);
    }
  }

  lemma {:induction false} AllRefused(decrypt: Decrypt, payloads: seq<seq<byte>>)
    requires forall payload :: payload in payloads ==> Refused(decrypt, payload)
    ensures Packets(decrypt, payloads) == []
    decreases |payloads|
  {
    if |payloads| > 0 {
      PacketIff(decrypt, payloads[0], (0, []));
      AllRefused(decrypt, payloads[1..]);
    }
  }

  lemma HearSnoc(size: nat, e: Ear, arrivals: seq<Packet>, packet: Packet, fails: Failing)
    ensures Hear(size, e, arrivals + [packet], fails) == HearOne(size, Hear(size, e, arrivals, fails), packet, fails)
  {
    assert (arrivals + [packet])[..|arrivals|] == arrivals;
  }

  function HearPayload(size: nat, e: Ear, decrypt: Decrypt, payload: seq<byte>, fails: Failing): Ear {
    match PacketOf(decrypt, payload)
    case None => e
    case Some(packet) => HearOne(size, e, packet, fails)
  }

  lemma HearNext(size: nat, e: Ear, decrypt: Decrypt, payloads: seq<seq<byte>>, i: nat, fails: Failing)
    requires i < |payloads|
    ensures Hear(size, e, Packets(decrypt, payloads[..i + 1]), fails)
         == HearPayload(size, Hear(size, e, Packets(decrypt, payloads[..i]), fails), decrypt, payloads[i], fails)
  {
    var before := Packets(decrypt, payloads[..i]);
    PacketsNext(decrypt, payloads, i);
    match PacketOf(decrypt, payloads[i])
    case None => assert before + [] == before;
    case Some(packet) => HearSnoc(size, e, before, packet, fails);
  }

  /** _recv_loop over the payloads taken from the queue while the stream is active. */
  method RecvLoop(jitter: JitterBuffer, decrypt: Decrypt, payloads: seq<seq<byte>>, fails: Failing)
    returns (played: seq<Frame>)
    modifies jitter
    ensures jitter.View() == Hear(jitter.maxSize, Ear(old(jitter.View()), []), Packets(decrypt, payloads), fails).state
    ensures played
         == Heard(Hear(jitter.maxSize, Ear(old(jitter.View()), []), Packets(decrypt, payloads), fails).popped, fails)
    ensures (forall payload :: payload in payloads ==> Refused(decrypt, payload)) ==>
              jitter.View() == old(jitter.View()) && played == []
  {
    played := [];
    var k: nat := 0;
    ghost var start := Ear(jitter.View(), []);
    ghost var e := start;
    for i := 0 to |payloads|
      invariant e == Ear(jitter.View(), e.popped) && k == |e.popped| && played == Heard(e.popped, fails)
      invariant e == Hear(jitter.maxSize, start, Packets(decrypt, payloads[..i]), fails)
    {
      HearNext(jitter.maxSize, start, decrypt, payloads, i, fails);
      ghost var next := HearPayload(jitter.maxSize, e, decrypt, payloads[i], fails);
      var parts := SplitPayload(payloads[i]);
      if parts.None? {
        continue;
      }
      var encoded := decrypt(parts.value.nonce, parts.value.ciphertext);
      if encoded.None? {
        continue;
      }
      jitter.Push(parts.value.x, encoded.value);
      var now;
      ghost var popped;
      now, popped, k := DrainAll(jitter, fails, e.popped, k);
      assert next == Ear(jitter.View(), popped);
      played, e := played + now, next;
    }
    assert payloads[..|payloads|] == payloads;
    if forall payload :: payload in payloads ==> Refused(decrypt, payload) {
      AllRefused(decrypt, payloads);
    }
  }

  // ---------------------------------------------------------------- in order, whatever fails

  /** A run of the buffer that gave this ear what it has, from packets of `arrivals` only. */
  ghost predicate Ran(size: nat, ops: seq<Op>, e: Ear, arrivals: seq<Packet>) {
    && Run(size, EMPTY, ops).0 == e.state && Run(size, EMPTY, ops).1 == e.popped
    && forall i :: 0 <= i < |ops| && ops[i].Put? ==> (ops[i].x, ops[i].frame) in arrivals
  }

  lemma RanOn(size: nat, ops: seq<Op>, e: Ear, arrivals: seq<Packet>, op: Op)
    requires Ran(size, ops, e, arrivals) && (op.Put? ==> (op.x, op.frame) in arrivals)
    ensures Ran(size, ops + [op], Ear(Step(size, e.state, op).0, e.popped + Step(size, e.state, op).1), arrivals)
  {
    RunLast(size, EMPTY, ops, op);
  }

  lemma {:induction false} DrainIsRun(size: nat, e: Ear, fails: Failing, arrivals: seq<Packet>, ops0: seq<Op>)
    returns (ops: seq<Op>)
    requires Ran(size, ops0, e, arrivals)
    ensures Ran(size, ops, DrainUntil(size, e, fails), arrivals)
    decreases |e.state.buffer|
  {
    var r := AfterPop(size, e.state);
    ops := ops0 + [Get];
    RanOn(size, ops0, e, arrivals, Get);
    if r.1.None? {
      assert e.popped + [] == e.popped;
    } else if !fails(|e.popped|) {
      PopShrinks(size, e.state);
      ops := DrainIsRun(size, Ear(r.0, e.popped + [r.1.value]), fails, arrivals, ops);
    }
  }

  lemma MoreArrivals(size: nat, ops: seq<Op>, e: Ear, front: seq<Packet>, arrivals: seq<Packet>)
    requires Ran(size, ops, e, front) && front <= arrivals
    ensures Ran(size, ops, e, arrivals)
  {
  }

  /** The receive loop, with its exceptions, is a run of the buffer. */
  lemma {:induction false} HearIsRun(size: nat, arrivals: seq<Packet>, fails: Failing) returns (ops: seq<Op>)
    ensures Ran(size, ops, Hear(size, Ear(EMPTY, []), arrivals, fails), arrivals)
    decreases |arrivals|
  {
    if |arrivals| == 0 {
      ops := [];
    } else {
      var front, packet := arrivals[..|arrivals| - 1], arrivals[|arrivals| - 1];
      var e := Hear(size, Ear(EMPTY, []), front, fails);
      var before := HearIsRun(size, front, fails);
      MoreArrivals(size, before, e, front, arrivals);
      RanOn(size, before, e, arrivals, Put(packet.0, packet.1));
      assert e.popped + [] == e.popped;
      var pushed := e.(state := AfterPush(size, e.state, packet.0, packet.1));
      ops := DrainIsRun(size, pushed, fails, arrivals, before + [Put(packet.0, packet.1)]);
    }
  }

  lemma {:induction false} PutOf(ops: seq<Op>, x: nat)
    requires FirstPut(ops, x).Some?
    ensures Put(x, FirstPut(ops, x).value) in ops
    decreases |ops|
  {
    var last := |ops| - 1;
    if FirstPut(ops[..last], x).Some? {
      PutOf(ops[..last], x);
    } else {
      assert ops[last] == Put(x, FirstPut(ops, x).value);
    }
  }

  lemma OnceInOrder(size: nat, ops: seq<Op>, popped: seq<Packet>)
    requires popped == Run(size, EMPTY, ops).1
    ensures Rising(popped) && forall i :: 0 <= i < |popped| ==> FirstPut(ops, popped[i].0) == Some(popped[i].1)
  {
    DeliveredOnceInOrder(size, ops);
  }

  /** Whatever fails to play: the packets taken from the buffer have strictly increasing numbers,
      and each is one that arrived; so what is heard is in order, nothing twice. */
  lemma HeardRises(size: nat, arrivals: seq<Packet>, fails: Failing)
    ensures Rising(Hear(size, Ear(EMPTY, []), arrivals, fails).popped)
    ensures forall i :: 0 <= i < |Hear(size, Ear(EMPTY, []), arrivals, fails).popped| ==>
              Hear(size, Ear(EMPTY, []), arrivals, fails).popped[i] in arrivals
  {
    var popped := Hear(size, Ear(EMPTY, []), arrivals, fails).popped;
    var ops := HearIsRun(size, arrivals, fails);
    OnceInOrder(size, ops, popped);
    forall i | 0 <= i < |popped|
      ensures popped[i] in arrivals
    {
      PutOf(ops, popped[i].0);
      assert Put(popped[i].0, popped[i].1) in ops;
    }
  }

  /** Whatever arrives and whatever fails to play: all that is taken from the buffer was carried by
      some payload under a nonce and a ciphertext that decrypt to it, in strictly increasing order. */
  lemma AuthenticOnly(size: nat, decrypt: Decrypt, payloads: seq<seq<byte>>, fails: Failing)
    ensures Rising(Hear(size, Ear(EMPTY, []), Packets(decrypt, payloads), fails).popped)
    ensures forall packet :: packet in Hear(size, Ear(EMPTY, []), Packets(decrypt, payloads), fails).popped ==>
              exists payload :: payload in payloads && Opens(decrypt, payload, packet)
  {
    var arrivals := Packets(decrypt, payloads);
    var popped := Hear(size, Ear(EMPTY, []), arrivals, fails).popped;
    HeardRises(size, arrivals, fails);
    forall packet | packet in popped
      ensures exists payload :: payload in payloads && Opens(decrypt, payload, packet)
    {
      var i :| 0 <= i < |popped| && popped[i] == packet;
      PacketsOpened(decrypt, payloads, packet);
    }
  }

  // ---------------------------------------------------------------- when every frame plays

  lemma {:induction false} DrainPlaysAll(size: nat, e: Ear, fails: Failing)
    requires forall j: nat :: !fails(j)
    ensures DrainUntil(size, e, fails).state == Drain(size, e.state).0
    ensures DrainUntil(size, e, fails).popped == e.popped + Drain(size, e.state).1
    decreases |e.state.buffer|
  {
    var r := AfterPop(size, e.state);
    if r.1.Some? {
      PopShrinks(size, e.state);
      DrainPlaysAll(size, Ear(r.0, e.popped + [r.1.value]), fails);
      DrainNext(size, e.state);
      Regroup(e.popped, [r.1.value], Drain(size, r.0).1);
    } else {
      DrainTwice(size, e.state);
    }
  }

  lemma {:induction false} HearFirst(size: nat, e: Ear, packet: Packet, rest: seq<Packet>, fails: Failing)
    ensures Hear(size, e, [packet] + rest, fails) == Hear(size, HearOne(size, e, packet, fails), rest, fails)
    decreases |rest|
  {
    if |rest| == 0 {
      assert [packet] + rest == [] + [packet];
      HearSnoc(size, e, [], packet, fails);
    } else {
      var front, last := rest[..|rest| - 1], rest[|rest| - 1];
      HearFirst(size, e, packet, front, fails);
      HearSnoc(size, e, [packet] + front, last, fails);
      assert [packet] + rest == ([packet] + front) + [last];
    }
  }

  lemma PlayFirst(size: nat, s: State, packet: Packet, rest: seq<Packet>)
    ensures Play(size, s, [packet] + rest).0 == Play(size, Turn(size, s, packet).0, rest).0
    ensures Play(size, s, [packet] + rest).1
         == Turn(size, s, packet).1 + Play(size, Turn(size, s, packet).0, rest).1
  {
    assert ([packet] + rest)[1..] == rest;
  }

  /** Without exceptions the loop pushes and drains, */
  lemma {:induction false} HearIsPlay(size: nat, e: Ear, arrivals: seq<Packet>, fails: Failing)
    requires forall j: nat :: !fails(j)
    ensures Hear(size, e, arrivals, fails).state == Play(size, e.state, arrivals).0
    ensures Hear(size, e, arrivals, fails).popped == e.popped + Play(size, e.state, arrivals).1
    decreases |arrivals|
  {
    if |arrivals| == 0 {
      assert e.popped + [] == e.popped;
    } else {
      var packet, rest := arrivals[0], arrivals[1..];
      var next := HearOne(size, e, packet, fails);
      assert arrivals == [packet] + rest;
      DrainPlaysAll(size, e.(state := AfterPush(size, e.state, packet.0, packet.1)), fails);
      HearIsPlay(size, next, rest, fails);
      HearFirst(size, e, packet, rest, fails);
      PlayFirst(size, e.state, packet, rest);
      Regroup(e.popped, Turn(size, e.state, packet).1, Play(size, next.state, rest).1);
    }
  }

  /** and everything delivered is heard. */
  lemma {:induction false} AllHeard(popped: seq<Packet>, fails: Failing)
    requires forall j: nat :: !fails(j)
    ensures Heard(popped, fails) == FramesOf(popped)
    decreases |popped|
  {
    if |popped| > 0 {
      var last := |popped| - 1;
      AllHeard(popped[..last], fails);
      assert FramesOf(popped) == FramesOf(popped[..last]) + [popped[last].1];
    }
  }

  // ---------------------------------------------------------------- from sender to receiver

  predicate Within(order: seq<nat>, n: nat) {
    forall i :: 0 <= i < |order| ==> order[i] < n
  }

  /** What leaves for the captures, in the order in which it arrives. */
  function Arriving(start: nat, captures: seq<Capture>, order: seq<nat>): seq<seq<byte>>
    requires Within(order, |captures|)
  {
    if |order| == 0 then []
    else
      (match SentFor(start, captures, order[0])
       case None => []
       case Some(payload) => [payload])
      + Arriving(start, captures, order[1..])
  }

  /** The packets the receiver should make of them. */
  function Numbered(start: nat, frames: seq<Frame>, order: seq<nat>): (arrivals: seq<Packet>)
    requires Within(order, |frames|)
    ensures |arrivals| == |order|
    ensures forall i :: 0 <= i < |order| ==> arrivals[i] == (start + order[i], frames[order[i]])
  {
    if |order| == 0 then [] else [(start + order[0], frames[order[0]])] + Numbered(start, frames, order[1..])
  }

  /** All captures were packed and sent, and each opens, under its nonce, to its frame. */
  ghost predicate Carried(decrypt: Decrypt, start: nat, captures: seq<Capture>, frames: seq<Frame>) {
    && |frames| == |captures| && start + |captures| <= 0x1_0000_0000
    && (forall k :: 0 <= k < |captures| ==> captures[k].ciphertext.Some? && captures[k].delivered)
    && (forall k :: 0 <= k < |captures| ==>
          decrypt(SeqToNonce(start + k), captures[k].ciphertext.value) == Some(frames[k]))
  }

  lemma CarriedPayload(decrypt: Decrypt, start: nat, captures: seq<Capture>, frames: seq<Frame>, k: nat)
    requires Carried(decrypt, start, captures, frames) && k < |captures|
    ensures SentFor(start, captures, k) == Some(Payload(start + k, captures[k].ciphertext.value))
  {
    AllPacked(captures, k);
    Small(start + k);
    assert NumberOf(start, captures, k) == start + k;
  }

  lemma OnePacket(decrypt: Decrypt, x: nat, ciphertext: seq<byte>, frame: Frame, payload: seq<byte>)
    requires x < SEQ_SPAN && decrypt(SeqToNonce(x), ciphertext) == Some(frame)
    requires payload == Payload(x, ciphertext)
    ensures PacketOf(decrypt, payload) == Some((x, frame))
  {
    SplitRoundTrip(x, ciphertext);
  }

  lemma OnePayload(decrypt: Decrypt, start: nat, captures: seq<Capture>, frames: seq<Frame>, k: nat)
    requires Carried(decrypt, start, captures, frames) && k < |captures|
    ensures SentFor(start, captures, k).Some?
    ensures PacketOf(decrypt, SentFor(start, captures, k).value) == Some((start + k, frames[k]))
  {
    CarriedPayload(decrypt, start, captures, frames, k);
    OnePacket(decrypt, start + k, captures[k].ciphertext.value, frames[k], SentFor(start, captures, k).value);
  }

  lemma FirstPacket(decrypt: Decrypt, payload: seq<byte>, rest: seq<seq<byte>>, packet: Packet)
    requires PacketOf(decrypt, payload) == Some(packet)
    ensures Packets(decrypt, [payload] + rest) == [packet] + Packets(decrypt, rest)
  {
    assert ([payload] + rest)[1..] == rest;
  }

  lemma {:induction false} ArrivingPackets(decrypt: Decrypt, start: nat, captures: seq<Capture>, frames: seq<Frame>,
                                           order: seq<nat>)
    requires Carried(decrypt, start, captures, frames) && Within(order, |captures|)
    ensures Packets(decrypt, Arriving(start, captures, order)) == Numbered(start, frames, order)
    decreases |order|
  {
    if |order| > 0 {
      var rest := Arriving(start, captures, order[1..]);
      ArrivingPackets(decrypt, start, captures, frames, order[1..]);
      OnePayload(decrypt, start, captures, frames, order[0]);
      var payload := SentFor(start, captures, order[0]).value;
      assert Arriving(start, captures, order) == [payload] + rest;
      FirstPacket(decrypt, payload, rest, (start + order[0], frames[order[0]]));
    }
  }

  /** Each of 0, ..., n - 1 once. */
  predicate Shuffles(order: seq<nat>, n: nat) {
    && |order| == n && Within(order, n)
    && (forall i, j :: 0 <= i < j < n ==> order[i] != order[j])
  }

  function FrameAt(start: nat, frames: seq<Frame>): nat -> Frame {
    x => if start <= x < start + |frames| then frames[x - start] else []
  }

  lemma NumberedPermutes(start: nat, frames: seq<Frame>, order: seq<nat>)
    requires Shuffles(order, |frames|)
    ensures Permutes(Numbered(start, frames, order), start, |frames|)
  {
    var arrivals := Numbered(start, frames, order);
    forall i, j | 0 <= i < j < |frames|
      ensures arrivals[i].0 != arrivals[j].0
    {
      assert order[i] != order[j];
    }
  }

  lemma NumberedCarries(start: nat, frames: seq<Frame>, order: seq<nat>)
    requires Within(order, |frames|)
    ensures Carries(Numbered(start, frames, order), FrameAt(start, frames))
  {
    var arrivals := Numbered(start, frames, order);
    forall k | 0 <= k < |arrivals|
      ensures arrivals[k].1 == FrameAt(start, frames)(arrivals[k].0)
    {
      assert order[k] < |frames|;
    }
  }

  lemma BlockFrames(start: nat, frames: seq<Frame>)
    ensures FramesOf(Block(FrameAt(start, frames), start, start + |frames|)) == frames
  {
  }

  /** End to end: frames sent in a row and arriving in any order with bounded reordering -- each
      preceded by fewer than `size` later ones -- are heard in the order in which they were
      captured, every one of them. */
  lemma HeardInOrder(size: nat, s: State, decrypt: Decrypt, start: nat, captures: seq<Capture>, frames: seq<Frame>,
                     order: seq<nat>, fails: Failing)
    requires size > 0 && s.initialised && s.next == start && s.buffer == map[]
    requires Carried(decrypt, start, captures, frames) && Shuffles(order, |captures|) && forall j: nat :: !fails(j)
    requires Bounded(Numbered(start, frames, order), size)
    ensures Heard(Hear(size, Ear(s, []), Packets(decrypt, Arriving(start, captures, order)), fails).popped, fails)
         == frames
  {
    var arrivals := Numbered(start, frames, order);
    ArrivingPackets(decrypt, start, captures, frames, order);
    NumberedPermutes(start, frames, order);
    NumberedCarries(start, frames, order);
    LosslessIffBounded(size, s, FrameAt(start, frames), arrivals, start, |frames|);
    HearIsPlay(size, Ear(s, []), arrivals, fails);
    assert [] + Play(size, s, arrivals).1 == Play(size, s, arrivals).1;
    AllHeard(Play(size, s, arrivals).1, fails);
    BlockFrames(start, frames);
  }

  /** The same for a new stream whose first frame arrives first. */
  lemma HeardFromStart(size: nat, decrypt: Decrypt, start: nat, captures: seq<Capture>, frames: seq<Frame>,
                       order: seq<nat>, fails: Failing)
    requires size > 0 && |captures| > 0
    requires Carried(decrypt, start, captures, frames) && Shuffles(order, |captures|) && forall j: nat :: !fails(j)
    requires order[0] == 0 && Bounded(Numbered(start, frames, order), size)
    ensures Heard(Hear(size, Ear(EMPTY, []), Packets(decrypt, Arriving(start, captures, order)), fails).popped, fails)
         == frames
  {
    var arrivals := Numbered(start, frames, order);
    ArrivingPackets(decrypt, start, captures, frames, order);
    NumberedPermutes(start, frames, order);
    NumberedCarries(start, frames, order);
    LosslessFresh(size, FrameAt(start, frames), arrivals, start, |frames|);
    HearIsPlay(size, Ear(EMPTY, []), arrivals, fails);
    assert [] + Play(size, EMPTY, arrivals).1 == Play(size, EMPTY, arrivals).1;
    AllHeard(Play(size, EMPTY, arrivals).1, fails);
    BlockFrames(start, frames);
  }
}
