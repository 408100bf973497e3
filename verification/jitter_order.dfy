/** What the jitter buffer plays: exactly when reordering costs nothing, and what is never played. */
module JitterOrder {
  import opened Text
  import opened Sets
  import opened Jitter

  ghost function Seqs(arrivals: seq<Packet>): set<nat> {
    set k | 0 <= k < |arrivals| :: arrivals[k].0
  }

  /** The packets numbered h, ..., h + n - 1, each once, in some order. */
  ghost predicate Permutes(arrivals: seq<Packet>, h: nat, n: nat) {
    && |arrivals| == n
    && (forall k :: 0 <= k < n ==> h <= arrivals[k].0 < h + n)
    && (forall j, k :: 0 <= j < k < n ==> arrivals[j].0 != arrivals[k].0)
  }

  /** Every packet carries its number's frame. */
  ghost predicate Carries(arrivals: seq<Packet>, frame: nat -> Frame) {
    forall k :: 0 <= k < |arrivals| ==> arrivals[k].1 == frame(arrivals[k].0)
  }

  ghost function Above(a: set<nat>, m: nat): set<nat> {
    set x | x in a && x > m
  }

  /** The higher-numbered packets that arrive before packet k. */
  ghost function Ahead(arrivals: seq<Packet>, k: nat): set<nat>
    requires k < |arrivals|
  {
    Above(Seqs(arrivals[..k]), arrivals[k].0)
  }

  ghost predicate Bounded(arrivals: seq<Packet>, size: nat) {
    forall k :: 0 <= k < |arrivals| ==> |Ahead(arrivals, k)| < size
  }

  /** The packets lo, ..., hi - 1 in order. */
  function Block(frame: nat -> Frame, lo: nat, hi: nat): (b: seq<Packet>)
    requires lo <= hi
    ensures |b| == hi - lo
  {
    seq(hi - lo, i requires 0 <= i => (lo + i, frame(lo + i)))
  }

  /** All of `arrived` below the head m has been played, the rest is buffered, and so are some
      leftovers below the head that nothing will ever remove. */
  ghost predicate Waiting(s: State, frame: nat -> Frame, stale: map<nat, Frame>, arrived: set<nat>, m: nat) {
    && s.initialised && s.next == m
    && (forall x :: x in stale ==> x < m)
    && (forall x :: x in s.buffer <==> x in stale || (x in arrived && x >= m))
    && (forall x :: x in stale ==> s.buffer[x] == stale[x])
    && (forall x :: x in arrived && x >= m ==> x in s.buffer && s.buffer[x] == frame(x))
  }

  /** While the head is missing, nothing can force it to skip. */
  ghost predicate NoSkip(size: nat, stale: map<nat, Frame>, arrived: set<nat>, m: nat) {
    stale != map[] || |Above(arrived, m)| < size
  }

  /** Every number from lo up to hi has arrived. */
  ghost predicate Filled(arrived: set<nat>, lo: nat, hi: nat) {
    forall x :: lo <= x < hi ==> x in arrived
  }

  /** Whichever number below hi the head stops at, it is not forced past it. */
  ghost predicate NeverSkips(size: nat, stale: map<nat, Frame>, arrived: set<nat>, lo: nat, hi: nat) {
    forall x :: lo <= x < hi && x !in arrived ==> NoSkip(size, stale, arrived, x)
  }

  lemma HeldBelow(s: State, stale: map<nat, Frame>, m: nat)
    requires stale != map[] && s.next == m
    requires forall x :: x in stale ==> x < m && x in s.buffer
    ensures Advance(s) == s
  {
    assert stale.Keys != {};
    var x :| x in stale.Keys;
    assert Min(s.buffer.Keys) <= x;
  }

  lemma PushStays(size: nat, s: State, frame: nat -> Frame, stale: map<nat, Frame>, arrived: set<nat>, m: nat, x: nat)
    requires Waiting(s, frame, stale, arrived, m) && m !in arrived && NoSkip(size, stale, arrived, m)
    requires x >= m && x !in arrived
    ensures Anchor(s, x) == m && x !in s.buffer
    ensures var u := s.(buffer := s.buffer[x := frame(x)]); |u.buffer| <= size || Advance(u) == u
  {
    var u := s.(buffer := s.buffer[x := frame(x)]);
    if stale != map[] {
      HeldBelow(u, stale, m);
    } else if x == m {
      assert m in u.buffer.Keys;
    } else {
      assert u.buffer.Keys == Above(arrived, m) + {x};
      assert |u.buffer| == |u.buffer.Keys|;
    }
  }

  lemma PushWaits(size: nat, s: State, frame: nat -> Frame, stale: map<nat, Frame>, arrived: set<nat>, m: nat, x: nat)
    requires Waiting(s, frame, stale, arrived, m) && m !in arrived && NoSkip(size, stale, arrived, m)
    requires x >= m && x !in arrived
    ensures Waiting(AfterPush(size, s, x, frame(x)), frame, stale, arrived + {x}, m)
  {
    var u := s.(buffer := s.buffer[x := frame(x)]);
    PushStays(size, s, frame, stale, arrived, m, x);
    assert AfterPush(size, s, x, frame(x)) == u;
  }

  lemma PopNothing(size: nat, s: State, frame: nat -> Frame, stale: map<nat, Frame>, arrived: set<nat>, m: nat)
    requires Waiting(s, frame, stale, arrived, m) && m !in arrived && NoSkip(size, stale, arrived, m)
    ensures AfterPop(size, s) == (s, None)
  {
    if stale != map[] {
      HeldBelow(s, stale, m);
    } else {
      assert s.buffer.Keys == Above(arrived, m);
      assert |s.buffer| == |s.buffer.Keys|;
    }
  }

  lemma PopPlays(size: nat, s: State, frame: nat -> Frame, stale: map<nat, Frame>, arrived: set<nat>, m: nat)
    requires Waiting(s, frame, stale, arrived, m) && m in arrived
    ensures AfterPop(size, s).1 == Some((m, frame(m)))
    ensures Waiting(AfterPop(size, s).0, frame, stale, arrived, m + 1)
  {
  }

  lemma DrainNext(size: nat, s: State)
    requires AfterPop(size, s).1.Some?
    ensures var t := AfterPop(size, s).0;
            Drain(size, s) == (Drain(size, t).0, [AfterPop(size, s).1.value] + Drain(size, t).1)
  {
  }

  lemma BlockFirst(frame: nat -> Frame, lo: nat, hi: nat)
    requires lo < hi
    ensures Block(frame, lo, hi) == [(lo, frame(lo))] + Block(frame, lo + 1, hi)
  {
  }

  /** Draining plays up to the first missing number and stops there. */
  lemma {:induction false} DrainPlays(size: nat, s: State, frame: nat -> Frame, stale: map<nat, Frame>,
                                      arrived: set<nat>, m: nat, gap: nat)
    requires Waiting(s, frame, stale, arrived, m) && m <= gap && gap !in arrived
    requires Filled(arrived, m, gap)
    requires NoSkip(size, stale, arrived, gap)
    ensures Waiting(Drain(size, s).0, frame, stale, arrived, gap)
    ensures Drain(size, s).1 == Block(frame, m, gap)
    decreases gap - m
  {
    if m == gap {
      PopNothing(size, s, frame, stale, arrived, m);
    } else {
      PopPlays(size, s, frame, stale, arrived, m);
      var t := AfterPop(size, s).0;
      DrainPlays(size, t, frame, stale, arrived, m + 1, gap);
      DrainNext(size, s);
      BlockFirst(frame, m, gap);
    }
  }

  lemma {:induction false} FindGap(arrived: set<nat>, m: nat, hi: nat) returns (gap: nat)
    requires m <= hi && hi !in arrived
    ensures m <= gap <= hi && gap !in arrived
    ensures Filled(arrived, m, gap)
    decreases hi - m
  {
    gap := m;
    if m in arrived {
      gap := FindGap(arrived, m + 1, hi);
    }
  }

  lemma SeqsNext(arrivals: seq<Packet>, k: nat)
    requires k < |arrivals|
    ensures Seqs(arrivals[..k + 1]) == Seqs(arrivals[..k]) + {arrivals[k].0}
  {
    var a, b := arrivals[..k + 1], arrivals[..k];
    assert forall j :: 0 <= j < k ==> a[j] == b[j];
    assert a[k] == arrivals[k];
    forall x | x in Seqs(b)
      ensures x in Seqs(a)
    {
      var j :| 0 <= j < |b| && b[j].0 == x;
      assert a[j].0 == x;
    }
  }

  lemma {:induction false} SeqsSize(arrivals: seq<Packet>)
    requires forall j, k :: 0 <= j < k < |arrivals| ==> arrivals[j].0 != arrivals[k].0
    ensures |Seqs(arrivals)| == |arrivals|
    decreases |arrivals|
  {
    if |arrivals| > 0 {
      var last := |arrivals| - 1;
      SeqsSize(arrivals[..last]);
      SeqsNext(arrivals, last);
      assert arrivals[..last + 1] == arrivals;
      assert arrivals[last].0 !in Seqs(arrivals[..last]);
    }
  }

  ghost function Span(h: nat, n: nat): set<nat> {
    Range(h + n) - Range(h)
  }

  lemma SpanSize(h: nat, n: nat)
    ensures |Span(h, n)| == n
  {
    RangeSize(h);
    RangeSize(h + n);
    assert Range(h) <= Range(h + n);
    DifferenceSize(Range(h), Range(h + n));
  }

  /** A permutation of the block contains every one of its numbers. */
  lemma ArrivesAt(arrivals: seq<Packet>, h: nat, n: nat, x: nat) returns (q: nat)
    requires Permutes(arrivals, h, n) && h <= x < h + n
    ensures q < n && arrivals[q].0 == x
  {
    SeqsSize(arrivals);
    SpanSize(h, n);
    assert Seqs(arrivals) <= Span(h, n);
    SubsetSize(Seqs(arrivals), Span(h, n));
    assert x in Seqs(arrivals);
    q :| 0 <= q < n && arrivals[q].0 == x;
  }

  /** A number still missing after k arrivals comes later, and is then preceded by at least the
      higher-numbered packets that are already there. */
  lemma MissingComesLater(arrivals: seq<Packet>, h: nat, n: nat, k: nat, m: nat) returns (q: nat)
    requires Permutes(arrivals, h, n) && k <= n && h <= m < h + n && m !in Seqs(arrivals[..k])
    ensures k <= q < n && arrivals[q].0 == m
    ensures |Above(Seqs(arrivals[..k]), m)| <= |Ahead(arrivals, q)|
  {
    q := ArrivesAt(arrivals, h, n, m);
    assert forall j :: 0 <= j < k ==> arrivals[..k][j].0 in Seqs(arrivals[..k]);
    assert forall j :: 0 <= j < k ==> arrivals[j] == arrivals[..k][j];
    forall x | x in Seqs(arrivals[..k])
      ensures x in Seqs(arrivals[..q])
    {
      var j :| 0 <= j < k && arrivals[..k][j].0 == x;
      assert arrivals[..q][j].0 == x;
    }
    SubsetSize(Above(Seqs(arrivals[..k]), m), Ahead(arrivals, q));
  }

  /** Where a run stands after k arrivals with nothing lost: the head is the first missing number. */
  ghost predicate InStep(size: nat, s: State, frame: nat -> Frame, stale: map<nat, Frame>,
                         arrivals: seq<Packet>, h: nat, n: nat, k: nat, m: nat) {
    && size > 0 && Permutes(arrivals, h, n) && Carries(arrivals, frame) && k <= n && h <= m <= h + n
    && Waiting(s, frame, stale, Seqs(arrivals[..k]), m)
    && m !in Seqs(arrivals[..k]) && Filled(Seqs(arrivals[..k]), h, m)
    && NoSkip(size, stale, Seqs(arrivals[..k]), m)
  }

  lemma NextIsAhead(arrivals: seq<Packet>, h: nat, n: nat, k: nat, m: nat)
    requires Permutes(arrivals, h, n) && k < n
    requires Filled(Seqs(arrivals[..k]), h, m)
    ensures arrivals[k].0 !in Seqs(arrivals[..k]) && arrivals[k].0 >= m
  {
    assert forall j :: 0 <= j < k ==> arrivals[..k][j] == arrivals[j];
  }

  /** One arrival that forces no skip: the head moves to the next missing number, playing all
      before it. */
  lemma StepPlays(size: nat, s: State, frame: nat -> Frame, stale: map<nat, Frame>,
                  arrivals: seq<Packet>, h: nat, n: nat, k: nat, m: nat) returns (gap: nat)
    requires InStep(size, s, frame, stale, arrivals, h, n, k, m) && k < n
    requires NeverSkips(size, stale, Seqs(arrivals[..k + 1]), m, h + n)
    ensures var r := Drain(size, AfterPush(size, s, arrivals[k].0, arrivals[k].1));
            m <= gap && InStep(size, r.0, frame, stale, arrivals, h, n, k + 1, gap)
            && r.1 == Block(frame, m, gap)
  {
    var x := arrivals[k].0;
    var a, b := Seqs(arrivals[..k]), Seqs(arrivals[..k + 1]);
    SeqsNext(arrivals, k);
    NextIsAhead(arrivals, h, n, k, m);
    PushWaits(size, s, frame, stale, a, m, x);
    gap := FindGap(b, m, h + n);
    if gap == h + n {
      assert Above(b, h + n) == {};
    }
    DrainPlays(size, AfterPush(size, s, x, frame(x)), frame, stale, b, m, gap);
  }

  lemma PlayNext(size: nat, s: State, arrivals: seq<Packet>, k: nat)
    requires k < |arrivals|
    ensures var r := Drain(size, AfterPush(size, s, arrivals[k].0, arrivals[k].1));
            var p := Play(size, r.0, arrivals[k + 1..]);
            Play(size, s, arrivals[k..]) == (p.0, r.1 + p.1)
  {
    assert arrivals[k..][0] == arrivals[k] && arrivals[k..][1..] == arrivals[k + 1..];
  }

  lemma BlockJoin(frame: nat -> Frame, a: nat, b: nat, c: nat)
    requires a <= b <= c
    ensures Block(frame, a, b) + Block(frame, b, c) == Block(frame, a, c)
  {
  }

  lemma {:induction false} PlaysAll(size: nat, s: State, frame: nat -> Frame, stale: map<nat, Frame>,
                                    arrivals: seq<Packet>, h: nat, n: nat, k: nat, m: nat)
    requires InStep(size, s, frame, stale, arrivals, h, n, k, m)
    requires stale != map[] || Bounded(arrivals, size)
    ensures Play(size, s, arrivals[k..]).1 == Block(frame, m, h + n)
    ensures Waiting(Play(size, s, arrivals[k..]).0, frame, stale, Seqs(arrivals), h + n)
    decreases n - k
  {
    if k == n {
      assert arrivals[..n] == arrivals;
      if m < h + n {
        var q := MissingComesLater(arrivals, h, n, k, m);
      }
    } else {
      var arrived := Seqs(arrivals[..k + 1]);
      forall x | m <= x < h + n && x !in arrived
        ensures NoSkip(size, stale, arrived, x)
      {
        var q := MissingComesLater(arrivals, h, n, k + 1, x);
      }
      var gap := StepPlays(size, s, frame, stale, arrivals, h, n, k, m);
      var t := Drain(size, AfterPush(size, s, arrivals[k].0, arrivals[k].1)).0;
      PlaysAll(size, t, frame, stale, arrivals, h, n, k + 1, gap);
      PlayNext(size, s, arrivals, k);
      BlockJoin(frame, m, gap, h + n);
    }
  }

  /** With `size` packets above a missing head the next pop skips it. */
  lemma SkipsHead(size: nat, s: State, frame: nat -> Frame, arrived: set<nat>, m: nat)
    requires Waiting(s, frame, map[], arrived, m) && m !in arrived
    requires size > 0 && |Above(arrived, m)| >= size
    ensures |Drain(size, s).1| > 0 && Drain(size, s).1[0].0 > m
  {
    assert s.buffer.Keys == Above(arrived, m);
    assert |s.buffer| == |s.buffer.Keys|;
    assert AfterPop(size, s).1 == Some((Min(s.buffer.Keys), s.buffer[Min(s.buffer.Keys)]));
  }

  /** Packet i played is beyond number m + i: one before it was lost. */
  predicate Skips(played: seq<Packet>, m: nat, i: nat) {
    i < |played| && played[i].0 > m + i
  }

  /** The arrival that leaves `size` packets above the missing head loses the head. */
  lemma LosesHead(size: nat, s: State, frame: nat -> Frame, arrivals: seq<Packet>, h: nat, n: nat, k: nat, m: nat)
    requires InStep(size, s, frame, map[], arrivals, h, n, k, m) && k < n
    requires arrivals[k].0 != m && |Above(Seqs(arrivals[..k + 1]), m)| >= size
    ensures Skips(Play(size, s, arrivals[k..]).1, m, 0)
  {
    var x := arrivals[k].0;
    var a, b := Seqs(arrivals[..k]), Seqs(arrivals[..k + 1]);
    NextIsAhead(arrivals, h, n, k, m);
    SeqsNext(arrivals, k);
    PushWaits(size, s, frame, map[], a, m, x);
    SkipsHead(size, AfterPush(size, s, x, frame(x)), frame, b, m);
    PlayNext(size, s, arrivals, k);
  }

  /** Any other arrival does not. */
  lemma KeepsHead(size: nat, s: State, frame: nat -> Frame, arrivals: seq<Packet>, h: nat, n: nat, k: nat, m: nat)
    requires InStep(size, s, frame, map[], arrivals, h, n, k, m) && k < n
    requires arrivals[k].0 == m || |Above(Seqs(arrivals[..k + 1]), m)| < size
    ensures NeverSkips(size, map[], Seqs(arrivals[..k + 1]), m, h + n)
    ensures |Ahead(arrivals, k)| < size
  {
    var a, b := Seqs(arrivals[..k]), Seqs(arrivals[..k + 1]);
    NextIsAhead(arrivals, h, n, k, m);
    SeqsNext(arrivals, k);
    SubsetSize(Ahead(arrivals, k), Above(a, m));
    forall y | m <= y < h + n && y !in b
      ensures NoSkip(size, map[], b, y)
    {
      if arrivals[k].0 == m {
        SubsetSize(Above(b, y), Above(a, m));
      } else {
        SubsetSize(Above(b, y), Above(b, m));
      }
    }
  }

  /** One turn of the receive loop: push a packet, then drain. */
  function Turn(size: nat, s: State, packet: Packet): (State, seq<Packet>) {
    Drain(size, AfterPush(size, s, packet.0, packet.1))
  }

  lemma SkipsLater(now: seq<Packet>, later: seq<Packet>, m: nat, i: nat)
    requires Skips(later, m + |now|, i)
    ensures Skips(now + later, m, |now| + i)
  {
    assert (now + later)[|now| + i] == later[i];
  }

  /** If the rest of the packets lose one, so do the packets from k on. */
  lemma LaterLoss(size: nat, s: State, arrivals: seq<Packet>, k: nat, m: nat, i: nat)
    requires k < |arrivals|
    requires Skips(Play(size, Turn(size, s, arrivals[k]).0, arrivals[k + 1..]).1, m + |Turn(size, s, arrivals[k]).1|, i)
    ensures Skips(Play(size, s, arrivals[k..]).1, m, |Turn(size, s, arrivals[k]).1| + i)
  {
    var r := Turn(size, s, arrivals[k]);
    PlayNext(size, s, arrivals, k);
    SkipsLater(r.1, Play(size, r.0, arrivals[k + 1..]).1, m, i);
  }

  /** An arrival loses the head or moves the run on; the one with `size` packets ahead of it is
      still to come in the second case. */
  lemma LosesOrMoves(size: nat, s: State, frame: nat -> Frame,
                     arrivals: seq<Packet>, h: nat, n: nat, k: nat, m: nat, q: nat) returns (lost: bool, gap: nat)
    requires InStep(size, s, frame, map[], arrivals, h, n, k, m)
    requires k <= q < n && |Ahead(arrivals, q)| >= size
    ensures lost ==> Skips(Play(size, s, arrivals[k..]).1, m, 0)
    ensures !lost ==> k < q && gap == m + |Turn(size, s, arrivals[k]).1|
    ensures !lost ==> InStep(size, Turn(size, s, arrivals[k]).0, frame, map[], arrivals, h, n, k + 1, gap)
  {
    lost := arrivals[k].0 != m && |Above(Seqs(arrivals[..k + 1]), m)| >= size;
    if lost {
      LosesHead(size, s, frame, arrivals, h, n, k, m);
      gap := m;
    } else {
      KeepsHead(size, s, frame, arrivals, h, n, k, m);
      gap := StepPlays(size, s, frame, map[], arrivals, h, n, k, m);
    }
  }

  lemma {:induction false} LosesOne(size: nat, s: State, frame: nat -> Frame,
                                    arrivals: seq<Packet>, h: nat, n: nat, k: nat, m: nat, q: nat) returns (i: nat)
    requires InStep(size, s, frame, map[], arrivals, h, n, k, m)
    requires k <= q < n && |Ahead(arrivals, q)| >= size
    ensures Skips(Play(size, s, arrivals[k..]).1, m, i)
    decreases n - k
  {
    var lost, gap := LosesOrMoves(size, s, frame, arrivals, h, n, k, m, q);
    if lost {
      i := 0;
    } else {
      var j := LosesOne(size, Turn(size, s, arrivals[k]).0, frame, arrivals, h, n, k + 1, gap, q);
      LaterLoss(size, s, arrivals, k, m, j);
      i := |Turn(size, s, arrivals[k]).1| + j;
    }
  }

  lemma Starts(size: nat, s: State, frame: nat -> Frame, arrivals: seq<Packet>, h: nat, n: nat)
    requires size > 0 && s.initialised && s.next == h && forall x :: x in s.buffer ==> x < h
    requires Permutes(arrivals, h, n) && Carries(arrivals, frame)
    ensures InStep(size, s, frame, s.buffer, arrivals, h, n, 0, h)
    ensures arrivals[0..] == arrivals
  {
    assert Seqs(arrivals[..0]) == {};
    assert Above(Seqs(arrivals[..0]), h) == {};
  }

  /** A buffer with nothing in it and its head at h plays the whole block, each packet once, in
      order, exactly when every packet is preceded by fewer than `size` higher-numbered ones. */
  lemma LosslessIffBounded(size: nat, s: State, frame: nat -> Frame, arrivals: seq<Packet>, h: nat, n: nat)
    requires size > 0 && s.initialised && s.next == h && s.buffer == map[]
    requires Permutes(arrivals, h, n) && Carries(arrivals, frame)
    ensures Play(size, s, arrivals).1 == Block(frame, h, h + n) <==> Bounded(arrivals, size)
  {
    Starts(size, s, frame, arrivals, h, n);
    if Bounded(arrivals, size) {
      PlaysAll(size, s, frame, map[], arrivals, h, n, 0, h);
    } else {
      var q :| 0 <= q < n && |Ahead(arrivals, q)| >= size;
      var i := LosesOne(size, s, frame, arrivals, h, n, 0, h, q);
    }
  }

  /** A late packet left below the head switches skipping off: the block is then played whole
      under every reordering, and the leftovers stay. */
  lemma LosslessWithLeftovers(size: nat, s: State, frame: nat -> Frame, arrivals: seq<Packet>, h: nat, n: nat)
    requires size > 0 && s.initialised && s.next == h
    requires s.buffer != map[] && forall x :: x in s.buffer ==> x < h
    requires Permutes(arrivals, h, n) && Carries(arrivals, frame)
    ensures Play(size, s, arrivals).1 == Block(frame, h, h + n)
    ensures Play(size, s, arrivals).0.buffer == s.buffer
  {
    Starts(size, s, frame, arrivals, h, n);
    PlaysAll(size, s, frame, s.buffer, arrivals, h, n, 0, h);
    assert forall x :: x in Seqs(arrivals) ==> x < h + n;
    var t := Play(size, s, arrivals).0;
    assert t.buffer.Keys == s.buffer.Keys;
  }

  /** A new stream plays its first block whole exactly when, besides, the first packet to arrive
      is the lowest-numbered one. */
  lemma LosslessFresh(size: nat, frame: nat -> Frame, arrivals: seq<Packet>, h: nat, n: nat)
    requires size > 0 && n > 0 && Permutes(arrivals, h, n) && Carries(arrivals, frame)
    ensures Play(size, EMPTY, arrivals).1 == Block(frame, h, h + n)
       <==> arrivals[0].0 == h && Bounded(arrivals, size)
  {
    var x := arrivals[0].0;
    var s := State(map[], x, true, false);
    assert AfterPush(size, EMPTY, x, arrivals[0].1) == AfterPush(size, s, x, arrivals[0].1);
    assert arrivals[0..] == arrivals;
    PlayNext(size, EMPTY, arrivals, 0);
    PlayNext(size, s, arrivals, 0);
    if x == h {
      LosslessIffBounded(size, s, frame, arrivals, h, n);
    } else {
      var t := AfterPush(size, s, x, arrivals[0].1);
      assert t == State(map[x := arrivals[0].1], x, true, false);
      assert AfterPop(size, t).1 == Some((x, arrivals[0].1));
      assert Play(size, EMPTY, arrivals).1[0].0 == x;
    }
  }
}
