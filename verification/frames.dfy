/** The two encodings of the file transfer: binary chunk frames and the HAVE line. */
module Frames {
  import opened Bytes
  import opened Text
  import opened Crypto
  import opened Sets

  const HEADER_LEN := 8 + CHECKSUM_LEN
  const UINT32_SPAN := 0x1_0000_0000

  datatype Frame = Frame(index: nat, checksum: seq<byte>, payload: seq<byte>)

  /** What struct.pack(">II") and the fixed checksum field can carry. */
  predicate Encodable(f: Frame) {
    f.index < UINT32_SPAN && |f.payload| < UINT32_SPAN && |f.checksum| == CHECKSUM_LEN
  }

  function Encode(f: Frame): (bs: seq<byte>)
    ensures |f.checksum| == CHECKSUM_LEN ==> |bs| == HEADER_LEN + |f.payload|
  {
    BigEndian(f.index, 4) + BigEndian(|f.payload|, 4) + f.checksum + f.payload
  }

  function EncodeAll(fs: seq<Frame>): seq<byte> {
    if |fs| == 0 then [] else Encode(fs[0]) + EncodeAll(fs[1..])
  }

  /** One frame off the front of what a stream still holds; None is IncompleteReadError. */
  function ReadFrame(s: seq<byte>): (r: Option<(Frame, seq<byte>)>)
    ensures r.Some? ==> |r.value.1| < |s|
  {
    if |s| < HEADER_LEN then None
    else
      var length := FromBigEndian(s[4..8]);
      if |s| < HEADER_LEN + length then None
      else
        Some((Frame(FromBigEndian(s[..4]), s[8..HEADER_LEN], s[HEADER_LEN..HEADER_LEN + length]),
              s[HEADER_LEN + length..]))
  }

  /** Every complete frame a stream holds, front to back. */
  function DecodeAll(s: seq<byte>): seq<Frame>
    decreases |s|
  {
    match ReadFrame(s)
    case None => []
    case Some((f, rest)) => [f] + DecodeAll(rest)
  }

  lemma ReadEncoded(f: Frame, rest: seq<byte>)
    requires Encodable(f)
    ensures ReadFrame(Encode(f) + rest) == Some((f, rest))
  {
    var s := Encode(f) + rest;
    Widths();
    BigEndianRoundTrip(f.index, 4);
    BigEndianRoundTrip(|f.payload|, 4);
    assert s[..4] == BigEndian(f.index, 4);
    assert s[4..8] == BigEndian(|f.payload|, 4);
    assert s[8..HEADER_LEN] == f.checksum;
    assert s[HEADER_LEN..HEADER_LEN + |f.payload|] == f.payload;
    assert s[HEADER_LEN + |f.payload|..] == rest;
  }

  /** The header on the wire: index and payload length in network order, then the checksum. */
  lemma FrameLayout(f: Frame)
    requires Encodable(f)
    ensures |Encode(f)| == 72 + |f.payload| && Encode(f)[8..72] == f.checksum && Encode(f)[72..] == f.payload
    ensures Word(Encode(f)[0], Encode(f)[1], Encode(f)[2], Encode(f)[3]) == f.index
    ensures Word(Encode(f)[4], Encode(f)[5], Encode(f)[6], Encode(f)[7]) == |f.payload|
  {
    var e := Encode(f);
    Widths();
    BigEndianRoundTrip(f.index, 4);
    BigEndianRoundTrip(|f.payload|, 4);
    assert e[..4] == BigEndian(f.index, 4) && e[4..8] == BigEndian(|f.payload|, 4);
    NetworkOrder(e[..4]);
    NetworkOrder(e[4..8]);
  }

  /** A frame cut short by the end of the stream is never read, whatever is missing of it. */
  lemma ReadTruncated(f: Frame, p: seq<byte>)
    requires Encodable(f) && p <= Encode(f) && p != Encode(f)
    ensures ReadFrame(p) == None
  {
    if |p| >= HEADER_LEN {
      Widths();
      BigEndianRoundTrip(|f.payload|, 4);
      assert p[4..8] == Encode(f)[4..8] == BigEndian(|f.payload|, 4);
    }
  }

  /** Chunk framing is self-delimiting: any prefix of the encodings of `fs` decodes to exactly
      those frames that lie wholly inside it, in order. */
  lemma {:induction false} DecodePrefix(fs: seq<Frame>, p: seq<byte>)
    requires forall f :: f in fs ==> Encodable(f)
    requires p <= EncodeAll(fs)
    ensures DecodeAll(p) <= fs
    ensures forall k :: 0 <= k <= |fs| ==> (EncodeAll(fs[..k]) <= p <==> k <= |DecodeAll(p)|)
    decreases |fs|
  {
    if |fs| == 0 {
      assert fs[..0] == [];
    } else {
      var e := Encode(fs[0]);
      forall k | 0 < k <= |fs|
        ensures EncodeAll(fs[..k]) == e + EncodeAll(fs[1..][..k - 1])
      {
        assert fs[..k][1..] == fs[1..][..k - 1];
      }
      assert fs[..0] == [] && EncodeAll(fs[..0]) == [];
      if e <= p {
        var q := p[|e|..];
        assert p == e + q;
        assert q <= EncodeAll(fs[1..]);
        ReadEncoded(fs[0], q);
        DecodePrefix(fs[1..], q);
        assert DecodeAll(p) == [fs[0]] + DecodeAll(q);
        forall k | 0 <= k <= |fs|
          ensures EncodeAll(fs[..k]) <= p <==> k <= |DecodeAll(p)|
        {
          if k > 0 {
            assert EncodeAll(fs[..k]) <= p <==> EncodeAll(fs[1..][..k - 1]) <= q;
          }
        }
      } else {
        assert p <= e by {
          assert p <= e + EncodeAll(fs[1..]);
          assert |p| <= |e|;
        }
        ReadTruncated(fs[0], p);
      }
    }
  }

  /** The whole encoding of a list of frames decodes to that list. */
  lemma DecodeEncoded(fs: seq<Frame>)
    requires forall f :: f in fs ==> Encodable(f)
    ensures DecodeAll(EncodeAll(fs)) == fs
  {
    DecodePrefix(fs, EncodeAll(fs));
    assert fs[..|fs|] == fs;
  }

  // ---------------------------------------------------------------- the HAVE line

  function Join(xs: seq<nat>): string {
    if |xs| == 0 then ""
    else if |xs| == 1 then Print(xs[0])
    else Print(xs[0]) + [','] + Join(xs[1..])
  }

  function HaveLine(indexes: set<nat>): string {
    "HAVE " + Join(Sorted(indexes)) + "\n"
  }

  /** The default limit of an asyncio StreamReader. */
  const LINE_LIMIT := 0x1_0000

  /** The bytes of a line before its newline, if it has one. */
  function Content(line: string): nat {
    if |line| > 0 && line[|line| - 1] == '\n' then |line| - 1 else |line|
  }

  /** readline() returns the line; otherwise it raises ValueError. */
  predicate Readable(line: string) {
    Content(line) <= LINE_LIMIT
  }

  /** {int(idx) for idx in items if idx}; None is the ValueError of int. */
  function ParseItems(items: seq<string>): Option<set<nat>> {
    if |items| == 0 then Some({})
    else
      match ParseItems(items[1..])
      case None => None
      case Some(rest) =>
        if items[0] == "" then Some(rest)
        else if !IsDecimal(items[0]) then None
        else Some({Parse(items[0])} + rest)
  }

  /** The client's reading of the first line of an upload connection. */
  function ParseHave(line: string): Option<set<nat>> {
    if !("HAVE " <= line) then Some({})
    else
      var text := DropNewlines(line);
      var payload := Strip(if "HAVE " <= text then text[5..] else text);
      if payload == "" then Some({}) else ParseItems(SplitOn(payload, ','))
  }

  predicate ListChars(s: string) {
    forall i :: 0 <= i < |s| ==> IsDigit(s[i]) || s[i] == ','
  }

  lemma {:induction false} JoinChars(xs: seq<nat>)
    ensures ListChars(Join(xs))
    ensures |xs| > 0 ==> |Join(xs)| > 0
  {
    if |xs| > 1 { JoinChars(xs[1..]); }
  }

  /** What reading the cut list `p` of `xs` gives: all of `xs`, or only numbers below its last. */
  ghost predicate ReadsPrefix(xs: seq<nat>, p: string)
    requires |xs| > 0
  {
    match ParseItems(SplitOn(p, ','))
    case None => false
    case Some(read) =>
      if p == Join(xs) then read == set x | x in xs
      else forall v :: v in read ==> v < xs[|xs| - 1]
  }

  lemma ReadsWithinFirst(xs: seq<nat>, p: string)
    requires |xs| > 0 && Increasing(xs)
    requires p <= Print(xs[0])
    ensures ReadsPrefix(xs, p)
  {
    var first := Print(xs[0]);
    ParsePrint(xs[0]);
    assert forall i :: 0 <= i < |p| ==> p[i] == first[i];
    SplitNone(p, ',');
    assert SplitOn(p, ',') == [p] && [p][1..] == [];
    var none: seq<string> := [];
    assert ParseItems(none) == Some({});
    if p != first && p != "" {
      PrefixIsSmaller(xs[0], p);
    }
    assert p != "" ==> IsDecimal(p);
    assert [p][1..] == none;
    assert p != "" ==> {Parse(p)} + {} == {Parse(p)};
    assert ParseItems([p]) == Some(if p == "" then {} else {Parse(p)});
    assert Parse(p) <= xs[0] <= xs[|xs| - 1];
    if |xs| == 1 {
      assert (set x | x in xs) == {xs[0]};
    }
  }

  lemma BeyondFirst(xs: seq<nat>, p: string) returns (q: string)
    requires |xs| > 0 && p <= Join(xs) && !(p <= Print(xs[0]))
    ensures |xs| > 1 && q <= Join(xs[1..]) && p == Print(xs[0]) + [','] + q
    ensures p == Join(xs) <==> q == Join(xs[1..])
  {
    var first := Print(xs[0]);
    var head := first + [','];
    var rest := Join(xs[1..]);
    assert |xs| > 1;
    assert Join(xs) == head + rest;
    assert |p| > |first|;
    q := p[|head|..];
    assert p == head + q;
  }

  lemma FirstAndRest(xs: seq<nat>)
    requires |xs| > 0
    ensures (set x | x in xs) == {xs[0]} + set x | x in xs[1..]
  {
    assert xs == [xs[0]] + xs[1..];
  }

  lemma ReadsNext(xs: seq<nat>, p: string, q: string)
    requires |xs| > 1 && Increasing(xs)
    requires p == Print(xs[0]) + [','] + q
    requires p == Join(xs) <==> q == Join(xs[1..])
    requires ReadsPrefix(xs[1..], q)
    ensures ReadsPrefix(xs, p)
  {
    ParsePrint(xs[0]);
    SplitAfter(Print(xs[0]), ',', q);
    var rest := SplitOn(q, ',');
    assert ([Print(xs[0])] + rest)[1..] == rest;
    assert ParseItems(SplitOn(p, ',')) == Some({xs[0]} + ParseItems(rest).value);
    FirstAndRest(xs);
    assert xs[0] < xs[|xs| - 1] == xs[1..][|xs| - 2];
  }

  /** Reading any prefix of a printed list: the whole list gives its elements, and a list cut
      short gives only numbers below the largest element. */
  lemma {:induction false} ParseListPrefix(xs: seq<nat>, p: string)
    requires |xs| > 0 && Increasing(xs)
    requires p <= Join(xs)
    ensures ReadsPrefix(xs, p)
    decreases |xs|
  {
    var first := Print(xs[0]);
    if p <= first {
      ReadsWithinFirst(xs, p);
    } else {
      var q := BeyondFirst(xs, p);
      ParseListPrefix(xs[1..], q);
      ReadsNext(xs, p, q);
    }
  }

  lemma {:induction false} DropNone(s: string)
    requires |s| > 0 ==> s[|s| - 1] != '\n'
    ensures DropNewlines(s) == s && DropNewlines(s + "\n") == s
  {
    assert (s + "\n")[..|s|] == s;
  }

  lemma ParseHavePayload(q: string, newline: bool)
    requires ListChars(q)
    ensures ParseHave("HAVE " + q + if newline then "\n" else "")
         == ParseItems(SplitOn(q, ','))
  {
    var blank: seq<string> := [""];
    var none: seq<string> := [];
    assert blank[1..] == none && ParseItems(none) == Some({});
    var line := "HAVE " + q + if newline then "\n" else "";
    var text := "HAVE " + q;
    assert "HAVE " <= line && "HAVE " <= text;
    DropNone(text);
    assert line == if newline then text + "\n" else text;
    assert text[5..] == q;
    StripSolid(q);
  }

  lemma SortedSet(s: set<nat>)
    ensures (set x | x in Sorted(s)) == s
  {
  }

  /** The client reads back exactly the indexes the server printed. */
  lemma HaveRoundTrip(indexes: set<nat>)
    ensures ParseHave(HaveLine(indexes)) == Some(indexes)
  {
    var xs := Sorted(indexes);
    JoinChars(xs);
    ParseHavePayload(Join(xs), true);
    if |xs| > 0 {
      ParseListPrefix(xs, Join(xs));
      SortedSet(indexes);
    } else {
      var blank: seq<string> := [""];
      var none: seq<string> := [];
      assert blank[1..] == none && ParseItems(none) == Some({});
      assert indexes == {};
    }
  }

  lemma PrintedInOrder(indexes: set<nat>, xs: seq<nat>)
    requires Increasing(xs) && forall x :: x in xs <==> x in indexes
    ensures HaveLine(indexes) == "HAVE " + Join(xs) + "\n"
  {
    SameOrder(Sorted(indexes), xs);
  }

  lemma JoinTwo(x: nat, y: nat)
    ensures Join([x, y]) == Print(x) + "," + Print(y)
  {
    assert [x, y][1..] == [y];
  }

  lemma JoinThree(x: nat, y: nat, z: nat)
    ensures Join([x, y, z]) == Print(x) + "," + Print(y) + "," + Print(z)
  {
    assert [x, y, z][1..] == [y, z];
    JoinTwo(y, z);
  }

  /** What the line looks like. */
  lemma HaveLooks(a: nat, b: nat, c: nat)
    requires a < b < c
    ensures HaveLine({}) == "HAVE \n"
    ensures HaveLine({c, a, b}) == "HAVE " + (Print(a) + "," + Print(b) + "," + Print(c)) + "\n"
  {
    var none: seq<nat> := [];
    PrintedInOrder({}, none);
    PrintedInOrder({c, a, b}, [a, b, c]);
    JoinThree(a, b, c);
    assert "HAVE " + "" + "\n" == "HAVE \n";
  }

  /** `read` are the printed indexes if the line is whole; otherwise nothing as large as the
      largest of them, that is, only numbers below n - 1 whenever all of them are below n. */
  ghost predicate ReadsHave(indexes: set<nat>, whole: bool, n: nat, read: Option<set<nat>>) {
    && read.Some?
    && (if whole then read.value == indexes else forall v :: v in read.value ==> v + 1 < n)
  }

  lemma CutLine(full: string, p: string)
    requires 5 <= |p| && p <= "HAVE " + full + "\n" && p != "HAVE " + full + "\n"
    ensures |p| - 5 <= |full| && p == "HAVE " + full[..|p| - 5]
  {
    var line := "HAVE " + full + "\n";
    assert |p| < |line|;
    assert p == line[..|p|];
  }

  lemma BelowLast(indexes: set<nat>, xs: seq<nat>, n: nat, q: string)
    requires |xs| > 0 && ReadsPrefix(xs, q) && (set x | x in xs) == indexes
    requires forall x :: x in indexes ==> x < n
    ensures ReadsHave(indexes, q == Join(xs), n, ParseItems(SplitOn(q, ',')))
  {
    assert xs[|xs| - 1] in indexes;
  }

  lemma PayloadTruncated(indexes: set<nat>, n: nat, q: string)
    requires q <= Join(Sorted(indexes)) && n > 0 && forall x :: x in indexes ==> x < n
    ensures ReadsHave(indexes, q == Join(Sorted(indexes)), n, ParseHave("HAVE " + q))
  {
    var xs := Sorted(indexes);
    JoinChars(xs);
    forall i | 0 <= i < |q|
      ensures q[i] == Join(xs)[i]
    {
    }
    ParseHavePayload(q, false);
    assert "HAVE " + q + "" == "HAVE " + q;
    if |xs| > 0 {
      ParseListPrefix(xs, q);
      SortedSet(indexes);
      BelowLast(indexes, xs, n, q);
    } else {
      assert q == "" && indexes == {};
    }
  }

  /** A HAVE line cut short by a broken connection is still readable, and names no index as
      large as the largest one the server printed -- unless only the newline is missing. */
  lemma HaveTruncated(indexes: set<nat>, n: nat, p: string)
    requires p <= HaveLine(indexes) && n > 0 && forall x :: x in indexes ==> x < n
    ensures ReadsHave(indexes, |p| + 1 >= |HaveLine(indexes)|, n, ParseHave(p))
  {
    var full := Join(Sorted(indexes));
    if |p| < 5 {
      assert ParseHave(p) == Some({});
    } else if p == HaveLine(indexes) {
      HaveRoundTrip(indexes);
    } else {
      CutLine(full, p);
      PayloadTruncated(indexes, n, full[..|p| - 5]);
    }
  }
}
