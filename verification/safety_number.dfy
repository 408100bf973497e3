/** client/crypto/fingerprint.py: safety numbers and formatted fingerprints. */
module SafetyNumbers {
  import opened Bytes
  import opened Text
  import opened Crypto

  const GROUP := 4
  const DIGITS := 20
  const HEX_PREFIX := 16

  // ---------------------------------------------------------------- ordering two keys

  /** a < b as Python compares bytes. */
  predicate Before(a: seq<byte>, b: seq<byte>) {
    if |b| == 0 then false
    else if |a| == 0 then true
    else a[0] < b[0] || (a[0] == b[0] && Before(a[1..], b[1..]))
  }

  lemma {:induction false} BeforeIsTotal(a: seq<byte>, b: seq<byte>)
    ensures a == b || Before(a, b) || Before(b, a)
    ensures !(Before(a, b) && Before(b, a))
  {
    if |a| > 0 && |b| > 0 && a[0] == b[0] {
      BeforeIsTotal(a[1..], b[1..]);
      assert a == [a[0]] + a[1..] && b == [b[0]] + b[1..];
    }
  }

  /** The order of dictionaries: the first byte that differs decides, and a prefix comes first. */
  predicate FirstDifference(a: seq<byte>, b: seq<byte>, k: nat) {
    k <= |a| && k < |b| && a[..k] == b[..k] && (k == |a| || a[k] < b[k])
  }

  lemma {:induction false} BeforeIff(a: seq<byte>, b: seq<byte>)
    ensures Before(a, b) <==> exists k :: FirstDifference(a, b, k)
  {
    if |a| > 0 && |b| > 0 && a[0] == b[0] {
      BeforeIff(a[1..], b[1..]);
      if k: nat :| FirstDifference(a[1..], b[1..], k) {
        assert a[..k + 1] == [a[0]] + a[1..][..k] && b[..k + 1] == [b[0]] + b[1..][..k];
        assert FirstDifference(a, b, k + 1);
      }
      if k: nat :| FirstDifference(a, b, k) {
        assert k > 0;
        assert a[1..][..k - 1] == a[..k][1..] && b[1..][..k - 1] == b[..k][1..];
        assert FirstDifference(a[1..], b[1..], k - 1);
      }
    } else if Before(a, b) {
      assert FirstDifference(a, b, 0);
    } else {
      forall k: nat | k > 0
        ensures !FirstDifference(a, b, k)
      {
        assert |a| > 0 && |b| > 0 && k <= |a| && k <= |b| ==> a[..k][0] == a[0] && b[..k][0] == b[0];
      }
    }
  }

  /** first + second, where first, second = sorted([a, b]) */
  function Joined(a: seq<byte>, b: seq<byte>): seq<byte> {
    if Before(b, a) then b + a else a + b
  }

  // ---------------------------------------------------------------- hexadecimal

  function HexDigit(b: byte): (d: nat)
    requires IsHexByte(b)
    ensures d < 16
  {
    if b <= 57 then b - 48 else b - 87
  }

  predicate IsHex(s: seq<byte>) {
    forall i :: 0 <= i < |s| ==> IsHexByte(s[i])
  }

  function Pow(base: nat, k: nat): nat {
    if k == 0 then 1 else base * Pow(base, k - 1)
  }

  /** int(s, 16) */
  function HexValue(s: seq<byte>): nat
    requires IsHex(s)
  {
    if |s| == 0 then 0 else HexValue(s[..|s| - 1]) * 16 + HexDigit(s[|s| - 1])
  }

  lemma {:induction false} HexBound(s: seq<byte>)
    requires IsHex(s)
    ensures HexValue(s) < Pow(16, |s|)
  {
    if |s| > 0 {
      HexBound(s[..|s| - 1]);
    }
  }

  const HEX_DIGITS := "0123456789abcdef"

  function HexChar(d: nat): int
    requires d < 16
  {
    HEX_DIGITS[d] as int
  }

  /** A number in `width` hexadecimal digits. */
  function HexText(n: nat, width: nat): (s: seq<int>)
    ensures |s| == width
  {
    if width == 0 then [] else HexText(n / 16, width - 1) + [HexChar(n % 16)]
  }

  lemma DigitPrinted(b: byte)
    requires IsHexByte(b)
    ensures HexChar(HexDigit(b)) == b
  {
  }

  lemma DivideDigit(v: nat, d: nat)
    requires d < 16
    ensures (v * 16 + d) / 16 == v && (v * 16 + d) % 16 == d
  {
  }

  /** Printing the value gives the digits back. */
  lemma {:induction false} HexRoundTrip(s: seq<byte>)
    requires IsHex(s)
    ensures HexText(HexValue(s), |s|) == s
  {
    if |s| > 0 {
      var n := |s| - 1;
      HexRoundTrip(s[..n]);
      DigitPrinted(s[n]);
      DivideDigit(HexValue(s[..n]), HexDigit(s[n]));
      assert s == s[..n] + [s[n]];
    }
  }

  // ---------------------------------------------------------------- groups of four

  /** [s[i : i + 4] for i in range(0, len(s), 4)] */
  function Groups(s: string): seq<string> {
    if |s| == 0 then [] else if |s| <= GROUP then [s] else [s[..GROUP]] + Groups(s[GROUP..])
  }

  /** " ".join(parts) */
  function JoinSpaced(parts: seq<string>): string {
    if |parts| == 0 then "" else if |parts| == 1 then parts[0] else parts[0] + " " + JoinSpaced(parts[1..])
  }

  function FormatFingerprint(s: string): string {
    JoinSpaced(Groups(s))
  }

  function WithoutSpaces(s: string): string {
    if |s| == 0 then "" else (if s[0] == ' ' then "" else [s[0]]) + WithoutSpaces(s[1..])
  }

  lemma {:induction false} WithoutSpacesAppend(s: string, t: string)
    ensures WithoutSpaces(s + t) == WithoutSpaces(s) + WithoutSpaces(t)
  {
    if |s| == 0 {
      assert s + t == t;
    } else {
      assert (s + t)[0] == s[0] && (s + t)[1..] == s[1..] + t;
      WithoutSpacesAppend(s[1..], t);
    }
  }

  lemma {:induction false} WithoutSpacesSolid(s: string)
    requires ' ' !in s
    ensures WithoutSpaces(s) == s
  {
    if |s| > 0 {
      WithoutSpacesSolid(s[1..]);
      assert s == [s[0]] + s[1..];
    }
  }

  lemma FormatSplits(s: string)
    requires |s| > 4
    ensures FormatFingerprint(s) == s[..4] + " " + FormatFingerprint(s[4..])
  {
    var rest := Groups(s[GROUP..]);
    assert |rest| > 0 && ([s[..GROUP]] + rest)[1..] == rest;
  }

  lemma OneSpace()
    ensures WithoutSpaces(" ") == ""
  {
    assert " "[1..] == "";
  }

  /** Formatting loses nothing: dropping the spaces gives the text back, whatever its length. */
  lemma {:induction false} FormatKeepsText(s: string)
    requires ' ' !in s
    ensures WithoutSpaces(FormatFingerprint(s)) == s
    decreases |s|
  {
    if |s| <= GROUP {
      WithoutSpacesSolid(s);
    } else {
      var head, tail := s[..GROUP], s[GROUP..];
      var rest := FormatFingerprint(tail);
      FormatSplits(s);
      FormatKeepsText(tail);
      WithoutSpacesAppend(head + " ", rest);
      WithoutSpacesAppend(head, " ");
      WithoutSpacesSolid(head);
      OneSpace();
      assert s == head + tail;
    }
  }

  lemma {:induction false} GroupSizes(s: string, k: nat)
    requires |s| == GROUP * k
    ensures |Groups(s)| == k && forall i :: 0 <= i < k ==> Groups(s)[i] == s[GROUP * i..GROUP * i + GROUP]
    decreases k
  {
    if k > 1 {
      var t := s[GROUP..];
      GroupSizes(t, k - 1);
      forall i | 1 <= i < k
        ensures Groups(s)[i] == s[GROUP * i..GROUP * i + GROUP]
      {
        assert Groups(s)[i] == Groups(t)[i - 1] == t[GROUP * (i - 1)..GROUP * (i - 1) + GROUP];
      }
    }
  }

  // ---------------------------------------------------------------- the safety number

  /** The 64-bit value: the first 16 hex digits of the digest of the two keys in order. */
  function Value(f: Suite, mine: seq<byte>, theirs: seq<byte>): nat {
    HexValue(f.sha(Joined(mine, theirs))[..HEX_PREFIX])
  }

  function SafetyNumber(f: Suite, mine: seq<byte>, theirs: seq<byte>): string {
    FormatFingerprint(ZeroPad(Print(Value(f, mine, theirs)), DIGITS))
  }

  lemma JoinedIsSymmetric(a: seq<byte>, b: seq<byte>)
    ensures Joined(a, b) == Joined(b, a)
    ensures Before(a, b) ==> Joined(a, b) == a + b
  {
    BeforeIsTotal(a, b);
  }

  /** Both ends show the same number. */
  lemma Symmetric(f: Suite, a: seq<byte>, b: seq<byte>)
    ensures SafetyNumber(f, a, b) == SafetyNumber(f, b, a)
  {
    JoinedIsSymmetric(a, b);
  }

  lemma {:induction false} PrintedLength(n: nat, k: nat)
    requires 1 <= k && n < Pow(10, k)
    ensures |Print(n)| <= k
    decreases k
  {
    if k == 1 {
      assert Pow(10, 1) == 10 * Pow(10, 0);
    } else if n >= 10 {
      PrintedLength(n / 10, k - 1);
    }
  }

  lemma SixtyFourBits()
    ensures Pow(16, HEX_PREFIX) == 0x1_0000_0000_0000_0000 < Pow(10, DIGITS)
  {
    assert Pow(16, 4) == 0x1_0000 && Pow(16, 8) == 0x1_0000_0000 && Pow(16, 12) == 0x1_0000_0000_0000;
    assert Pow(10, 5) == 10_0000 && Pow(10, 10) == 100_0000_0000 && Pow(10, 15) == 1000_0000_0000_0000;
  }

  lemma Decimal(f: Suite, a: seq<byte>, b: seq<byte>) returns (s: string)
    ensures s == ZeroPad(Print(Value(f, a, b)), DIGITS)
    ensures |s| == DIGITS && IsDecimal(s) && Parse(s) == Value(f, a, b) < 0x1_0000_0000_0000_0000
  {
    var v := Value(f, a, b);
    s := ZeroPad(Print(v), DIGITS);
    HexBound(f.sha(Joined(a, b))[..HEX_PREFIX]);
    SixtyFourBits();
    PrintedLength(v, DIGITS);
    ZeroPadKeepsValue(Print(v), DIGITS);
    ParsePrint(v);
  }

  /** Five groups of four decimal digits; their value is a 64-bit number, whose sixteen hexadecimal
      digits are the first of the digest of the two keys in order. */
  lemma ShapeAndValue(f: Suite, a: seq<byte>, b: seq<byte>)
    ensures exists groups: seq<string> ::
              && |groups| == 5 && SafetyNumber(f, a, b) == JoinSpaced(groups)
              && forall i :: 0 <= i < 5 ==> |groups[i]| == 4 && IsDecimal(groups[i])
    ensures IsDecimal(WithoutSpaces(SafetyNumber(f, a, b)))
    ensures Parse(WithoutSpaces(SafetyNumber(f, a, b))) == Value(f, a, b) < 0x1_0000_0000_0000_0000
    ensures HexText(Parse(WithoutSpaces(SafetyNumber(f, a, b))), 16) == f.sha(Joined(a, b))[..16]
  {
    var s := Decimal(f, a, b);
    GroupSizes(s, 5);
    FormatKeepsText(s);
    HexRoundTrip(f.sha(Joined(a, b))[..HEX_PREFIX]);
    var groups := Groups(s);
    assert forall i :: 0 <= i < 5 ==> |groups[i]| == GROUP && IsDecimal(groups[i]);
  }

  /** Two pairs of keys show the same number exactly when the first 64 bits of their digests agree. */
  lemma SameNumberIff(f: Suite, a: seq<byte>, b: seq<byte>, c: seq<byte>, d: seq<byte>)
    ensures SafetyNumber(f, a, b) == SafetyNumber(f, c, d)
        <==> f.sha(Joined(a, b))[..16] == f.sha(Joined(c, d))[..16]
  {
    ShapeAndValue(f, a, b);
    ShapeAndValue(f, c, d);
    if SafetyNumber(f, a, b) == SafetyNumber(f, c, d) {
      HexRoundTrip(f.sha(Joined(a, b))[..HEX_PREFIX]);
      HexRoundTrip(f.sha(Joined(c, d))[..HEX_PREFIX]);
    }
  }
}
