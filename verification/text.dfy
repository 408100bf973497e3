/** Lines of text: decimal printing, padding, stripping and splitting, as Python's str does them. */
module Text {

  datatype Option<+T> = None | Some(value: T) {
    function GetOr(default: T): T {
      if Some? then value else default
    }
  }

  function DigitChar(d: nat): char
    requires d < 10
  {
    ('0' as int + d) as char
  }

  predicate IsDigit(c: char) {
    '0' <= c <= '9'
  }

  function DigitValue(c: char): (d: nat)
    requires IsDigit(c)
  {
    c as int - '0' as int
  }

  predicate IsDecimal(s: string) {
    |s| > 0 && forall i :: 0 <= i < |s| ==> IsDigit(s[i])
  }

  /** str(n) for a non-negative integer. */
  function Print(n: nat): (s: string)
    ensures IsDecimal(s)
  {
    if n < 10 then [DigitChar(n)] else Print(n / 10) + [DigitChar(n % 10)]
  }

  /** int(s) for a string of decimal digits; the empty string reads as 0. */
  function Parse(s: string): nat
    requires forall i :: 0 <= i < |s| ==> IsDigit(s[i])
  {
    if |s| == 0 then 0 else Parse(s[..|s| - 1]) * 10 + DigitValue(s[|s| - 1])
  }

  lemma {:induction false} ParsePrint(n: nat)
    ensures Parse(Print(n)) == n
    ensures n < 10 ==> Print(n) == ["0123456789"[n]]
  {
    var s := Print(n);
    if n < 10 {
      assert s[..|s| - 1] == [];
    } else {
      ParsePrint(n / 10);
      assert s[..|s| - 1] == Print(n / 10);
    }
  }

  /** Cutting digits off the end of a printed number always makes it smaller. */
  lemma {:induction false} PrefixIsSmaller(n: nat, p: string)
    requires IsDecimal(p) && p <= Print(n) && p != Print(n)
    ensures Parse(p) < n
  {
    var s := Print(n);
    if n >= 10 {
      assert s[..|s| - 1] == Print(n / 10);
      if p == Print(n / 10) {
        ParsePrint(n / 10);
      } else {
        PrefixIsSmaller(n / 10, p);
      }
    }
  }

  /** str.zfill and the format spec `0Nd`: zeros on the left up to `width` characters. */
  function ZeroPad(s: string, width: nat): (r: string)
    ensures |r| == if |s| < width then width else |s|
    decreases width - |s|
  {
    if |s| < width then ZeroPad("0" + s, width) else s
  }

  lemma {:induction false} LeadingZero(s: string)
    requires IsDecimal(s)
    ensures IsDecimal("0" + s) && Parse("0" + s) == Parse(s)
  {
    var z := "0" + s;
    assert forall i :: 0 <= i < |z| ==> IsDigit(z[i]);
    if |s| == 1 {
      assert z[..1] == "0";
      assert s[..0] == "";
      assert Parse("0") == 0;
    } else {
      assert z[..|z| - 1] == "0" + s[..|s| - 1];
      LeadingZero(s[..|s| - 1]);
    }
  }

  lemma {:induction false} ZeroPadKeepsValue(s: string, width: nat)
    requires IsDecimal(s)
    ensures IsDecimal(ZeroPad(s, width))
    ensures Parse(ZeroPad(s, width)) == Parse(s)
    decreases width - |s|
  {
    if |s| < width {
      LeadingZero(s);
      ZeroPadKeepsValue("0" + s, width);
    }
  }

  /** ASCII white space, as str.strip() has it. */
  predicate IsSpace(c: char) {
    c == ' ' || 9 <= c as int <= 13 || 28 <= c as int <= 31
  }

  function LStrip(s: string): string {
    if |s| > 0 && IsSpace(s[0]) then LStrip(s[1..]) else s
  }

  function RStrip(s: string): string {
    if |s| > 0 && IsSpace(s[|s| - 1]) then RStrip(s[..|s| - 1]) else s
  }

  /** s.strip() */
  function Strip(s: string): string {
    LStrip(RStrip(s))
  }

  /** s.rstrip("\n") */
  function DropNewlines(s: string): string {
    if |s| > 0 && s[|s| - 1] == '\n' then DropNewlines(s[..|s| - 1]) else s
  }

  lemma StripSolid(s: string)
    requires forall i :: 0 <= i < |s| ==> !IsSpace(s[i])
    ensures Strip(s) == s
  {
  }

  /** s.split(sep) */
  function SplitOn(s: string, sep: char): (parts: seq<string>)
    ensures |parts| > 0
  {
    if |s| == 0 then [""]
    else
      var rest := SplitOn(s[1..], sep);
      if s[0] == sep then [""] + rest else [[s[0]] + rest[0]] + rest[1..]
  }

  lemma {:induction false} SplitAfter(a: string, sep: char, b: string)
    requires sep !in a
    ensures SplitOn(a + [sep] + b, sep) == [a] + SplitOn(b, sep)
  {
    var s := a + [sep] + b;
    if a == "" {
      assert s[1..] == b;
    } else {
      SplitAfter(a[1..], sep, b);
      assert s[1..] == a[1..] + [sep] + b;
      assert [s[0]] + a[1..] == a;
    }
  }

  lemma {:induction false} SplitNone(a: string, sep: char)
    requires sep !in a
    ensures SplitOn(a, sep) == [a]
  {
    if a != "" {
      SplitNone(a[1..], sep);
      assert [a[0]] + a[1..] == a;
    }
  }
}
