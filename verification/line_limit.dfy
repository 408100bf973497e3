/** Which HAVE lines the client's reader accepts. */
module LineLimit {
  import opened Text
  import opened Sets
  import opened Frames

  /** The number of decimal digits, up to five. */
  lemma Digits(n: nat)
    ensures n < 10 ==> |Print(n)| == 1
    ensures 10 <= n < 100 ==> |Print(n)| == 2
    ensures 100 <= n < 1000 ==> |Print(n)| == 3
    ensures 1000 <= n < 10000 ==> |Print(n)| == 4
    ensures 10000 <= n < 100000 ==> |Print(n)| == 5
    ensures n >= 10000 ==> |Print(n)| >= 5
  {
    if n >= 10 {
      Digits(n / 10);
    }
  }

  lemma {:induction false} JoinSnoc(xs: seq<nat>, x: nat)
    requires |xs| > 0
    ensures |Join(xs + [x])| == |Join(xs)| + 1 + |Print(x)|
    decreases |xs|
  {
    var all := xs + [x];
    if |xs| == 1 {
      assert all[1..] == [x];
    } else {
      assert all[1..] == xs[1..] + [x];
      JoinSnoc(xs[1..], x);
    }
  }

  /** The printed length of 0, ..., n - 1, exactly up to 100000. */
  lemma {:induction false} UptoLength(n: nat)
    requires n > 0
    ensures n <= 10 ==> |Join(Upto(n))| == 2 * n - 1
    ensures 10 <= n <= 100 ==> |Join(Upto(n))| == 19 + 3 * (n - 10)
    ensures 100 <= n <= 1000 ==> |Join(Upto(n))| == 289 + 4 * (n - 100)
    ensures 1000 <= n <= 10000 ==> |Join(Upto(n))| == 3889 + 5 * (n - 1000)
    ensures 10000 <= n <= 100000 ==> |Join(Upto(n))| == 48889 + 6 * (n - 10000)
    ensures 10000 <= n ==> |Join(Upto(n))| >= 48889 + 6 * (n - 10000)
    decreases n
  {
    var last := n - 1;
    Digits(last);
    if last == 0 {
      assert Upto(n) == [0];
    } else {
      UptoLength(last);
      assert Upto(n) == Upto(last) + [last];
      JoinSnoc(Upto(last), last);
    }
  }

  lemma LineLength(full: string)
    ensures |"HAVE " + full + "\n"| == |full| + 6
    ensures Content("HAVE " + full + "\n") == |full| + 5
  {
  }

  /** The client can read a HAVE line exactly when it has at most 65537 characters. */
  lemma ReadableIff(indexes: set<nat>)
    ensures Readable(HaveLine(indexes)) <==> |HaveLine(indexes)| <= 65537
  {
    LineLength(Join(Sorted(indexes)));
  }

  lemma UptoFits(n: nat)
    ensures |Join(Upto(n))| + 5 <= LINE_LIMIT <==> n <= 12773
  {
    if n > 0 {
      UptoLength(n);
    }
  }

  /** Not every line the server prints is readable: the records 0, ..., n - 1 of an interrupted
      upload are, exactly when there are at most 12773 of them. */
  lemma PrefixReadableIff(n: nat)
    ensures Readable(HaveLine(Range(n))) <==> n <= 12773
  {
    SortedRange(n);
    LineLength(Join(Upto(n)));
    UptoFits(n);
  }

  lemma OneMoreJoined(xs: seq<nat>, x: nat)
    ensures |Join(xs + [x])| == |Print(x)| + if |xs| > 0 then |Join(xs)| + 1 else 0
  {
    if |xs| > 0 {
      JoinSnoc(xs, x);
    } else {
      assert xs + [x] == [x];
    }
  }

  lemma UptoSnoc(n: nat)
    requires n > 0
    ensures Upto(n) == Upto(n - 1) + [n - 1]
    ensures |Join(Upto(n))| == |Print(n - 1)| + if n > 1 then |Join(Upto(n - 1))| + 1 else 0
  {
    assert Upto(n) == Upto(n - 1) + [n - 1];
    OneMoreJoined(Upto(n - 1), n - 1);
  }

  /** Increasing numbers below n print no longer than all of them. */
  lemma {:induction false} FewerAreShorter(xs: seq<nat>, n: nat)
    requires Increasing(xs) && (|xs| > 0 ==> xs[|xs| - 1] < n)
    ensures |Join(xs)| <= |Join(Upto(n))|
    decreases n
  {
    if |xs| > 0 {
      var front, x := xs[..|xs| - 1], xs[|xs| - 1];
      UptoSnoc(n);
      if x == n - 1 {
        FewerAreShorter(front, n - 1);
        OneMoreJoined(front, x);
        assert xs == front + [x];
        assert |front| > 0 ==> n > 1;
      } else {
        FewerAreShorter(xs, n - 1);
      }
    }
  }

  /** No upload of so few chunks ever meets an unreadable line, whatever is recorded. */
  lemma BelowFits(indexes: set<nat>, n: nat)
    requires indexes <= Range(n) && n <= 12773
    ensures Readable(HaveLine(indexes))
  {
    var xs := Sorted(indexes);
    assert |xs| > 0 ==> xs[|xs| - 1] in indexes;
    FewerAreShorter(xs, n);
    LineLength(Join(xs));
    UptoFits(n);
  }
}
