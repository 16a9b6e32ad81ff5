/**
 * The k-mer frequency table (`count_k_mers` in solutions.py) and the sum
 * check its driver asserts.
 *
 * The loop bound is the one the code uses: `range(len(s) - k)`, so a read of
 * length L >= k contributes L - k windows and its last window is never counted.
 */
module KmerCounting {

  /**
   * The number of start offsets the inner loop visits for read s: `len(s) - k`
   * once `k <= len(s)`. Every visited window lies inside the read, and the loop
   * stops exactly at offset `len(s) - k`, the start of the read's last window,
   * which is therefore never visited.
   */
  function WindowCount(s: string, k: nat): (r: nat)
    ensures r == 0 || r + k <= |s|
    ensures k <= |s| ==> r + k == |s|
    ensures |s| <= k ==> r == 0
  {
    if k <= |s| then |s| - k else 0
  }

  /** The window of length k starting at offset i: `s[i:i+k]`. */
  function Window(s: string, k: nat, i: nat): (w: string)
    requires i + k <= |s|
    ensures |w| == k
  {
    s[i..i + k]
  }

  /** The number of offsets i < n of read s whose window equals w. */
  function OccIn(s: string, k: nat, w: string, n: nat): (r: nat)
    requires n <= WindowCount(s, k)
    ensures r <= n
  {
    if n == 0 then 0
    else OccIn(s, k, w, n - 1) + (if Window(s, k, n - 1) == w then 1 else 0)
  }

  /**
   * The number of (read, offset) pairs the loops visit whose window equals w;
   * no string occurs more often than there are windows visited.
   */
  function Occurrences(seqs: seq<string>, k: nat, w: string): (r: nat)
    ensures r <= TotalWindows(seqs, k)
  {
    if seqs == [] then 0
    else
      var s := seqs[|seqs| - 1];
      Occurrences(seqs[..|seqs| - 1], k, w) + OccIn(s, k, w, WindowCount(s, k))
  }

  /** The number of windows the loops visit over all reads. */
  function TotalWindows(seqs: seq<string>, k: nat): nat
  {
    if seqs == [] then 0
    else TotalWindows(seqs[..|seqs| - 1], k) + WindowCount(seqs[|seqs| - 1], k)
  }

  /** w is the window at some offset the loops visit in some read. */
  ghost predicate IsWindowOf(seqs: seq<string>, k: nat, w: string)
  {
    exists j, i :: 0 <= j < |seqs| && 0 <= i < WindowCount(seqs[j], k) && Window(seqs[j], k, i) == w
  }

  /** The count a table gives to w, 0 when w is absent. */
  function Freq(m: map<string, nat>, w: string): nat
  {
    if w in m then m[w] else 0
  }

  /** The sum of all counts in a table, the total the driver computes by iterating over its keys. */
  ghost function MapSum(m: map<string, nat>): (r: nat)
    ensures m == map[] ==> r == 0
    decreases m.Keys
  {
    if m.Keys == {} then 0
    else
      var w :| w in m.Keys;
      m[w] + MapSum(m - {w})
  }

  /** The sum does not depend on which key is taken out first. */
  lemma {:induction false} MapSumRemove(m: map<string, nat>, x: string)
    requires x in m
    ensures MapSum(m) == m[x] + MapSum(m - {x})
    decreases m.Keys
  {
    var w :| w in m.Keys && MapSum(m) == m[w] + MapSum(m - {w});
    if w != x {
      MapSumRemove(m - {w}, x);
      MapSumRemove(m - {x}, w);
      assert m - {w} - {x} == m - {x} - {w};
    }
  }

  /** No single count exceeds the sum of all counts. */
  lemma MapSumBound(m: map<string, nat>, x: string)
    requires x in m
    ensures m[x] <= MapSum(m)
  {
    MapSumRemove(m, x);
  }

  /** Setting the count of x to v changes the sum by v minus the old count of x. */
  lemma MapSumUpdate(m: map<string, nat>, x: string, v: nat)
    ensures MapSum(m[x := v]) + Freq(m, x) == MapSum(m) + v
  {
    MapSumRemove(m[x := v], x);
    if x in m {
      MapSumRemove(m, x);
      assert m[x := v] - {x} == m - {x};
    } else {
      assert m[x := v] - {x} == m;
    }
  }

  /**
   * The nested loops of `count_k_mers`: for every read with `k <= len(s)` and
   * every offset in `range(len(s) - k)`, insert the window with count 1 or
   * increment its count.
   */
  method CountKMers(seqs: seq<string>, k: nat) returns (freqs: map<string, nat>)
    ensures forall w :: w in freqs <==> IsWindowOf(seqs, k, w)
    ensures forall w :: w in freqs ==> |w| == k && freqs[w] >= 1
    ensures forall w :: Freq(freqs, w) == Occurrences(seqs, k, w)
    ensures MapSum(freqs) == TotalWindows(seqs, k)
    ensures (forall j :: 0 <= j < |seqs| ==> |seqs[j]| <= k) ==> freqs == map[]
  {
    freqs := map[];
    for j := 0 to |seqs|
      invariant Counts(freqs, seqs[..j], k)
    {
      var s := seqs[j];
      ghost var done := seqs[..j];
      if k <= |s| {
        for i := 0 to |s| - k
          invariant Tallies(freqs, done, k, s, i)
        {
          var kMer := s[i..i + k];
          ghost var before := freqs;
          if kMer in freqs {
            freqs := freqs[kMer := freqs[kMer] + 1];
          } else {
            freqs := freqs[kMer := 1];
          }
          Counted(before, done, k, s, i, freqs);
        }
      }
      NextRead(freqs, seqs, k, j);
    }
    assert seqs[..|seqs|] == seqs;
    TableKeys(seqs, k, freqs);
  }

  /**
   * The outer loop's invariant: the table counts, for every string, its
   * windows in the reads done; all counts are positive; they sum to the
   * number of windows in the reads done.
   */
  ghost predicate Counts(freqs: map<string, nat>, done: seq<string>, k: nat)
  {
    && (forall w :: Freq(freqs, w) == Occurrences(done, k, w))
    && (forall w :: w in freqs ==> freqs[w] >= 1)
    && MapSum(freqs) == TotalWindows(done, k)
  }

  /**
   * The inner loop's invariant: the table counts, for every string, its
   * windows in the reads done plus the first i windows of read s; all counts
   * are positive; they sum to the number of windows visited so far.
   */
  ghost predicate Tallies(freqs: map<string, nat>, done: seq<string>, k: nat, s: string, i: nat)
    requires i <= WindowCount(s, k)
  {
    && (forall w :: Freq(freqs, w) == Occurrences(done, k, w) + OccIn(s, k, w, i))
    && (forall w :: w in freqs ==> freqs[w] >= 1)
    && MapSum(freqs) == TotalWindows(done, k) + i
  }

  /** The inner loop's step: insert-or-increment of the window at offset i counts that window. */
  lemma Counted(before: map<string, nat>, done: seq<string>, k: nat, s: string, i: nat, after: map<string, nat>)
    requires i < WindowCount(s, k)
    requires Tallies(before, done, k, s, i)
    requires var x := Window(s, k, i); after == if x in before then before[x := before[x] + 1] else before[x := 1]
    ensures Tallies(after, done, k, s, i + 1)
  {
    var x := Window(s, k, i);
    MapSumUpdate(before, x, Freq(before, x) + 1);
    forall w ensures Freq(after, w) == Occurrences(done, k, w) + OccIn(s, k, w, i + 1) {
      assert Freq(before, w) == Occurrences(done, k, w) + OccIn(s, k, w, i);
    }
  }

  /** The outer loop's step: once every window of read j is counted, the table counts the first j + 1 reads. */
  lemma NextRead(freqs: map<string, nat>, seqs: seq<string>, k: nat, j: nat)
    requires j < |seqs|
    requires Tallies(freqs, seqs[..j], k, seqs[j], WindowCount(seqs[j], k))
    ensures Counts(freqs, seqs[..j + 1], k)
  {
    assert seqs[..j + 1][..j] == seqs[..j];
    forall w ensures Freq(freqs, w) == Occurrences(seqs[..j + 1], k, w) {
      assert Freq(freqs, w) == Occurrences(seqs[..j], k, w) + OccIn(seqs[j], k, w, WindowCount(seqs[j], k));
    }
  }

  /** A table whose counts are the occurrence counts holds exactly the visited windows, and none when no read is longer than k. */
  lemma TableKeys(seqs: seq<string>, k: nat, freqs: map<string, nat>)
    requires forall w :: Freq(freqs, w) == Occurrences(seqs, k, w)
    requires forall w :: w in freqs ==> freqs[w] >= 1
    ensures forall w :: w in freqs <==> IsWindowOf(seqs, k, w)
    ensures forall w :: w in freqs ==> |w| == k
    ensures (forall j :: 0 <= j < |seqs| ==> |seqs[j]| <= k) ==> freqs == map[]
  {
    forall w
      ensures w in freqs <==> IsWindowOf(seqs, k, w)
      ensures w in freqs ==> |w| == k
    {
      OccurrencesPositive(seqs, k, w);
      assert Freq(freqs, w) == Occurrences(seqs, k, w);
    }
    if forall j :: 0 <= j < |seqs| ==> |seqs[j]| <= k {
      assert forall j :: 0 <= j < |seqs| ==> WindowCount(seqs[j], k) == 0;
      assert freqs.Keys == {};
    }
  }

  /** Within one read: some offset below n has window w exactly when the count below n is positive. */
  lemma {:induction false} OccInPositive(s: string, k: nat, w: string, n: nat)
    requires n <= WindowCount(s, k)
    ensures OccIn(s, k, w, n) > 0 <==> exists i :: 0 <= i < n && Window(s, k, i) == w
  {
    if n > 0 {
      OccInPositive(s, k, w, n - 1);
    }
  }

  /** w is counted at all exactly when it is the window at some visited offset of some read; then |w| == k. */
  lemma {:induction false} OccurrencesPositive(seqs: seq<string>, k: nat, w: string)
    ensures Occurrences(seqs, k, w) > 0 <==> IsWindowOf(seqs, k, w)
    ensures Occurrences(seqs, k, w) > 0 ==> |w| == k
  {
    if seqs != [] {
      var init := seqs[..|seqs| - 1];
      var s := seqs[|seqs| - 1];
      OccurrencesPositive(init, k, w);
      OccInPositive(s, k, w, WindowCount(s, k));
      if Occurrences(seqs, k, w) > 0 {
        if Occurrences(init, k, w) > 0 {
          var j, i :| 0 <= j < |init| && 0 <= i < WindowCount(init[j], k) && Window(init[j], k, i) == w;
          assert seqs[j] == init[j];
        } else {
          var i :| 0 <= i < WindowCount(s, k) && Window(s, k, i) == w;
          assert seqs[|seqs| - 1] == s;
        }
      }
      if IsWindowOf(seqs, k, w) {
        var j, i :| 0 <= j < |seqs| && 0 <= i < WindowCount(seqs[j], k) && Window(seqs[j], k, i) == w;
        if j < |init| {
          assert init[j] == seqs[j];
        }
      }
    }
  }

  /** No window is visited exactly when no read is longer than k. */
  lemma {:induction false} TotalWindowsZero(seqs: seq<string>, k: nat)
    ensures TotalWindows(seqs, k) == 0 <==> forall j :: 0 <= j < |seqs| ==> |seqs[j]| <= k
  {
    if seqs != [] {
      var init := seqs[..|seqs| - 1];
      TotalWindowsZero(init, k);
      assert forall j :: 0 <= j < |init| ==> init[j] == seqs[j];
    }
  }

  /** The reads the window loop actually visits: those longer than k. */
  function LongReads(seqs: seq<string>, k: nat): seq<string>
  {
    if seqs == [] then []
    else
      var s := seqs[|seqs| - 1];
      LongReads(seqs[..|seqs| - 1], k) + (if |s| > k then [s] else [])
  }

  /**
   * Reads of length at most k contribute neither counts nor windows: a read
   * shorter than k fails the guard, and one of length exactly k gets `range(0)`.
   */
  lemma {:induction false} ShortReadsContributeNothing(seqs: seq<string>, k: nat, w: string)
    ensures Occurrences(LongReads(seqs, k), k, w) == Occurrences(seqs, k, w)
    ensures TotalWindows(LongReads(seqs, k), k) == TotalWindows(seqs, k)
  {
    if seqs != [] {
      var init := seqs[..|seqs| - 1];
      var s := seqs[|seqs| - 1];
      ShortReadsContributeNothing(init, k, w);
      assert Occurrences(seqs, k, w) == Occurrences(init, k, w) + OccIn(s, k, w, WindowCount(s, k));
      assert TotalWindows(seqs, k) == TotalWindows(init, k) + WindowCount(s, k);
      if |s| > k {
        var longs := LongReads(init, k) + [s];
        assert LongReads(seqs, k) == longs;
        assert longs[..|longs| - 1] == LongReads(init, k);
      } else {
        assert LongReads(seqs, k) == LongReads(init, k);
        assert WindowCount(s, k) == 0;
      }
    }
  }

  /**
   * The driver's check: when every read has the same length L >= k, the counts
   * sum to `len(seqs) * (L - k)`.
   */
  lemma {:induction false} EqualLengthTotal(seqs: seq<string>, k: nat, len: nat)
    requires k <= len
    requires forall j :: 0 <= j < |seqs| ==> |seqs[j]| == len
    ensures TotalWindows(seqs, k) == |seqs| * (len - k)
  {
    if seqs != [] {
      var init := seqs[..|seqs| - 1];
      EqualLengthTotal(init, k, len);
      assert TotalWindows(seqs, k) == |init| * (len - k) + (len - k);
      assert |seqs| * (len - k) == |init| * (len - k) + 1 * (len - k);
    }
  }

  /**
   * With the code's bound, "AAAA" with k = 2 gives "AA" a count of 2 (offsets
   * 0 and 1; offset 2 is never visited), and a read of length exactly k is not
   * counted at all. With k = 0, which the code does not guard, the empty string
   * is counted once per character.
   */
  lemma ExclusiveBoundExamples()
    ensures Occurrences(["AAAA"], 2, "AA") == 2
    ensures TotalWindows(["AAAA"], 2) == 2
    ensures Occurrences(["ACGT"], 4, "ACGT") == 0
    ensures Occurrences(["AB"], 0, "") == 2
  {
    assert Window("AAAA", 2, 0) == "AA";
    assert Window("AAAA", 2, 1) == "AA";
  }
}
