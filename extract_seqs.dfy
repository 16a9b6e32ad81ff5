/**
 * Extraction of reads from a FASTQ-style file (`extract_seqs` in solutions.py).
 *
 * The file is given as the sequence of strings that successive `readline()`
 * calls return: each is non-empty and normally ends in '\n' (the last one may
 * not). Opening the file is not modelled.
 */
module ReadExtraction {

  /** The header marker that precedes every sequence line. */
  const Marker: string := "@cluster"

  /** Python's `s[:n]` for n >= 0: the first n characters, or all of s when it is shorter. */
  function PrefixUpTo(s: string, n: nat): (r: string)
    ensures |r| == if |s| < n then |s| else n
    ensures r <= s
  {
    if |s| < n then s else s[..n]
  }

  /** `line[:8] == "@cluster"`: total, so a line shorter than the marker is simply not a header. */
  function IsHeader(line: string): (b: bool)
    ensures b <==> |Marker| <= |line| && line[..|Marker|] == Marker
    ensures |line| < |Marker| ==> !b
  {
    PrefixUpTo(line, 8) == Marker
  }

  /** Python's `line[:-1]`: everything but the last character ("" stays ""). */
  function Chop(line: string): (r: string)
    ensures line != "" ==> line == r + [line[|line| - 1]]
    ensures line == "" ==> r == ""
  {
    if line == "" then "" else line[..|line| - 1]
  }

  /** What the i-th call of `readline()` returns: the i-th line, and "" once the file is exhausted. */
  function ReadLine(lines: seq<string>, i: nat): (r: string)
    ensures i >= |lines| ==> r == ""
    ensures r != "" ==> i < |lines| && r == lines[i]
    ensures (forall j :: 0 <= j < |lines| ==> lines[j] != "") ==> (r == "" <==> i >= |lines|)
  {
    if i < |lines| then lines[i] else ""
  }

  /**
   * The reads the scan produces from `lines`: every line whose predecessor is a
   * header, with its last character chopped off, in file order. The first line
   * has no predecessor, so there are fewer reads than lines.
   */
  function Extracted(lines: seq<string>): (r: seq<string>)
    ensures |lines| > 0 ==> |r| < |lines|
    ensures |lines| == 0 ==> r == []
  {
    if |lines| < 2 then []
    else
      Extracted(lines[..|lines| - 1])
      + (if IsHeader(lines[|lines| - 2]) then [Chop(lines[|lines| - 1])] else [])
  }

  /** The positions of the lines that follow a header, in increasing order. */
  function ReadIndices(lines: seq<string>): (ix: seq<nat>)
    ensures forall i :: i in ix ==> 1 <= i < |lines| && IsHeader(lines[i - 1])
    ensures forall h :: 0 <= h < |lines| - 1 && IsHeader(lines[h]) ==> h + 1 in ix
    ensures forall a, b :: 0 <= a < b < |ix| ==> ix[a] < ix[b]
  {
    if |lines| < 2 then []
    else
      var prev := ReadIndices(lines[..|lines| - 1]);
      assert forall a :: 0 <= a < |prev| ==> prev[a] in prev;
      prev + (if IsHeader(lines[|lines| - 2]) then [|lines| - 1] else [])
  }

  /** Line i follows a header line. */
  predicate FollowsHeader(lines: seq<string>, i: nat)
  {
    1 <= i < |lines| && IsHeader(lines[i - 1])
  }

  /** The set of positions whose predecessor line is a header. */
  ghost function HeaderFollowers(lines: seq<string>): set<nat>
  {
    set i: nat | i < |lines| && FollowsHeader(lines, i)
  }

  /**
   * The loop of `extract_seqs`: `prevLine` starts as "", `thisLine` is read
   * ahead, and the scan stops at the first empty `readline()` result.
   */
  method ExtractSeqs(lines: seq<string>) returns (allSeqs: seq<string>)
    requires forall i :: 0 <= i < |lines| ==> lines[i] != ""
    ensures allSeqs == Extracted(lines)
    ensures |allSeqs| == |ReadIndices(lines)| == |HeaderFollowers(lines)|
    ensures forall j :: 0 <= j < |allSeqs| ==>
      ReadIndices(lines)[j] < |lines| && allSeqs[j] == Chop(lines[ReadIndices(lines)[j]])
  {
    allSeqs := [];
    var thisLine := ReadLine(lines, 0);
    var next := 1;
    var prevLine := "";
    while thisLine != ""
      invariant 1 <= next <= |lines| + 1
      invariant thisLine == ReadLine(lines, next - 1)
      invariant prevLine == if next == 1 then "" else lines[next - 2]
      invariant allSeqs == Extracted(lines[..next - 1])
      decreases |lines| + 1 - next
    {
      assert lines[..next][..next - 1] == lines[..next - 1];
      if PrefixUpTo(prevLine, 8) == Marker {
        allSeqs := allSeqs + [Chop(thisLine)];
      }
      prevLine := thisLine;
      thisLine := ReadLine(lines, next);
      next := next + 1;
    }
    assert lines[..next - 1] == lines;
    ExtractedFollowsHeaders(lines);
    ExtractCount(lines);
  }

  /** Output j is the line at ReadIndices(lines)[j], chopped: one read per header, in file order. */
  lemma {:induction false} ExtractedFollowsHeaders(lines: seq<string>)
    ensures |Extracted(lines)| == |ReadIndices(lines)|
    ensures forall j :: 0 <= j < |Extracted(lines)| ==>
      ReadIndices(lines)[j] < |lines| && Extracted(lines)[j] == Chop(lines[ReadIndices(lines)[j]])
  {
    if |lines| >= 2 {
      var init := lines[..|lines| - 1];
      ExtractedFollowsHeaders(init);
      forall j | 0 <= j < |Extracted(init)|
        ensures ReadIndices(init)[j] < |init| && Extracted(lines)[j] == Chop(lines[ReadIndices(lines)[j]])
      {
        assert ReadIndices(init)[j] in ReadIndices(init);
      }
    }
  }

  /** Each read is exactly one character shorter than the line it came from. */
  lemma ReadLengths(lines: seq<string>)
    requires forall i :: 0 <= i < |lines| ==> lines[i] != ""
    ensures |Extracted(lines)| == |ReadIndices(lines)|
    ensures forall j :: 0 <= j < |Extracted(lines)| ==>
      ReadIndices(lines)[j] < |lines| && |Extracted(lines)[j]| + 1 == |lines[ReadIndices(lines)[j]]|
  {
    ExtractedFollowsHeaders(lines);
    forall j | 0 <= j < |Extracted(lines)|
      ensures |Extracted(lines)[j]| + 1 == |lines[ReadIndices(lines)[j]]|
    {
      var line := lines[ReadIndices(lines)[j]];
      assert line == Chop(line) + [line[|line| - 1]];
    }
  }

  /** The number of reads is the number of positions i >= 1 whose predecessor is a header. */
  lemma {:induction false} ExtractCount(lines: seq<string>)
    ensures |Extracted(lines)| == |HeaderFollowers(lines)|
  {
    if |lines| < 2 {
      assert HeaderFollowers(lines) == {};
    } else {
      var n := |lines|;
      var init := lines[..n - 1];
      ExtractCount(init);
      var added: set<nat> := if IsHeader(lines[n - 2]) then {n - 1} else {};
      forall i: nat
        ensures i in HeaderFollowers(lines) <==> i in HeaderFollowers(init) + added
      {
        if i < n - 1 {
          assert FollowsHeader(lines, i) <==> FollowsHeader(init, i);
        }
      }
      assert HeaderFollowers(lines) == HeaderFollowers(init) + added;
      assert n - 1 !in HeaderFollowers(init);
    }
  }

  /** The scan yields nothing exactly when no line but the last is a header. */
  lemma NoHeaderNoReads(lines: seq<string>)
    ensures Extracted(lines) == [] <==> forall h :: 0 <= h < |lines| - 1 ==> !IsHeader(lines[h])
  {
    ExtractedFollowsHeaders(lines);
    var ix := ReadIndices(lines);
    if ix != [] {
      assert ix[0] in ix;
      assert IsHeader(lines[ix[0] - 1]);
    }
  }

  /** Reading more lines only appends reads: the reads of a prefix of the file come first. */
  lemma {:induction false} ExtractedPrefix(lines: seq<string>, n: nat)
    requires n <= |lines|
    ensures Extracted(lines[..n]) <= Extracted(lines)
    decreases |lines|
  {
    if n < |lines| {
      var init := lines[..|lines| - 1];
      ExtractedPrefix(init, n);
      assert init[..n] == lines[..n];
    } else {
      assert lines[..n] == lines;
    }
  }

  /** A header followed by its sequence line yields that line without its newline. */
  lemma ExtractExample()
    ensures Extracted(["@cluster_1\n", "ACGT\n"]) == ["ACGT"]
  {
    var lines := ["@cluster_1\n", "ACGT\n"];
    assert lines[..1] == ["@cluster_1\n"];
    assert lines[0][..8] == Marker;
    assert IsHeader(lines[0]);
    assert Chop(lines[1]) == "ACGT";
  }
}
