# Read extraction and k-mer counting

A Dafny model of the sequence-processing core of `solutions.py`:

- `extract_seqs` scans a FASTQ-style file line by line. It keeps the previous
  line and, whenever that line starts with `@cluster`, keeps the current line
  minus its last character as a read (module `ReadExtraction`, file
  `extract_seqs.dfy`).
- `count_k_mers` builds a frequency table from every k-length window of every
  read to the number of times it is visited (module `KmerCounting`, file
  `count_k_mers.dfy`).

Both are imperative in the source (a `while` loop over `prev_line`/`this_line`;
nested `for` loops mutating a dict), so each is a Dafny method with loops and
invariants, proved against a specification function:

- `ExtractSeqs` returns `Extracted(lines)`. The lemmas pin down `Extracted` independently:
  - read j is line `ReadIndices(lines)[j]` chopped;
  - `ReadIndices` is exactly the increasing list of positions whose predecessor is a header;
  - the read count is the number of such positions.
- `CountKMers` returns a map whose count for every string `w` equals
  `Occurrences(seqs, k, w)`, the number of visited (read, offset) pairs whose
  window is `w`. Its keys are exactly the visited windows. Its counts sum
  (`MapSum`) to `TotalWindows(seqs, k)`, which is the quantity the driver's
  assertion checks.

The file is modelled as the sequence of strings that successive `readline()`
calls return. Each of these is non-empty. `ReadLine` returns `""` past the
end, which is what ends the `while this_line` loop.

Four behaviours of the code are modelled as written:

- **Window bound.** A read of length `L >= k` has `L - k + 1` windows of
  length k, but the inner loop iterates `range(len(s) - k)` (solutions.py:47)
  and visits only `L - k` of them. So the docstring's frequency table "of each
  k-mer" (solutions.py:38) misses the read's last window, and a read of length
  exactly `k` contributes nothing. The driver's check (solutions.py:72-73)
  expects exactly `L - k` per read. `WindowCount` names this bound.
  `ExclusiveBoundExamples` shows its effect: `"AAAA"` with `k = 2` gives `"AA"`
  a count of 2, not 3.
- **Header marker.** The marker `"@cluster"` and the slice length 8 are
  hard-coded (solutions.py:28).
- **Terminator.** The comment at solutions.py:27 assumes the last character is
  `'\n'`, but `this_line[:-1]` (solutions.py:29) drops the last character
  whatever it is, so a final line without `'\n'` loses a real character.
  `Chop` models the code.
- **k = 0.** `count_k_mers` does not guard `k`. With `k = 0` every visited
  offset contributes the empty string, `len(s)` times per read; `CountKMers`
  accepts every `k >= 0` and does the same.

## Model

| member | source | states |
|---|---|---|
| `ReadExtraction.PrefixUpTo` | solutions.py:28 | Python's `prev_line[:8]` never fails: it has length `min(8, len(prev_line))` and is a prefix of the line |
| `ReadExtraction.ReadLine` | solutions.py:19-32 | the i-th `readline()` returns line i; past the end it returns `""`, and on a file of non-empty lines `""` comes back exactly at the end, which is what stops `while this_line` |
| `ReadExtraction.Extracted` | solutions.py:23-32 | the reads the scan yields; the first line has no predecessor, so a non-empty file yields fewer reads than it has lines, and an empty file none |
| `ReadExtraction.IsHeader` | solutions.py:28 | a line counts as a header exactly when it has at least 8 characters and its first 8 are `@cluster`; a shorter line is never a header and raises no error |
| `ReadExtraction.Chop` | solutions.py:29 | `line[:-1]` gives the line without its last character, whatever that character is, so the line is the result plus one character; the empty string stays empty |
| `ReadExtraction.ExtractSeqs` | solutions.py:12-34 | the read-ahead loop starts with `prev_line` empty and stops at the first empty `readline()`; it returns one read per line that follows a header, as many as there are such lines, read j being line `ReadIndices(lines)[j]` with its last character dropped (and equal to `Extracted(lines)`) |
| `ReadExtraction.ReadIndices` | solutions.py:20-31 | a position is the source of a read exactly when it is at least 1 and its predecessor is a header, so the first line is never emitted; the positions are strictly increasing, so reads keep file order |
| `ReadExtraction.ExtractedFollowsHeaders` | solutions.py:23-32 | there is one read per entry of `ReadIndices`, and read j is line `ReadIndices[j]` with its last character dropped |
| `ReadExtraction.ReadLengths` | solutions.py:29 | every read is exactly one character shorter than the line it came from |
| `ReadExtraction.ExtractCount` | solutions.py:23-32 | the number of reads equals the number of positions i >= 1 whose predecessor line is a header |
| `ReadExtraction.NoHeaderNoReads` | solutions.py:15-34 | the result is empty if and only if no line except possibly the last is a header |
| `ReadExtraction.ExtractedPrefix` | solutions.py:23-32 | the reads from a prefix of the file are a prefix of the reads from the whole file: a later header's read never precedes an earlier one |
| `ReadExtraction.ExtractExample` | solutions.py:28-29 | the lines `@cluster_1\n`, `ACGT\n` yield the single read `ACGT` |
| `KmerCounting.WindowCount` | solutions.py:45-47 | the number of offsets visited in one read: every visited window lies inside the read; for `k <= len(s)` the loop stops at offset `len(s) - k`, the start of the last window, which is never visited; a read of length `<= k` visits none |
| `KmerCounting.OccIn` | solutions.py:47-52 | the number of the first n visited offsets of one read whose window is w, the per-read count the inner loop accumulates; it never exceeds n |
| `KmerCounting.Occurrences` | solutions.py:42-52 | the number of visited (read, offset) pairs whose window is w; no string occurs more often than there are windows visited |
| `KmerCounting.TotalWindowsZero` | solutions.py:42-47 | `TotalWindows`, the number of windows visited over all reads, is zero exactly when no read is longer than k |
| `KmerCounting.MapSum` | solutions.py:76-78 | the driver's sum of all counts, 0 for an empty table |
| `KmerCounting.MapSumBound` | solutions.py:76-78 | no single count exceeds the sum of all counts |
| `KmerCounting.NextRead` | solutions.py:42-52 | one step of the outer loop: once every visited window of read j is counted, the table counts exactly the windows of the first j + 1 reads, all counts positive, summing to their number |
| `KmerCounting.Window` | solutions.py:48 | the window `s[i:i+k]` has length k |
| `KmerCounting.CountKMers` | solutions.py:37-54 | for every k >= 0, keys are exactly the visited windows, each of length k with count >= 1; every string's count is its number of visited (read, offset) pairs; the counts sum to `TotalWindows`; reads all of length <= k (in particular no reads) give an empty table |
| `KmerCounting.TableKeys` | solutions.py:45-52 | a table with positive counts equal to the occurrence counts has as keys exactly the visited windows, all of length k; it is empty when no read is longer than k |
| `KmerCounting.OccInPositive` | solutions.py:47-48 | within one read, the count of w over the first n offsets is positive exactly when one of those offsets has window w |
| `KmerCounting.OccurrencesPositive` | solutions.py:45-52 | w has a positive count exactly when it is the window at some visited offset of some read, and then it has length k |
| `KmerCounting.MapSumRemove` | solutions.py:76-78 | the sum of a table's counts does not depend on the order its keys are visited in |
| `KmerCounting.Counted` | solutions.py:48-52 | one insert-or-increment of the window at offset i keeps the table's counts equal to the windows visited, including that window, with every count positive and the counts summing to the number of windows visited |
| `KmerCounting.MapSumUpdate` | solutions.py:49-52 | inserting with count 1 or incrementing an existing count raises the sum of counts by exactly one |
| `KmerCounting.ShortReadsContributeNothing` | solutions.py:45-47 | dropping every read of length <= k changes neither any count nor the total: shorter reads fail the guard and reads of length exactly k get an empty range |
| `KmerCounting.EqualLengthTotal` | solutions.py:68-80 | when all reads have the same length L >= k, the total number of visited windows is `len(seqs) * (L - k)`, which is the driver's assertion together with `CountKMers` |
| `KmerCounting.ExclusiveBoundExamples` | solutions.py:47 | with the code's bound, `"AAAA"` and k = 2 gives `"AA"` a count of 2 out of 2 windows, a read of length exactly k adds no count, and k = 0 counts `""` once per character |

## Left out

- File opening and `readline` (solutions.py:17, 19, 32) are I/O. The file is a
  sequence of non-empty lines, and a missing file is not modelled.
- The SQLite layer (`create_connection`, `create_table`, `create_kmer_table`,
  `enter_kmer`, `fill_kmer_table`, solutions.py:87-160) wraps an external
  database driver. It only consumes the table.
- The drivers `problem1a`, `problem1b` and `main` (solutions.py:57-81, 162-181)
  hard-code file names and `k = 21`, print, and call the database. Only the
  arithmetic of the sum check in `problem1a` is kept, as `EqualLengthTotal`
  together with the `MapSum` postcondition of `CountKMers`.
- Approximate (Hamming-distance) matching does not appear in solutions.py, so
  there is no code to model it against.
- `EqualLengthTotal`: requires `k <= L`. For `k > L` the driver's expected value
  `len(seqs) * (L - k)` is negative, so its assertion fails whenever there are
  reads.
- `CountKMers`: k is a `nat`. A negative k, which solutions.py:45-48 would
  accept (the guard always passes, `range(len(s) - k)` runs past the read's
  end and `s[i:i+k]` slices from the end), is not modelled; the drivers only
  pass k = 21.
- Python's dict iteration order and hashing are not modelled: the table is a
  Dafny `map`, and its sum (`MapSum`) is order-independent.
