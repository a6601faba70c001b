/**
 * `read_last_n_lines`: the snapshot of the last lines of the log, read
 * backwards from the end of the file in blocks so that a large file is
 * never loaded whole.
 *
 * The file is the string `content`; `f.seek(x)` followed by
 * `f.read(k)` is the slice `content[x..x + k]`.
 */
module TailRead {
  import opened Text

  /** Bytes read per step of the backward scan. */
  const BlockSize: nat := 1024

  /** Number of lines the endpoints ask for (the default argument `N=10`). */
  const DefaultN: nat := 10

  function Min(a: int, b: int): int
  {
    if a <= b then a else b
  }

  /** Python's `xs[-n:]` for any integer `n`. */
  function PyTailSlice<T>(xs: seq<T>, n: int): (r: seq<T>)
    ensures n >= 1 ==> r == Last(xs, n)
    ensures n == 0 ==> r == xs
  {
    if n > 0 then Last(xs, n)
    else if -n >= |xs| then []
    else xs[-n..]
  }

  /**
   * The snapshot a subscriber should see: the last `n` lines of the whole
   * file, in file order, joined by line feeds. This reads the whole file
   * and serves as the reference for the block-wise scan.
   */
  function Snapshot(content: string, n: nat): string
  {
    Join(Last(Lines(content), n))
  }

  /**
   * The backward block scan of `read_last_n_lines(content, n)`.
   *
   * For `n >= 1` it returns exactly the last `n` lines of the whole file,
   * although it only reads a block-aligned suffix. For `n == 0` Python's
   * `[-0:]` keeps every line of the single block read; for a negative
   * `n` the loop never runs and nothing is returned.
   */
  method ReadLastNLines(content: string, n: int) returns (r: string)
    ensures n >= 1 ==> r == Snapshot(content, n)
    ensures n >= 1 && |Lines(content)| <= n ==> r == Join(Lines(content))
    ensures n == 0 ==> r == Join(Lines(content[|content| - Min(BlockSize, |content|)..]))
    ensures n < 0 ==> r == []
  {
    var fileSize := |content|;
    var data: string := [];
    while |Lines(data)| <= n && fileSize > 0
      invariant 0 <= fileSize <= |content|
      invariant data == content[fileSize..]
      invariant n < 0 ==> fileSize == |content|
      invariant n == 0 && fileSize < |content| ==> fileSize == |content| - Min(BlockSize, |content|)
      decreases fileSize
    {
      var seekSize := Min(BlockSize, fileSize);
      fileSize := fileSize - seekSize;
      data := content[fileSize..fileSize + seekSize] + data;
    }
    if n >= 1 && fileSize > 0 {
      BlockSuffixHasLastLines(content[..fileSize], data, n);
      assert content == content[..fileSize] + data;
    }
    r := Join(PyTailSlice(Lines(data), n));
  }

  /**
   * Once a suffix `d` of the file holds more than `n` lines, its last `n`
   * lines are the last `n` lines of the whole file: the possibly cut first
   * line of `d` is never among them.
   */
  lemma BlockSuffixHasLastLines(p: string, d: string, n: nat)
    requires n >= 1 && |Lines(d)| > n
    ensures Last(Lines(p + d), n) == Last(Lines(d), n)
  {
    var ld := Lines(d);
    LinesOfSuffix(p, d);
    LastOfSuffix(ld[1..], Lines(p + d), n);
    LastOfSuffix(ld[1..], ld, n);
  }

  /** The snapshot never holds more than `n` lines. */
  lemma SnapshotBound(content: string, n: nat)
    ensures |Lines(Snapshot(content, n))| <= n
  {
    var xs := Last(Lines(content), n);
    JoinedLinesCount(xs);
  }

  /** Joining `k` line-feed-free pieces yields at most `k` lines. */
  lemma {:induction false} JoinedLinesCount(xs: seq<string>)
    requires forall i :: 0 <= i < |xs| ==> LF !in xs[i]
    ensures |Lines(Join(xs))| <= |xs|
  {
    if |xs| > 1 {
      JoinedLinesCount(xs[1..]);
      LinesAfterLF(xs[0], Join(xs[1..]));
    } else if |xs| == 1 {
      LinesOfLineFree(xs[0]);
    }
  }

  /** A text without line feeds is at most one line. */
  lemma {:induction false} LinesOfLineFree(s: string)
    requires LF !in s
    ensures |Lines(s)| <= 1
    decreases |s|
  {
    if s != [] {
      assert LF !in s[1..] by {
        forall k | 0 <= k < |s[1..]| ensures s[1..][k] != LF {
          assert s[1..][k] == s[k + 1];
        }
      }
      LinesOfLineFree(s[1..]);
    }
  }

  /** A line-feed-free text followed by a line feed and more text. */
  lemma {:induction false} LinesAfterLF(a: string, b: string)
    requires LF !in a
    ensures |Lines(a + [LF] + b)| <= 1 + |Lines(b)|
    decreases |a|
  {
    if a == [] {
      assert a + [LF] + b == [LF] + b;
      assert ([LF] + b)[1..] == b;
    } else {
      assert (a + [LF] + b)[1..] == a[1..] + [LF] + b;
      assert LF !in a[1..] by {
        forall k | 0 <= k < |a[1..]| ensures a[1..][k] != LF {
          assert a[1..][k] == a[k + 1];
        }
      }
      LinesAfterLF(a[1..], b);
    }
  }
}
