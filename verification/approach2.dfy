/**
 * Approach 2, polling per client: each client gets the snapshot of the last
 * ten lines, then polls the file from its own offset and is sent whatever
 * was appended, stripped.
 *
 * `contents` lists the states of the file at the client's successive polls;
 * the snapshot is taken from the first of them.
 */
module PollingPerClient {
  import opened Text
  import opened Wrappers
  import opened TailRead
  import opened DeltaRead
  import opened EventStream

  /** The payloads one client is sent when its offset starts at `start`. */
  function Payloads(contents: seq<string>, start: nat): (r: seq<string>)
    requires contents != []
    ensures |r| >= 1
  {
    [Snapshot(contents[0], DefaultN)] + Emitted(contents, start)
  }

  /** As written: the offset starts at 0, the beginning of the file. */
  function PayloadsAsWritten(contents: seq<string>): (r: seq<string>)
    requires contents != []
    ensures contents[0] != [] ==> |r| >= 2 && r[1] == Strip(contents[0])
  {
    Payloads(contents, 0)
  }

  /**
   * The first poll of the code as written re-sends the whole file, the
   * snapshot's lines included: a log holding the one line `x` reaches the
   * client as `x` in the snapshot and then as `x` stripped, which for a line
   * without surrounding blanks (say `a`) is `x` again.
   */
  lemma AsWrittenRepeatsSnapshot(x: string)
    requires LF !in x
    ensures PayloadsAsWritten([x + [LF]]) == [x, Strip(x)]
  {
    var c := x + [LF];
    SnapshotOfOneLine(x);
    FirstPollOfOneLine(x);
    RepeatsFrom(c, x);
  }

  lemma RepeatsFrom(c: string, x: string)
    requires Snapshot(c, DefaultN) == x && Emitted([c], 0) == [Strip(x)]
    ensures PayloadsAsWritten([c]) == [x, Strip(x)]
  {
    assert [c][0] == c;
  }

  lemma SnapshotOfOneLine(x: string)
    requires LF !in x
    ensures Snapshot(x + [LF], DefaultN) == x
  {
    LinesOfOneLine(x);
    assert Last([x], DefaultN) == [x];
  }

  lemma FirstPollOfOneLine(x: string)
    ensures Emitted([x + [LF]], 0) == [Strip(x)]
  {
    var c := x + [LF];
    assert Chomp(c) == x;
    StripChomp(c);
    FirstPollReadsAll(c);
  }

  lemma FirstPollReadsAll(c: string)
    requires c != []
    ensures PollAll([c], 0).chunks == [c]
  {
    assert ReadFrom(c, 0) == Poll(Some(c), |c|);
    assert [c][1..] == [];
  }

  /** A line-feed-free text followed by a line feed is one line. */
  lemma {:induction false} LinesOfOneLine(x: string)
    requires LF !in x
    ensures Lines(x + [LF]) == [x]
    decreases |x|
  {
    if x == [] {
      assert ([] + [LF])[1..] == [];
    } else {
      assert (x + [LF])[1..] == x[1..] + [LF];
      assert LF !in x[1..] by {
        forall k | 0 <= k < |x[1..]| ensures x[1..][k] != LF {
          assert x[1..][k] == x[k + 1];
        }
      }
      LinesOfOneLine(x[1..]);
      assert [x[0]] + x[1..] == x;
    }
  }

  /** Corrected: the offset starts at the end of the file the snapshot was read from. */
  function SessionPayloads(contents: seq<string>): (r: seq<string>)
    requires contents != []
    ensures |r| >= 1 && r[0] == Snapshot(contents[0], DefaultN)
  {
    Payloads(contents, |contents[0]|)
  }

  /**
   * On a growing log, what a client is sent after the snapshot is the text
   * appended after the snapshot, cut into non-empty chunks in order and each
   * chunk stripped: nothing before it again, nothing lost, nothing twice.
   * `ClientStream` shows each of these payloads reaching the client as one
   * event.
   */
  lemma SessionDeliversAppended(contents: seq<string>)
    requires contents != [] && AppendOnly(contents)
    ensures contents[0] <= contents[|contents| - 1]
    ensures exists chunks ::
      && Concat(chunks) == contents[|contents| - 1][|contents[0]|..]
      && (forall i :: 0 <= i < |chunks| ==> chunks[i] != [])
      && SessionPayloads(contents)[1..] == StripEach(chunks)
  {
    PollAllReadsAppended(contents, |contents[0]|);
    var chunks := PollAll(contents, |contents[0]|).chunks;
    assert SessionPayloads(contents)[1..] == StripEach(chunks);
  }

  /** With no write after the snapshot a client is sent nothing but the snapshot. */
  lemma QuietLogSendsOnlySnapshot(content: string, polls: nat)
    requires polls >= 1
    ensures SessionPayloads(seq(polls, _ => content))[1..] == []
  {
    var cs := seq(polls, _ => content);
    PollAllReadsAppended(cs, |content|);
    assert Concat(PollAll(cs, |content|).chunks) == [];
    ConcatNonEmpty(PollAll(cs, |content|).chunks);
  }

  /** Concatenating non-empty pieces yields at least one character per piece. */
  lemma {:induction false} ConcatNonEmpty(xs: seq<string>)
    requires forall i :: 0 <= i < |xs| ==> xs[i] != []
    ensures |Concat(xs)| >= |xs|
  {
    if xs != [] {
      ConcatNonEmpty(xs[1..]);
    }
  }
}
