/**
 * The offset-based delta read of the polling endpoints:
 * `f.seek(last_pos); new_lines = f.read(); if new_lines: last_pos = f.tell()`.
 *
 * The file is the string `content`; offsets are character positions.
 */
module DeltaRead {
  import opened Wrappers
  import opened Text

  /** One poll: the non-empty text read, if any, and the offset after it. */
  datatype Poll = Poll(raw: Option<string>, next: nat)

  /**
   * Seek to `pos` and read to the end of the file. Seeking past the end is
   * allowed and reads nothing; the offset only moves when something was read.
   */
  function ReadFrom(content: string, pos: nat): (p: Poll)
    ensures p.raw.None? <==> |content| <= pos
    ensures p.raw.None? ==> p.next == pos
    ensures p.raw.Some? ==> p.raw.value != [] && content[..pos] + p.raw.value == content
    ensures p.raw.Some? ==> p.next == |content|
  {
    var data := if pos <= |content| then content[pos..] else [];
    if data == [] then Poll(None, pos) else Poll(Some(data), pos + |data|)
  }

  /** Polling again with no write in between sends nothing and keeps the offset. */
  lemma PollAgainIsNoop(content: string, pos: nat)
    ensures ReadFrom(content, ReadFrom(content, pos).next) == Poll(None, ReadFrom(content, pos).next)
  {
  }

  /** Every state the file passes through extends the one before: the log only grows. */
  predicate AppendOnly(cs: seq<string>)
  {
    forall i :: 0 <= i < |cs| - 1 ==> cs[i] <= cs[i + 1]
  }

  /** The raw chunks read by successive polls, and the offset after the last one. */
  datatype Polled = Polled(chunks: seq<string>, offset: nat)

  /** Poll once per file state in `cs`, starting from offset `pos`. */
  function PollAll(cs: seq<string>, pos: nat): Polled
  {
    if cs == [] then Polled([], pos)
    else
      var p := ReadFrom(cs[0], pos);
      var rest := PollAll(cs[1..], p.next);
      match p.raw
      case None => rest
      case Some(data) => Polled([data] + rest.chunks, rest.offset)
  }

  /** Each piece stripped. */
  function StripEach(xs: seq<string>): (r: seq<string>)
    ensures |r| == |xs|
    ensures forall i :: 0 <= i < |xs| ==> r[i] == Strip(xs[i])
  {
    if xs == [] then [] else [Strip(xs[0])] + StripEach(xs[1..])
  }

  lemma StripEachCons(x: string, xs: seq<string>)
    ensures StripEach([x] + xs) == [Strip(x)] + StripEach(xs)
  {
    assert ([x] + xs)[1..] == xs;
  }

  /** The payloads those polls send on. */
  function Emitted(cs: seq<string>, pos: nat): (r: seq<string>)
    ensures |r| == |PollAll(cs, pos).chunks|
  {
    StripEach(PollAll(cs, pos).chunks)
  }

  /** What one poll sends: nothing, or the text read, stripped. */
  function Sent(p: Poll): (r: seq<string>)
    ensures r == [] <==> p.raw.None?
  {
    match p.raw
    case None => []
    case Some(data) => [Strip(data)]
  }

  /** The payloads of a run of polls are those of the first poll, then those of the rest. */
  lemma EmittedCons(cs: seq<string>, pos: nat)
    requires cs != []
    ensures Emitted(cs, pos) == Sent(ReadFrom(cs[0], pos)) + Emitted(cs[1..], ReadFrom(cs[0], pos).next)
  {
    var p := ReadFrom(cs[0], pos);
    var rest := PollAll(cs[1..], p.next).chunks;
    if p.raw.Some? {
      assert PollAll(cs, pos).chunks == [p.raw.value] + rest;
      StripEachCons(p.raw.value, rest);
    } else {
      assert PollAll(cs, pos).chunks == rest;
    }
  }

  lemma AppendOnlyTail(cs: seq<string>)
    requires |cs| >= 2 && AppendOnly(cs)
    ensures AppendOnly(cs[1..]) && cs[0] <= cs[1..][0]
  {
    var tail := cs[1..];
    forall i | 0 <= i < |tail| - 1 ensures tail[i] <= tail[i + 1] {
      assert tail[i] == cs[i + 1] && tail[i + 1] == cs[i + 2];
    }
  }

  /** A read up to the end of one state, then reads covering the rest of the final state. */
  lemma ConcatStep(c0: string, last: string, pos: nat, data: string, rest: seq<string>)
    requires pos <= |c0| && c0 <= last && data == c0[pos..]
    requires Concat(rest) == last[|c0|..]
    ensures Concat([data] + rest) == last[pos..]
  {
    assert ([data] + rest)[1..] == rest;
    assert last[pos..] == last[pos..|c0|] + last[|c0|..];
  }

  /**
   * On a growing log, polling from an offset inside the first state reads
   * every later character exactly once: the chunks, none of them empty,
   * concatenate to the text after the starting offset, and the offset ends
   * at the end of the last state.
   */
  lemma {:induction false} PollAllReadsAppended(cs: seq<string>, pos: nat)
    requires cs != [] && AppendOnly(cs) && pos <= |cs[0]|
    ensures cs[0] <= cs[|cs| - 1]
    ensures PollAll(cs, pos).offset == |cs[|cs| - 1]|
    ensures Concat(PollAll(cs, pos).chunks) == cs[|cs| - 1][pos..]
    ensures forall i :: 0 <= i < |PollAll(cs, pos).chunks| ==> PollAll(cs, pos).chunks[i] != []
    decreases |cs|
  {
    var c0 := cs[0];
    var p := ReadFrom(c0, pos);
    var tail := cs[1..];
    if tail == [] {
      assert PollAll(tail, p.next) == Polled([], |c0|);
      if p.raw.Some? {
        assert Concat([p.raw.value]) == p.raw.value + Concat([]);
      }
    } else {
      AppendOnlyTail(cs);
      PollAllReadsAppended(tail, |c0|);
      var last := tail[|tail| - 1];
      assert cs[|cs| - 1] == last;
      var rest := PollAll(tail, |c0|);
      if p.raw.Some? {
        ConcatStep(c0, last, pos, p.raw.value, rest.chunks);
      }
    }
  }
}
