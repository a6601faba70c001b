/**
 * Server-sent-event framing. Every endpoint writes `f"data: {payload}\n\n"`.
 * The receiving side follows the event-stream interpretation rules of the
 * WHATWG HTML Living Standard, section 9.2.6 ("Interpreting an event
 * stream"), of which the data-field part is modelled here.
 */
module EventStream {
  import opened Text
  import opened TailRead
  import opened Seqs

  /** The field name and separator every frame line starts with. */
  const DataPrefix: string := "data: "

  /** The frame the endpoints write: `f"data: {payload}\n\n"`. */
  function Frame(payload: string): string
  {
    DataPrefix + payload + [LF, LF]
  }

  datatype FieldLine = FieldLine(name: string, value: string)

  /**
   * A non-empty, non-comment line: the field name runs up to the first
   * colon and the value follows it, minus one leading space; a line without
   * a colon is a field with an empty value.
   */
  function Field(line: string): FieldLine
  {
    var i := IndexOf(line, ':');
    if i == |line| then FieldLine(line, [])
    else
      var v := line[i + 1..];
      FieldLine(line[..i], if v != [] && v[0] == ' ' then v[1..] else v)
  }

  /** Dispatching the data buffer: nothing when it is empty, else its text minus one final line feed. */
  function Dispatch(buffer: string): seq<string>
  {
    if buffer == [] then []
    else if buffer[|buffer| - 1] == LF then [buffer[..|buffer| - 1]]
    else [buffer]
  }

  /** Process complete lines with the given data buffer; the result is the data of each dispatched event. */
  function Interpret(lines: seq<string>, buffer: string): seq<string>
    decreases |lines|
  {
    if lines == [] then []
    else
      var line := lines[0];
      if line == [] then Dispatch(buffer) + Interpret(lines[1..], [])
      else if line[0] == ':' then Interpret(lines[1..], buffer)
      else if Field(line).name == "data" then Interpret(lines[1..], buffer + Field(line).value + [LF])
      else Interpret(lines[1..], buffer)
  }

  /** The data of the events a client receives from `stream`; a final unterminated line is not processed. */
  function Parse(stream: string): seq<string>
  {
    var pieces := SplitLF(stream);
    Interpret(pieces[..|pieces| - 1], [])
  }

  /** One `data:` field per line of the payload, then the blank line that dispatches it. */
  function FramePayload(payload: string): string
  {
    DataLines(SplitLF(payload)) + [LF]
  }

  function DataLines(ls: seq<string>): string
  {
    if ls == [] then [] else DataPrefix + ls[0] + [LF] + DataLines(ls[1..])
  }

  /** The stream that carries `payloads` in order. */
  function Stream(payloads: seq<string>): string
  {
    if payloads == [] then [] else FramePayload(payloads[0]) + Stream(payloads[1..])
  }

  // ---------------------------------------------------------------------
  // Splitting at line feeds
  // ---------------------------------------------------------------------

  lemma {:induction false} SplitLFLineFree(s: string)
    requires LF !in s
    ensures SplitLF(s) == [s]
    decreases |s|
  {
    if s != [] {
      assert LF !in s[1..] by {
        forall k | 0 <= k < |s[1..]| ensures s[1..][k] != LF {
          assert s[1..][k] == s[k + 1];
        }
      }
      SplitLFLineFree(s[1..]);
      assert s == [s[0]] + s[1..];
    }
  }

  lemma {:induction false} SplitLFAround(a: string, b: string)
    ensures SplitLF(a + [LF] + b) == SplitLF(a) + SplitLF(b)
    decreases |a|
  {
    var x := a + [LF] + b;
    if a == [] {
      assert x == [LF] + b;
      assert x[1..] == b;
    } else {
      assert x[0] == a[0] && x[1..] == a[1..] + [LF] + b;
      SplitLFAround(a[1..], b);
      var u, v := SplitLF(a[1..]), SplitLF(b);
      if a[0] != LF {
        ConsFirst([a[0]], u, v);
      }
    }
  }

  /** Gluing a character onto the first line commutes with appending later lines; kept apart for a small context. */
  lemma ConsFirst<T>(h: seq<T>, u: seq<seq<T>>, v: seq<seq<T>>)
    requires u != []
    ensures [h + (u + v)[0]] + (u + v)[1..] == ([h + u[0]] + u[1..]) + v
  {
    assert (u + v)[0] == u[0] && (u + v)[1..] == u[1..] + v;
  }

  /** Joining with line feeds and splitting at them are inverse on line-feed-free pieces. */
  lemma {:induction false} SplitLFJoin(xs: seq<string>)
    requires xs != []
    requires forall i :: 0 <= i < |xs| ==> LF !in xs[i]
    ensures SplitLF(Join(xs)) == xs
    decreases |xs|
  {
    if |xs| == 1 {
      SplitLFLineFree(xs[0]);
    } else {
      SplitLFJoin(xs[1..]);
      SplitLFLineFree(xs[0]);
      SplitLFAround(xs[0], Join(xs[1..]));
    }
  }

  // ---------------------------------------------------------------------
  // Interpreting data fields
  // ---------------------------------------------------------------------

  lemma DataField(l: string)
    ensures Field(DataPrefix + l) == FieldLine("data", l)
  {
    var line := DataPrefix + l;
    var i := IndexOf(line, ':');
    assert line[4] == ':';
    assert forall j :: 0 <= j < 4 ==> line[j] != ':';
    assert i == 4;
    assert line[..4] == "data";
    assert line[5..] == " " + l;
  }

  function DataFieldLines(ls: seq<string>): (r: seq<string>)
    ensures |r| == |ls|
    ensures forall i :: 0 <= i < |ls| ==> r[i] == DataPrefix + ls[i]
  {
    seq(|ls|, i requires 0 <= i < |ls| => DataPrefix + ls[i])
  }

  lemma {:induction false} SplitDataLines(ls: seq<string>)
    requires forall i :: 0 <= i < |ls| ==> LF !in ls[i]
    ensures SplitLF(DataLines(ls)) == DataFieldLines(ls) + [[]]
    decreases |ls|
  {
    if ls != [] {
      var head := DataPrefix + ls[0];
      assert LF !in head;
      SplitLFLineFree(head);
      SplitDataLines(ls[1..]);
      assert DataLines(ls) == head + [LF] + DataLines(ls[1..]);
      SplitLFAround(head, DataLines(ls[1..]));
      assert DataFieldLines(ls) == [head] + DataFieldLines(ls[1..]);
    }
  }

  /** Each `data:` line appends its value and a line feed to the buffer. */
  lemma {:induction false} InterpretDataLines(ls: seq<string>, rest: seq<string>, buffer: string)
    ensures Interpret(DataFieldLines(ls) + rest, buffer) == Interpret(rest, buffer + Join(ls) + (if ls == [] then [] else [LF]))
    decreases |ls|
  {
    if ls != [] {
      var more := DataFieldLines(ls[1..]) + rest;
      DataFieldLinesCons(ls, rest);
      DataStep(ls[0], more, buffer);
      InterpretDataLines(ls[1..], rest, buffer + ls[0] + [LF]);
      BufferAfterData(buffer, ls);
    } else {
      assert DataFieldLines(ls) + rest == rest;
      assert buffer + Join(ls) == buffer;
    }
  }

  lemma DataFieldLinesCons(ls: seq<string>, rest: seq<string>)
    requires ls != []
    ensures DataFieldLines(ls) + rest == [DataPrefix + ls[0]] + (DataFieldLines(ls[1..]) + rest)
  {
    var l := DataFieldLines(ls);
    assert l == [DataPrefix + ls[0]] + DataFieldLines(ls[1..]);
  }

  /** A `data:` line appends its value and a line feed to the buffer. */
  /** `DataStep` with the new buffer named, so a caller need not unfold the interpretation to match it. */
  lemma DataStepInto(l: string, more: seq<string>, buffer: string, next: string)
    requires next == buffer + l + [LF]
    ensures Interpret([DataPrefix + l] + more, buffer) == Interpret(more, next)
  {
    DataStep(l, more, buffer);
  }

  lemma DataStep(l: string, more: seq<string>, buffer: string)
    ensures Interpret([DataPrefix + l] + more, buffer) == Interpret(more, buffer + l + [LF])
  {
    DataField(l);
    var lines := [DataPrefix + l] + more;
    assert lines[0] == DataPrefix + l && lines[1..] == more;
    assert lines[0] != [] && lines[0][0] == 'd';
  }

  lemma BufferAfterData(buffer: string, ls: seq<string>)
    requires ls != []
    ensures (buffer + ls[0] + [LF]) + Join(ls[1..]) + (if ls[1..] == [] then [] else [LF]) == buffer + Join(ls) + [LF]
  {
    if |ls| > 1 {
      assert Join(ls) == ls[0] + [LF] + Join(ls[1..]);
    } else {
      assert Join(ls) == ls[0];
    }
  }

  /** A payload framed one line per `data:` field, followed by more stream. */
  lemma ParseFramedThen(p: string, rest: string)
    ensures Parse(FramePayload(p) + rest) == [p] + Parse(rest)
  {
    var fields := DataFieldLines(SplitLF(p));
    var tail := SplitLF(rest);
    SplitFramedThen(p, rest);
    ParseSplitThen(FramePayload(p) + rest, fields, tail);
    ParseBySplit(rest, tail);
    InterpretFramed(p, tail[..|tail| - 1]);
  }

  /** A stream whose lines are `fields`, a blank line, then the lines of more stream. */
  lemma ParseSplitThen(s: string, fields: seq<string>, tail: seq<string>)
    requires tail != [] && SplitLF(s) == fields + [[]] + tail
    ensures Parse(s) == Interpret(fields + ([[]] + tail[..|tail| - 1]), [])
  {
    DropLastAfter(fields, tail);
    ParseBySplit(s, fields + [[]] + tail);
  }

  /** The pieces of a framed payload followed by more stream. */
  lemma SplitFramedThen(p: string, rest: string)
    ensures SplitLF(FramePayload(p) + rest) == DataFieldLines(SplitLF(p)) + [[]] + SplitLF(rest)
  {
    var ls := SplitLF(p);
    SplitDataLines(ls);
    var d := DataLines(ls);
    assert FramePayload(p) + rest == d + [LF] + rest;
    SplitLFAround(d, rest);
  }


  /** The stream's lines before its final piece; a separate step keeps the caller's proof small. */
  lemma DropLastAfter(fields: seq<string>, tail: seq<string>)
    requires tail != []
    ensures (fields + [[]] + tail)[..|fields + [[]] + tail| - 1] == fields + ([[]] + tail[..|tail| - 1])
  {
  }

  /** The receiver dispatches a framed payload at its blank line. */
  lemma InterpretFramed(p: string, restLines: seq<string>)
    ensures Interpret(DataFieldLines(SplitLF(p)) + ([[]] + restLines), []) == [p] + Interpret(restLines, [])
  {
    var ls := SplitLF(p);
    JoinSplitLF(p);
    InterpretDataLines(ls, [[]] + restLines, []);
    assert ([] + Join(ls) + [LF]) == p + [LF];
    DispatchThen(p, restLines);
  }

  /** A blank line dispatches the buffered payload, then the stream goes on with an empty buffer. */
  lemma DispatchThen(p: string, restLines: seq<string>)
    ensures Interpret([[]] + restLines, p + [LF]) == [p] + Interpret(restLines, [])
  {
    var lines := [[]] + restLines;
    assert lines[0] == [] && lines[1..] == restLines;
    var b := p + [LF];
    assert b[..|b| - 1] == p;
  }

  /** One frame of the line-per-field form delivers exactly its payload. */
  lemma FramePayloadRoundTrip(p: string)
    ensures Parse(FramePayload(p)) == [p]
  {
    ParseFramedThen(p, []);
    assert FramePayload(p) + [] == FramePayload(p);
  }

  /** A stream of such frames delivers each payload as one event, in order. */
  lemma {:induction false} StreamRoundTrip(ps: seq<string>)
    ensures Parse(Stream(ps)) == ps
    decreases |ps|
  {
    if ps != [] {
      ParseFramedThen(ps[0], Stream(ps[1..]));
      StreamRoundTrip(ps[1..]);
    }
  }

  /**
   * What one client of a streaming endpoint is sent: the snapshot of the
   * last ten lines of the log as it was on connection, then each later
   * payload. With line-per-field framing the client receives exactly these
   * events, in this order.
   */
  function ClientStream(content: string, later: seq<string>): (s: string)
    ensures Parse(s) == [Snapshot(content, DefaultN)] + later
  {
    StreamRoundTrip([Snapshot(content, DefaultN)] + later);
    Stream([Snapshot(content, DefaultN)] + later)
  }

  /** The frame as written agrees with the line-per-field form on single-line payloads. */
  lemma FrameSingleLine(p: string)
    requires LF !in p
    ensures Frame(p) == FramePayload(p)
    ensures Parse(Frame(p)) == [p]
  {
    SplitLFLineFree(p);
    assert DataLines([p]) == DataPrefix + p + [LF] + DataLines([]);
    FramePayloadRoundTrip(p);
  }

  // ---------------------------------------------------------------------
  // Multi-line payloads in one field
  // ---------------------------------------------------------------------

  /** A non-empty line that neither dispatches nor touches the data buffer. */
  predicate Ignored(line: string)
  {
    line != [] && (line[0] == ':' || Field(line).name != "data")
  }

  lemma {:induction false} InterpretIgnored(ls: seq<string>, rest: seq<string>, buffer: string)
    requires forall i :: 0 <= i < |ls| ==> Ignored(ls[i])
    ensures Interpret(ls + rest, buffer) == Interpret(rest, buffer)
    decreases |ls|
  {
    if ls != [] {
      var lines := ls + rest;
      assert lines[0] == ls[0];
      assert lines[1..] == ls[1..] + rest;
      assert Interpret(lines, buffer) == Interpret(lines[1..], buffer);
      InterpretIgnored(ls[1..], rest, buffer);
    } else {
      assert ls + rest == rest;
    }
  }

  /**
   * With the frame as written, a payload of several lines reaches the
   * client as its first line only, whenever the later lines are ignored
   * by the interpretation rules: a log line without a colon, or one whose
   * text before its first colon is not `data` (a timestamp such as
   * `12:00:01` already qualifies), is read as an unknown field.
   */
  lemma FrameKeepsFirstLine(first: string, later: seq<string>)
    requires later != []
    requires LF !in first && forall i :: 0 <= i < |later| ==> LF !in later[i]
    requires forall i :: 0 <= i < |later| ==> Ignored(later[i])
    ensures Parse(Frame(Join([first] + later))) == [first]
  {
    var ls := [first] + later;
    assert ls[0] == first && ls[1..] == later;
    LineFreeCons(first, later);
    ParseFrameOfJoin(ls);
    FirstDataLine(first, later + [[]]);
    InterpretIgnored(later, [[]], first + [LF]);
    DispatchOne(first);
  }


  /** Prepending a line-feed-free line keeps every line line-feed-free. */
  lemma LineFreeCons(first: string, later: seq<string>)
    requires LF !in first && forall i :: 0 <= i < |later| ==> LF !in later[i]
    ensures forall i :: 0 <= i < |[first] + later| ==> LF !in ([first] + later)[i]
  {
  }

  lemma ParseFrameOfJoin(ls: seq<string>)
    requires |ls| >= 2
    requires forall i :: 0 <= i < |ls| ==> LF !in ls[i]
    ensures Parse(Frame(Join(ls))) == Interpret([DataPrefix + ls[0]] + (ls[1..] + [[]]), [])
  {
    SplitFrameOfJoin(ls);
    ParseOfPieces(Frame(Join(ls)), DataPrefix + ls[0], ls[1..]);
  }

  /** A stream cut into a head line, later lines and two blanks is interpreted up to the last blank. */
  lemma ParseOfPieces(s: string, head: string, later: seq<string>)
    requires SplitLF(s) == [head] + later + [[], []]
    ensures Parse(s) == Interpret([head] + (later + [[]]), [])
  {
    var pieces := [head] + later + [[], []];
    ParseBySplit(s, pieces);
    assert pieces[..|pieces| - 1] == [head] + (later + [[]]);
  }

  lemma ParseBySplit(s: string, pieces: seq<string>)
    requires SplitLF(s) == pieces
    ensures Parse(s) == Interpret(pieces[..|pieces| - 1], [])
  {
  }

  lemma FirstDataLine(l: string, rest: seq<string>)
    ensures Interpret([DataPrefix + l] + rest, []) == Interpret(rest, l + [LF])
  {
    assert [] + l + [LF] == l + [LF];
    DataStepInto(l, rest, [], l + [LF]);
  }

  lemma DispatchOne(l: string)
    ensures Interpret([[]], l + [LF]) == [l]
  {
    var b := l + [LF];
    assert b[..|b| - 1] == l;
    var blank: seq<string> := [[]];
    assert blank[1..] == [];
  }

  /** The pieces of a frame as written whose payload has several lines. */
  lemma SplitFrameOfJoin(ls: seq<string>)
    requires |ls| >= 2
    requires forall i :: 0 <= i < |ls| ==> LF !in ls[i]
    ensures SplitLF(Frame(Join(ls))) == [DataPrefix + ls[0]] + ls[1..] + [[], []]
  {
    var head := DataPrefix + ls[0];
    var j := Join(ls[1..]);
    FrameOfJoin(ls);
    SplitTwoLF(head + [LF] + j);
    SplitHeadThenJoin(ls);
  }

  lemma FrameOfJoin(ls: seq<string>)
    requires |ls| >= 2
    ensures Frame(Join(ls)) == ((DataPrefix + ls[0]) + [LF] + Join(ls[1..])) + [LF] + [LF]
  {
    assert Join(ls) == ls[0] + [LF] + Join(ls[1..]);
    Regroup(DataPrefix, ls[0], Join(ls[1..]));
  }

  /** Regrouping a frame around its first line; kept apart so the proof above does not unfold the prefix. */
  lemma Regroup(a: string, b: string, c: string)
    ensures a + (b + [LF] + c) + [LF, LF] == ((a + b) + [LF] + c) + [LF] + [LF]
  {
  }

  lemma SplitTwoLF(a: string)
    ensures SplitLF(a + [LF] + [LF]) == SplitLF(a) + [[], []]
  {
    SplitLFAround(a, [LF]);
    SplitLFAround([], []);
    assert [] + [LF] + [] == [LF];
  }

  lemma SplitHeadThenJoin(ls: seq<string>)
    requires |ls| >= 2
    requires forall i :: 0 <= i < |ls| ==> LF !in ls[i]
    ensures SplitLF((DataPrefix + ls[0]) + [LF] + Join(ls[1..])) == [DataPrefix + ls[0]] + ls[1..]
  {
    var head := DataPrefix + ls[0];
    SplitLFJoin(ls[1..]);
    assert LF !in ls[0];
    SplitLFLineFree(head);
    SplitLFAround(head, Join(ls[1..]));
  }



  /** The smallest case: a two-line snapshot arrives as its first line. */
  lemma TwoLineSnapshotLosesSecond()
    ensures Parse(Frame("L1\nL2")) == ["L1"]
  {
    var later := ["L2"];
    assert Join(["L1"] + later) == "L1\nL2";
    assert IndexOf("L2", ':') == 2;
    assert Ignored(later[0]);
    FrameKeepsFirstLine("L1", later);
  }
}
