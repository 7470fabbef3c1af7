/**
 * The read task of a connection: it reads until end of stream or an error,
 * cuts the bytes into lines, emits one event per line, flushes what is left
 * when the stream closes, reports the close, and then removes its own entry
 * from the registry.
 */
module ReadLoop {
  import opened Wrappers
  import opened Framing
  import opened Events
  import opened Registry
  import Text

  /**
   * One `reader.read(..)`: `Ok(n)` with the `n` bytes read (none at end of
   * stream, which is `Ok(0)`), or `Err(e)` with the error's text.
   */
  datatype ReadOutcome = ReadOk(chunk: Bytes) | ReadErr(description: string)

  /** The read task's state machine: still reading, closed by the peer, or failed. */
  datatype Phase = Reading | Closed | Failed

  /** What a run of reads emits, the line buffer it leaves, and where the task stands. */
  datatype StepResult = StepResult(events: seq<ReceivedPayload>, buffer: Bytes, phase: Phase)

  /** One message event per cut line, in order. */
  function Messages(id: string, frames: seq<Bytes>): seq<ReceivedPayload>
  {
    seq(|frames|, i requires 0 <= i < |frames| => MessagePayload(id, frames[i]))
  }

  /** One turn of the outer loop of `read_task`. */
  function ReadStep(id: string, buf: Bytes, outcome: ReadOutcome): (r: StepResult)
    // the loop goes on exactly after a read of at least one byte
    ensures r.phase == Reading <==> outcome.ReadOk? && outcome.chunk != []
  {
    match outcome
    case ReadOk(chunk) =>
      if chunk == [] then
        // the peer closed: flush a non-empty remainder, then report the close
        StepResult((if buf != [] then [MessagePayload(id, buf)] else []) + [DisconnectedPayload(id)], buf, Closed)
      else
        var split := SplitFrames(buf + chunk);
        StepResult(Messages(id, split.0), split.1, Reading)
    case ReadErr(e) =>
      // the unterminated remainder is dropped
      StepResult([ReadErrorPayload(id, e)], buf, Failed)
  }

  /** The read loop over a trace of read outcomes; it stops at the first close or error. */
  function Transcript(id: string, buf: Bytes, trace: seq<ReadOutcome>): StepResult
    decreases |trace|
  {
    if trace == [] then StepResult([], buf, Reading)
    else
      var s := ReadStep(id, buf, trace[0]);
      if s.phase != Reading then s
      else
        var t := Transcript(id, s.buffer, trace[1..]);
        StepResult(s.events + t.events, t.buffer, t.phase)
  }

  /** The loop is still reading exactly when every read of the trace brought bytes. */
  lemma {:induction false} TranscriptReading(id: string, buf: Bytes, trace: seq<ReadOutcome>)
    ensures Transcript(id, buf, trace).phase == Reading <==>
      forall i :: 0 <= i < |trace| ==> trace[i].ReadOk? && trace[i].chunk != []
    decreases |trace|
  {
    if trace != [] {
      var s := ReadStep(id, buf, trace[0]);
      if s.phase == Reading {
        TranscriptReading(id, s.buffer, trace[1..]);
        assert forall i :: 1 <= i < |trace| ==> trace[i] == trace[1..][i - 1];
      }
    }
  }

  /** The bytes read until the loop stops (a close or an error ends it). */
  function BytesRead(trace: seq<ReadOutcome>): Bytes
  {
    if trace == [] then []
    else match trace[0]
      case ReadOk(c) => if c == [] then [] else c + BytesRead(trace[1..])
      case ReadErr(_) => []
  }

  /** All message data emitted, concatenated. */
  function MessageBytes(events: seq<ReceivedPayload>): Bytes
  {
    if events == [] then []
    else (if events[0].event.message.Some? then events[0].event.message.value.data else []) + MessageBytes(events[1..])
  }

  /** How many events report `connected: false`. */
  function Disconnects(events: seq<ReceivedPayload>): nat
  {
    if events == [] then 0
    else (if events[0].event.connected == Some(false) then 1 else 0) + Disconnects(events[1..])
  }

  /** How many events carry an error text. */
  function Errors(events: seq<ReceivedPayload>): nat
  {
    if events == [] then 0
    else (if events[0].event.error.Some? then 1 else 0) + Errors(events[1..])
  }

  lemma {:induction false} MessageBytesAppend(a: seq<ReceivedPayload>, b: seq<ReceivedPayload>)
    ensures MessageBytes(a + b) == MessageBytes(a) + MessageBytes(b)
  {
    if a == [] {
      assert a + b == b;
    } else {
      assert (a + b)[1..] == a[1..] + b;
      MessageBytesAppend(a[1..], b);
    }
  }

  lemma {:induction false} CountsAppend(a: seq<ReceivedPayload>, b: seq<ReceivedPayload>)
    ensures Disconnects(a + b) == Disconnects(a) + Disconnects(b)
    ensures Errors(a + b) == Errors(a) + Errors(b)
  {
    if a == [] {
      assert a + b == b;
    } else {
      assert (a + b)[1..] == a[1..] + b;
      CountsAppend(a[1..], b);
    }
  }

  /** The message events of cut lines carry exactly those lines, and report nothing else. */
  lemma {:induction false} MessagesContent(id: string, frames: seq<Bytes>)
    ensures MessageBytes(Messages(id, frames)) == Concat(frames)
    ensures Disconnects(Messages(id, frames)) == 0 && Errors(Messages(id, frames)) == 0
  {
    if frames != [] {
      assert Messages(id, frames) == [MessagePayload(id, frames[0])] + Messages(id, frames[1..]);
      MessagesContent(id, frames[1..]);
      MessageBytesAppend([MessagePayload(id, frames[0])], Messages(id, frames[1..]));
      CountsAppend([MessagePayload(id, frames[0])], Messages(id, frames[1..]));
    }
  }

  /**
   * After one `Ok(n)` read with `n > 0`, the lines emitted followed by the new
   * buffer are exactly the old buffer followed by the bytes read: nothing
   * lost, duplicated or reordered.  Every line is a complete frame, and no
   * CR LF is left in the buffer.
   */
  lemma DataStepConserves(id: string, buf: Bytes, chunk: Bytes)
    requires chunk != []
    ensures var s := ReadStep(id, buf, ReadOk(chunk));
      && s.phase == Reading
      && MessageBytes(s.events) + s.buffer == buf + chunk
      && (forall i :: 0 <= i < |s.events| ==> s.events[i] == MessagePayload(id, s.events[i].event.message.value.data)
                                              && IsFrame(s.events[i].event.message.value.data))
      && !HasCrlf(s.buffer)
  {
    MessagesContent(id, SplitFrames(buf + chunk).0);
  }

  /** A trace split in two: the second part only runs if the first left the task reading. */
  lemma {:induction false} TranscriptAppend(id: string, buf: Bytes, a: seq<ReadOutcome>, b: seq<ReadOutcome>)
    ensures var ta := Transcript(id, buf, a);
      Transcript(id, buf, a + b) ==
        if ta.phase != Reading then ta
        else
          var tb := Transcript(id, ta.buffer, b);
          StepResult(ta.events + tb.events, tb.buffer, tb.phase)
    decreases |a|
  {
    if a == [] {
      assert a + b == b;
      assert [] + Transcript(id, buf, b).events == Transcript(id, buf, b).events;
    } else {
      var ab := a + b;
      assert ab[0] == a[0] && ab[1..] == a[1..] + b;
      var s := ReadStep(id, buf, a[0]);
      if s.phase == Reading {
        TranscriptAppend(id, s.buffer, a[1..], b);
        var ta' := Transcript(id, s.buffer, a[1..]);
        var tab := Transcript(id, s.buffer, a[1..] + b);
        assert Transcript(id, buf, a) == StepResult(s.events + ta'.events, ta'.buffer, ta'.phase);
        assert Transcript(id, buf, ab) == StepResult(s.events + tab.events, tab.buffer, tab.phase);
        if ta'.phase == Reading {
          var tb := Transcript(id, ta'.buffer, b);
          Assoc(s.events, ta'.events, tb.events);
        }
      } else {
        assert Transcript(id, buf, a) == s && Transcript(id, buf, ab) == s;
      }
    }
  }

  /** A trace extended by one read, while the task is still reading, runs that read's step. */
  lemma TranscriptSnoc(id: string, buf: Bytes, a: seq<ReadOutcome>, r: ReadOutcome)
    requires Transcript(id, buf, a).phase == Reading
    ensures var ta := Transcript(id, buf, a);
      var s := ReadStep(id, ta.buffer, r);
      Transcript(id, buf, a + [r]) == StepResult(ta.events + s.events, s.buffer, s.phase)
  {
    TranscriptAppend(id, buf, a, [r]);
    TranscriptSingle(id, Transcript(id, buf, a).buffer, r);
  }

  /**
   * One more turn of the loop, as the read task sees it: the events emitted
   * so far followed by the next read's events are the events of the longer
   * trace, and the next read leaves that trace's buffer and phase.
   */
  lemma TranscriptNext(id: string, buf: Bytes, trace: seq<ReadOutcome>, i: nat, emitted: seq<ReceivedPayload>)
    requires i < |trace| && Transcript(id, buf, trace[..i]).phase == Reading
    ensures var t := Transcript(id, buf, trace[..i]);
      var s := ReadStep(id, t.buffer, trace[i]);
      var u := Transcript(id, buf, trace[..i + 1]);
      (emitted + t.events) + s.events == emitted + u.events && s.buffer == u.buffer && s.phase == u.phase
  {
    var t := Transcript(id, buf, trace[..i]);
    var s := ReadStep(id, t.buffer, trace[i]);
    TranscriptSnoc(id, buf, trace[..i], trace[i]);
    assert trace[..i + 1] == trace[..i] + [trace[i]];
    Assoc(emitted, t.events, s.events);
  }

  /** Once the loop has stopped, the reads after that point are never made. */
  lemma TranscriptStopped(id: string, buf: Bytes, trace: seq<ReadOutcome>, i: nat)
    requires i <= |trace|
    requires i == |trace| || Transcript(id, buf, trace[..i]).phase != Reading
    ensures Transcript(id, buf, trace) == Transcript(id, buf, trace[..i])
  {
    if i == |trace| {
      assert trace[..i] == trace;
    } else {
      var a, b := trace[..i], trace[i..];
      var ta := Transcript(id, buf, a);
      assert ta.phase != Reading;
      TranscriptAppend(id, buf, a, b);
      assert Transcript(id, buf, a + b) == ta;
      assert a + b == trace;
    }
  }

  /** A trace of one read is that read's step. */
  lemma TranscriptSingle(id: string, buf: Bytes, r: ReadOutcome)
    ensures Transcript(id, buf, [r]) == ReadStep(id, buf, r)
  {
    var s := ReadStep(id, buf, r);
    assert [r][1..] == [];
    assert s.events + [] == s.events;
  }

  /**
   * Regrouping a concatenation.  Stated once, out of line, because the same
   * step written inline inside the large contexts of the read loop's proofs
   * is far more expensive for the solver.
   */
  lemma Assoc<T>(a: seq<T>, b: seq<T>, c: seq<T>)
    ensures (a + b) + c == a + (b + c)
  {
  }

  lemma MessagesAppend(id: string, a: seq<Bytes>, b: seq<Bytes>)
    ensures Messages(id, a + b) == Messages(id, a) + Messages(id, b)
  {
  }

  /** The bytes one read delivers. */
  function StepBytes(r: ReadOutcome): Bytes
  {
    if r.ReadOk? then r.chunk else []
  }

  /** Conservation over one read. */
  lemma StepConserves(id: string, buf: Bytes, r: ReadOutcome)
    ensures var s := ReadStep(id, buf, r);
      MessageBytes(s.events) + (if s.phase == Closed then [] else s.buffer) == buf + StepBytes(r)
  {
    var s := ReadStep(id, buf, r);
    match r
    case ReadOk(chunk) =>
      if chunk == [] {
        var flush: seq<ReceivedPayload> := if buf != [] then [MessagePayload(id, buf)] else [];
        MessageBytesAppend(flush, [DisconnectedPayload(id)]);
        assert MessageBytes(flush) == buf;
      } else {
        DataStepConserves(id, buf, chunk);
      }
    case ReadErr(e) =>
      assert MessageBytes(s.events) == [];
  }

  /**
   * Conservation over a whole trace: the message data emitted, followed by
   * what is still buffered (nothing once the close has flushed it), is the
   * starting buffer followed by every byte read.
   */
  lemma {:induction false} TranscriptConserves(id: string, buf: Bytes, trace: seq<ReadOutcome>)
    ensures var t := Transcript(id, buf, trace);
      MessageBytes(t.events) + (if t.phase == Closed then [] else t.buffer) == buf + BytesRead(trace)
    decreases |trace|
  {
    if trace == [] {
      assert buf + [] == buf;
    } else {
      var s := ReadStep(id, buf, trace[0]);
      StepConserves(id, buf, trace[0]);
      if s.phase == Reading {
        assert BytesRead(trace) == StepBytes(trace[0]) + BytesRead(trace[1..]);
        TranscriptConserves(id, s.buffer, trace[1..]);
        var t := Transcript(id, s.buffer, trace[1..]);
        MessageBytesAppend(s.events, t.events);
        var tail: Bytes := if t.phase == Closed then [] else t.buffer;
        var a, b := MessageBytes(s.events), MessageBytes(t.events);
        Assoc(a, b, tail);
        assert b + tail == s.buffer + BytesRead(trace[1..]);
        Assoc(a, s.buffer, BytesRead(trace[1..]));
        Assoc(buf, StepBytes(trace[0]), BytesRead(trace[1..]));
        assert Transcript(id, buf, trace) == StepResult(s.events + t.events, t.buffer, t.phase);
      } else {
        assert BytesRead(trace) == StepBytes(trace[0]);
      }
    }
  }

  /**
   * From an empty buffer: a trace that ends in a close delivers every byte
   * read as message data; one that ends in an error delivers a prefix of them.
   */
  lemma EndOfTraceDelivery(id: string, trace: seq<ReadOutcome>)
    ensures var t := Transcript(id, [], trace);
      && (t.phase == Closed ==> MessageBytes(t.events) == BytesRead(trace))
      && (t.phase == Failed ==> Text.StartsWith(BytesRead(trace), MessageBytes(t.events)))
  {
    TranscriptConserves(id, [], trace);
    var t := Transcript(id, [], trace);
    var delivered, read := MessageBytes(t.events), BytesRead(trace);
    assert [] + read == read;
    if t.phase == Closed {
      assert delivered + [] == read;
    } else if t.phase == Failed {
      assert delivered + t.buffer == read;
      assert read[..|delivered|] == delivered;
    }
  }

  /**
   * Exactly one `connected: false` is emitted once the loop stops, and it is
   * the last event; an error stops the loop with exactly one event that
   * carries both the error text and `connected: false`; every event names
   * the task's own client id.
   */
  lemma {:induction false} TranscriptCloses(id: string, buf: Bytes, trace: seq<ReadOutcome>)
    ensures var t := Transcript(id, buf, trace);
      && (forall i :: 0 <= i < |t.events| ==> t.events[i].id == id)
      && Disconnects(t.events) == (if t.phase == Reading then 0 else 1)
      && Errors(t.events) == (if t.phase == Failed then 1 else 0)
      && (t.phase != Reading ==> t.events != [] && t.events[|t.events| - 1].event.connected == Some(false))
      && (t.phase == Failed ==> t.events[|t.events| - 1].event.error.Some?)
    decreases |trace|
  {
    if trace != [] {
      var s := ReadStep(id, buf, trace[0]);
      match trace[0]
      case ReadOk(chunk) =>
        if chunk == [] {
          var flush: seq<ReceivedPayload> := if buf != [] then [MessagePayload(id, buf)] else [];
          CountsAppend(flush, [DisconnectedPayload(id)]);
        } else {
          MessagesContent(id, SplitFrames(buf + chunk).0);
          TranscriptCloses(id, s.buffer, trace[1..]);
          var t := Transcript(id, s.buffer, trace[1..]);
          ClosesAfterMessages(id, s.events, t);
          assert Transcript(id, buf, trace) == StepResult(s.events + t.events, t.buffer, t.phase);
        }
      case ReadErr(e) =>
    }
  }

  /** Message events in front of a run that reports its close properly keep it reported properly. */
  lemma ClosesAfterMessages(id: string, m: seq<ReceivedPayload>, t: StepResult)
    requires forall i :: 0 <= i < |m| ==> m[i].id == id
    requires Disconnects(m) == 0 && Errors(m) == 0
    requires && (forall i :: 0 <= i < |t.events| ==> t.events[i].id == id)
      && Disconnects(t.events) == (if t.phase == Reading then 0 else 1)
      && Errors(t.events) == (if t.phase == Failed then 1 else 0)
      && (t.phase != Reading ==> t.events != [] && t.events[|t.events| - 1].event.connected == Some(false))
      && (t.phase == Failed ==> t.events[|t.events| - 1].event.error.Some?)
    ensures var e := m + t.events;
      && (forall i :: 0 <= i < |e| ==> e[i].id == id)
      && Disconnects(e) == (if t.phase == Reading then 0 else 1)
      && Errors(e) == (if t.phase == Failed then 1 else 0)
      && (t.phase != Reading ==> e != [] && e[|e| - 1].event.connected == Some(false))
      && (t.phase == Failed ==> e[|e| - 1].event.error.Some?)
  {
    var e := m + t.events;
    CountsAppend(m, t.events);
    forall i | 0 <= i < |e| ensures e[i].id == id {
      if i < |m| {
        assert e[i] == m[i];
      } else {
        assert e[i] == t.events[i - |m|];
      }
    }
    if t.phase != Reading {
      assert e[|e| - 1] == t.events[|t.events| - 1];
    }
  }

  /**
   * Every message event is a complete frame, except at most one: the
   * remainder flushed on close, which is the event just before the close
   * and holds no CR LF.
   */
  predicate FramesExceptFlush(events: seq<ReceivedPayload>, phase: Phase)
  {
    forall i :: 0 <= i < |events| && events[i].event.message.Some? && !IsFrame(events[i].event.message.value.data) ==>
      phase == Closed && i == |events| - 2 && !HasCrlf(events[i].event.message.value.data)
  }

  /** One read keeps the buffer free of CR LF and emits only frames, but for the flush on close. */
  lemma StepFrames(id: string, buf: Bytes, r: ReadOutcome)
    requires !HasCrlf(buf)
    ensures var s := ReadStep(id, buf, r);
      !HasCrlf(s.buffer) && FramesExceptFlush(s.events, s.phase)
  {
    var s := ReadStep(id, buf, r);
    match r
    case ReadOk(chunk) =>
      if chunk != [] {
        var frames := SplitFrames(buf + chunk).0;
        forall i | 0 <= i < |s.events|
          ensures s.events[i].event.message == Some(MessageData(frames[i]))
        {
        }
      }
    case ReadErr(e) =>
  }

  /** Events of a step that left the task reading, followed by more events, keep the property. */
  lemma FramesAppend(a: seq<ReceivedPayload>, b: seq<ReceivedPayload>, phase: Phase)
    requires FramesExceptFlush(a, Reading) && FramesExceptFlush(b, phase)
    ensures FramesExceptFlush(a + b, phase)
  {
    forall i | 0 <= i < |a|
      ensures (a + b)[i] == a[i]
    {
    }
    forall i | |a| <= i < |a + b|
      ensures (a + b)[i] == b[i - |a|]
    {
    }
  }

  /** Over a whole trace: only frames are emitted, but for the flush on close, and no CR LF stays buffered. */
  lemma {:induction false} TranscriptFrames(id: string, buf: Bytes, trace: seq<ReadOutcome>)
    requires !HasCrlf(buf)
    ensures var t := Transcript(id, buf, trace);
      !HasCrlf(t.buffer) && FramesExceptFlush(t.events, t.phase)
    decreases |trace|
  {
    if trace != [] {
      var s := ReadStep(id, buf, trace[0]);
      StepFrames(id, buf, trace[0]);
      if s.phase == Reading {
        TranscriptFrames(id, s.buffer, trace[1..]);
        var t := Transcript(id, s.buffer, trace[1..]);
        FramesAppend(s.events, t.events, t.phase);
      }
    }
  }

  /** Read outcomes delivering each chunk in turn. */
  function Chunks(cs: seq<Bytes>): seq<ReadOutcome>
  {
    seq(|cs|, i requires 0 <= i < |cs| => ReadOk(cs[i]))
  }

  /** A CR LF-free byte string has no CR LF in any prefix. */
  lemma NoCrlfPrefix(s: Bytes, n: nat)
    requires n <= |s| && !HasCrlf(s)
    ensures !HasCrlf(s[..n])
  {
    forall i | 0 <= i < n ensures !CrlfAt(s[..n], i) {
      assert CrlfAt(s[..n], i) ==> CrlfAt(s, i);
    }
  }

  /** Chunks with no CR LF among them only accumulate in the buffer. */
  lemma {:induction false} NoTerminatorAccumulates(id: string, buf: Bytes, cs: seq<Bytes>)
    requires forall i :: 0 <= i < |cs| ==> cs[i] != []
    requires !HasCrlf(buf + Concat(cs))
    ensures Transcript(id, buf, Chunks(cs)) == StepResult([], buf + Concat(cs), Reading)
    decreases |cs|
  {
    if cs == [] {
      assert Chunks(cs) == [];
      assert buf + Concat(cs) == buf;
    } else {
      var next := buf + cs[0];
      assert buf + Concat(cs) == next + Concat(cs[1..]);
      NoCrlfPrefix(buf + Concat(cs), |next|);
      assert (buf + Concat(cs))[..|next|] == next;
      SplitFramesUnique([], next);
      assert Concat([]) + next == next;
      assert Chunks(cs)[0] == ReadOk(cs[0]) && Chunks(cs)[1..] == Chunks(cs[1..]);
      NoTerminatorAccumulates(id, next, cs[1..]);
      assert Messages(id, []) == [];
    }
  }

  /**
   * A stream that never carries CR LF and then closes yields exactly one
   * message, equal to all bytes fed, followed by the close.
   */
  lemma NoTerminatorThenClose(id: string, cs: seq<Bytes>)
    requires forall i :: 0 <= i < |cs| ==> cs[i] != []
    requires !HasCrlf(Concat(cs)) && Concat(cs) != []
    ensures Transcript(id, [], Chunks(cs) + [ReadOk([])]).events ==
      [MessagePayload(id, Concat(cs)), DisconnectedPayload(id)]
  {
    assert [] + Concat(cs) == Concat(cs);
    NoTerminatorAccumulates(id, [], cs);
    TranscriptAppend(id, [], Chunks(cs), [ReadOk([])]);
    TranscriptSingle(id, Concat(cs), ReadOk([]));
  }

  /** Cutting the first line of the buffer moves it from the buffer's frames to the cut ones. */
  lemma CutOne(whole: Bytes, cut: seq<Bytes>, buf: Bytes)
    requires SplitFrames(whole) == (cut + SplitFrames(buf).0, SplitFrames(buf).1)
    requires FindCrlf(buf).Some?
    ensures var pos := FindCrlf(buf).value;
      var rest := buf[pos + 2..];
      SplitFrames(whole) == ((cut + [buf[..pos + 2]]) + SplitFrames(rest).0, SplitFrames(rest).1)
  {
    var pos := FindCrlf(buf).value;
    var rest := buf[pos + 2..];
    SplitFramesUnfold(buf);
    assert cut + ([buf[..pos + 2]] + SplitFrames(rest).0) == (cut + [buf[..pos + 2]]) + SplitFrames(rest).0;
  }

  /** Emitting one more line's event extends the events of the lines cut so far. */
  lemma MessagesSnoc(id: string, before: seq<ReceivedPayload>, cut: seq<Bytes>, line: Bytes)
    ensures (before + Messages(id, cut)) + [MessagePayload(id, line)] == before + Messages(id, cut + [line])
  {
    MessagesAppend(id, cut, [line]);
    MessagesOne(id, line);
    assert (before + Messages(id, cut)) + Messages(id, [line]) == before + (Messages(id, cut) + Messages(id, [line]));
  }

  lemma MessagesOne(id: string, f: Bytes)
    ensures Messages(id, [f]) == [MessagePayload(id, f)]
  {
    assert Messages(id, [f])[0] == MessagePayload(id, f);
  }

  lemma MessagesPair(id: string, a: Bytes, b: Bytes)
    ensures Messages(id, [a, b]) == [MessagePayload(id, a), MessagePayload(id, b)]
  {
    var m := Messages(id, [a, b]);
    assert m[0] == MessagePayload(id, a) && m[1] == MessagePayload(id, b);
  }

  /** A data read whose bytes split into `fs` and `rest` emits `fs` and keeps `rest`. */
  lemma DataStep(id: string, buf: Bytes, chunk: Bytes, fs: seq<Bytes>, rest: Bytes)
    requires chunk != [] && SplitFrames(buf + chunk) == (fs, rest)
    ensures ReadStep(id, buf, ReadOk(chunk)) == StepResult(Messages(id, fs), rest, Reading)
  {
  }

  /** Two reads, the first of which leaves the loop running, are two steps one after the other. */
  lemma TranscriptPair(id: string, buf: Bytes, r1: ReadOutcome, r2: ReadOutcome)
    requires ReadStep(id, buf, r1).phase == Reading
    ensures var s1 := ReadStep(id, buf, r1);
      var s2 := ReadStep(id, s1.buffer, r2);
      Transcript(id, buf, [r1, r2]) == StepResult(s1.events + s2.events, s2.buffer, s2.phase)
  {
    assert [r1, r2][1..] == [r2];
    TranscriptSingle(id, ReadStep(id, buf, r1).buffer, r2);
  }

  /**
   * Two data reads on an empty buffer: the lines cut from the first, then the
   * lines cut from what it left joined with the second.
   */
  lemma TwoDataReads(id: string, first: Bytes, second: Bytes, fs1: seq<Bytes>, rest1: Bytes, fs2: seq<Bytes>, rest2: Bytes)
    requires first != [] && second != []
    requires SplitFrames(first) == (fs1, rest1) && SplitFrames(rest1 + second) == (fs2, rest2)
    ensures Transcript(id, [], [ReadOk(first), ReadOk(second)]) == StepResult(Messages(id, fs1) + Messages(id, fs2), rest2, Reading)
  {
    assert [] + first == first;
    DataStep(id, [], first, fs1, rest1);
    DataStep(id, rest1, second, fs2, rest2);
    TranscriptPair(id, [], ReadOk(first), ReadOk(second));
  }

  /**
   * Two whole lines followed by a partial one emit the two lines and keep the
   * partial one; a later read of CR LF completes it into a third line and
   * leaves the buffer empty.
   */
  lemma PartialLineCompleted(id: string, a: Bytes, b: Bytes, c: Bytes)
    requires IsFrame(a) && IsFrame(b) && !HasCrlf(c)
    ensures Transcript(id, [], [ReadOk(a + b + c), ReadOk(CRLF)]) ==
      StepResult([MessagePayload(id, a), MessagePayload(id, b), MessagePayload(id, c + CRLF)], [], Reading)
  {
    var line := c + CRLF;
    SplitTwoFrames(a, b, c);
    CompletedRemainder(c);
    TwoDataReads(id, a + b + c, CRLF, [a, b], c, [line], []);
    MessagesPair(id, a, b);
    MessagesOne(id, line);
  }

  /** The read task of one connection. */
  class ReadTask {
    const clientId: string
    const app: EventSink
    var lineBuffer: Bytes
    var phase: Phase

    constructor (clientId: string, app: EventSink)
      ensures this.clientId == clientId && this.app == app
      ensures lineBuffer == [] && phase == Reading
    {
      this.clientId := clientId;
      this.app := app;
      lineBuffer := [];
      phase := Reading;
    }

    /**
     * The `Ok(n)` arm: append the bytes read, then cut and emit lines at the
     * first CR LF until none is left.
     */
    method Feed(chunk: Bytes)
      modifies this`lineBuffer, app
      ensures lineBuffer == SplitFrames(old(lineBuffer) + chunk).1
      ensures app.emitted == old(app.emitted) + Messages(clientId, SplitFrames(old(lineBuffer) + chunk).0)
    {
      lineBuffer := lineBuffer + chunk;
      ghost var whole := lineBuffer;
      ghost var cut: seq<Bytes> := [];
      assert [] + SplitFrames(lineBuffer).0 == SplitFrames(lineBuffer).0;
      assert Messages(clientId, cut) == [];
      while true
        invariant SplitFrames(whole).0 == cut + SplitFrames(lineBuffer).0
        invariant SplitFrames(whole).1 == SplitFrames(lineBuffer).1
        invariant app.emitted == old(app.emitted) + Messages(clientId, cut)
        decreases |lineBuffer|
      {
        var pos := FindCrlf(lineBuffer);
        if pos.None? {
          break;
        }
        var line := lineBuffer[..pos.value + 2];
        CutOne(whole, cut, lineBuffer);
        MessagesSnoc(clientId, old(app.emitted), cut, line);
        lineBuffer := lineBuffer[pos.value + 2..];
        app.Emit(MessagePayload(clientId, line));
        cut := cut + [line];
      }
      SplitFramesUnfold(lineBuffer);
      assert cut + [] == cut;
    }

    /**
     * One turn of the loop of `read_task`: a close flushes the remainder,
     * reports the close and removes the client's entry; an error reports
     * itself and removes the entry; data is cut into lines.
     */
    method Step(r: ReadOutcome, state: SocketState)
      requires phase == Reading && state.Valid()
      modifies this, app, state, state.Writers(clientId)
      ensures state.Valid()
      ensures var s := ReadStep(clientId, old(lineBuffer), r);
        app.emitted == old(app.emitted) + s.events && lineBuffer == s.buffer && phase == s.phase
      ensures state.connections == if phase == Reading then old(state.connections) else old(state.connections) - {clientId}
      ensures clientId in old(state.connections) ==>
        var w := old(state.connections)[clientId].writeTx;
        w.State() == old(w.State()).(shutdownReady := phase != Reading || old(w.shutdownReady))
    {
      match r {
        case ReadOk(chunk) =>
          if chunk == [] {
            if lineBuffer != [] {
              app.Emit(MessagePayload(clientId, lineBuffer));
            }
            app.Emit(DisconnectedPayload(clientId));
            state.Remove(clientId);
            phase := Closed;
          } else {
            Feed(chunk);
          }
        case ReadErr(e) =>
          app.Emit(ReadErrorPayload(clientId, e));
          state.Remove(clientId);
          phase := Failed;
      }
    }

    /**
     * The loop of `read_task` over the read outcomes `trace` delivers: it emits what
     * the transcript says, keeps the buffer it says, and once closed or
     * failed has removed the client's entry from the registry (dropping its
     * handle) and touched no other entry.
     */
    method Run(trace: seq<ReadOutcome>, state: SocketState)
      requires phase == Reading && state.Valid()
      modifies this, app, state, state.Writers(clientId)
      ensures state.Valid()
      ensures var t := Transcript(clientId, old(lineBuffer), trace);
        app.emitted == old(app.emitted) + t.events && lineBuffer == t.buffer && phase == t.phase
      ensures state.connections == if phase == Reading then old(state.connections) else old(state.connections) - {clientId}
      ensures clientId in old(state.connections) ==>
        var w := old(state.connections)[clientId].writeTx;
        w.State() == old(w.State()).(shutdownReady := phase != Reading || old(w.shutdownReady))
    {
      ghost var start := lineBuffer;
      ghost var oldEmitted := app.emitted;
      ghost var oldConnections := state.connections;
      var i := 0;
      assert trace[..0] == [];
      while i < |trace| && phase == Reading
        invariant 0 <= i <= |trace|
        invariant state.Valid()
        invariant var t := Transcript(clientId, start, trace[..i]);
          app.emitted == oldEmitted + t.events && lineBuffer == t.buffer && phase == t.phase
        invariant state.connections == if phase == Reading then oldConnections else oldConnections - {clientId}
        invariant clientId in oldConnections ==>
          var w := oldConnections[clientId].writeTx;
          w.State() == old(w.State()).(shutdownReady := phase != Reading || old(w.shutdownReady))
        decreases |trace| - i
      {
        TranscriptNext(clientId, start, trace, i, oldEmitted);
        Step(trace[i], state);
        i := i + 1;
      }
      TranscriptStopped(clientId, start, trace, i);
    }
  }
}
