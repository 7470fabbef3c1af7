/**
 * The write side of a connection: the outbound queue, the CR LF normaliser
 * and the write task that drains the queue onto the stream until a write
 * fails or the shutdown signal is selected.
 */
module Outbound {
  import opened Wrappers
  import opened Text

  const LINE_END: string := "\r\n"

  /**
   * The normaliser of `write_task`: a line that already ends with CR LF is
   * sent as it is, any other line gets exactly one CR LF appended.
   */
  function WithCrlf(data: string): (r: string)
    ensures EndsWith(r, LINE_END) && StartsWith(r, data)
    ensures |r| == |data| + (if EndsWith(data, LINE_END) then 0 else 2)
  {
    if EndsWith(data, LINE_END) then data else data + LINE_END
  }

  /** Normalising twice is normalising once. */
  lemma WithCrlfIdempotent(data: string)
    ensures WithCrlf(WithCrlf(data)) == WithCrlf(data)
  {
    var once := WithCrlf(data);
    assert once[..|once|] == once;
  }

  /** What reaches the stream for a run of payloads: each one normalised, in order. */
  function Lines(items: seq<string>): string
  {
    if items == [] then [] else WithCrlf(items[0]) + Lines(items[1..])
  }

  /** The lines of two runs of payloads follow each other. */
  lemma {:induction false} LinesAppend(a: seq<string>, b: seq<string>)
    ensures Lines(a + b) == Lines(a) + Lines(b)
  {
    if a == [] {
      assert a + b == b;
    } else {
      assert (a + b)[1..] == a[1..] + b;
      LinesAppend(a[1..], b);
    }
  }

  /** How a `write_all` + `flush` of one line turned out. */
  datatype WriteOutcome = Written | WriteFailed(e: string) | FlushFailed(e: string)

  /** Which arm of the `select!` completed: a payload came off the queue, or the shutdown receiver fired. */
  datatype Selected = Received(outcome: WriteOutcome) | ShutdownSelected

  /** The write task's life: still looping, shut down on request, or stopped by an I/O error (with its log line). */
  datatype WriterStatus = Running | ShutDown | Failed(log: string)

  /**
   * The state shared by a connection's handle and its write task: the queued
   * payloads, the text already written, the task's status, and whether the
   * shutdown receiver has completed (signal sent, or its sender dropped).
   */
  datatype WriterState = WriterState(queue: seq<string>, wire: string, status: WriterStatus, shutdownReady: bool)

  /** One turn of the write loop. */
  function WriteStep(s: WriterState, sel: Selected): (r: WriterState)
    // a stopped task does nothing; the shutdown flag is an input of the write task, never its output
    ensures !s.status.Running? ==> r == s
    ensures r.shutdownReady == s.shutdownReady
    // only a running task with a queued payload or a completed shutdown receiver moves
    ensures r != s ==> s.status.Running? && (s.queue != [] || (sel.ShutdownSelected? && s.shutdownReady))
  {
    if !s.status.Running? then s
    else match sel
      case Received(outcome) =>
        if s.queue == [] then s
        else
          var line := WithCrlf(s.queue[0]);
          (match outcome
           case Written => s.(queue := s.queue[1..], wire := s.wire + line)
           case WriteFailed(e) => s.(queue := s.queue[1..], status := Failed("Write error: " + e))
           case FlushFailed(e) => s.(queue := s.queue[1..], wire := s.wire + line, status := Failed("Flush error: " + e)))
      case ShutdownSelected =>
        if s.shutdownReady then s.(status := ShutDown) else s
  }

  /** The write loop over a schedule of completed `select!` arms. */
  function WriteRun(s: WriterState, schedule: seq<Selected>): (r: WriterState)
    // the shutdown flag is never changed by the write loop
    ensures r.shutdownReady == s.shutdownReady
    decreases |schedule|
  {
    if schedule == [] then s else WriteRun(WriteStep(s, schedule[0]), schedule[1..])
  }

  /** One turn takes at most the head of the queue and only appends to the stream. */
  lemma WriteStepMonotone(s: WriterState, sel: Selected)
    ensures var r := WriteStep(s, sel);
      EndsWith(s.queue, r.queue) && |s.queue| - |r.queue| <= 1 && StartsWith(r.wire, s.wire)
  {
    var took, wrote := WriteStepShape(s, sel);
    var r := WriteStep(s, sel);
    if took {
      assert s.queue[|s.queue| - |r.queue|..] == s.queue[1..];
      var line := if wrote then WithCrlf(s.queue[0]) else [];
      assert (s.wire + line)[..|s.wire|] == s.wire;
    } else {
      assert s.queue[|s.queue| - |s.queue|..] == s.queue;
      assert s.wire[..|s.wire|] == s.wire;
    }
  }

  /** At most one payload leaves the queue per turn, and what is written stays written. */
  lemma {:induction false} WriteRunMonotone(s: WriterState, schedule: seq<Selected>)
    ensures var r := WriteRun(s, schedule);
      EndsWith(s.queue, r.queue) && |s.queue| - |r.queue| <= |schedule| && StartsWith(r.wire, s.wire)
    decreases |schedule|
  {
    if schedule == [] {
      assert s.queue[|s.queue| - |s.queue|..] == s.queue && s.wire[..|s.wire|] == s.wire;
    } else {
      var s1 := WriteStep(s, schedule[0]);
      var r := WriteRun(s1, schedule[1..]);
      WriteStepMonotone(s, schedule[0]);
      WriteRunMonotone(s1, schedule[1..]);
      EndsWithTrans(s.queue, s1.queue, r.queue);
      StartsWithTrans(r.wire, s1.wire, s.wire);
    }
  }

  /** A task that has stopped stays as it is. */
  lemma {:induction false} WriteRunStopped(s: WriterState, schedule: seq<Selected>)
    requires !s.status.Running?
    ensures WriteRun(s, schedule) == s
    decreases |schedule|
  {
    if schedule != [] {
      WriteRunStopped(s, schedule[1..]);
    }
  }

  /** The lines of a single payload are that payload normalised. */
  lemma LinesSingle(x: string)
    ensures Lines([x]) == WithCrlf(x)
  {
    assert [x][1..] == [];
  }

  /**
   * One turn of the loop either leaves queue and stream alone (an arm that
   * was not ready, or the shutdown), or takes the head of the queue and
   * writes its normalised line, unless the write failed and the task stopped.
   */
  lemma WriteStepShape(s: WriterState, sel: Selected) returns (took: bool, wrote: bool)
    ensures var s' := WriteStep(s, sel);
      && s'.shutdownReady == s.shutdownReady
      && (!s.status.Running? ==> s' == s)
      && (!took ==> s'.queue == s.queue && s'.wire == s.wire
                    && (s'.status == s.status || (s'.status == ShutDown && s.shutdownReady)))
      && (took ==> s.queue != [] && s'.queue == s.queue[1..]
                   && s'.wire == s.wire + (if wrote then WithCrlf(s.queue[0]) else [])
                   && (!wrote ==> s'.status.Failed?))
  {
    took := s.status.Running? && sel.Received? && s.queue != [];
    wrote := took && !sel.outcome.WriteFailed?;
  }

  /**
   * The loop never changes the signal state, and it only shuts down when the
   * shutdown receiver has completed.
   */
  lemma {:induction false} WriteRunShutdown(s: WriterState, schedule: seq<Selected>)
    ensures WriteRun(s, schedule).shutdownReady == s.shutdownReady
    ensures WriteRun(s, schedule).status == ShutDown ==> s.status == ShutDown || s.shutdownReady
    decreases |schedule|
  {
    if schedule != [] {
      WriteRunShutdown(WriteStep(s, schedule[0]), schedule[1..]);
    }
  }

  /**
   * The write loop sends a prefix of the queue, in queue order, each payload
   * normalised exactly once; what it took but could not write is at most the
   * one payload whose write failed.
   */
  lemma {:induction false} WriteRunInOrder(s: WriterState, schedule: seq<Selected>) returns (taken: nat, written: nat)
    ensures written <= taken <= |s.queue|
    ensures WriteRun(s, schedule).queue == s.queue[taken..]
    ensures WriteRun(s, schedule).wire == s.wire + Lines(s.queue[..written])
    ensures written < taken ==> written + 1 == taken && WriteRun(s, schedule).status.Failed?
    decreases |schedule|
  {
    if schedule == [] {
      taken, written := 0, 0;
      assert s.queue[0..] == s.queue;
      return;
    }
    var s' := WriteStep(s, schedule[0]);
    var rest := schedule[1..];
    assert WriteRun(s, schedule) == WriteRun(s', rest);
    var took, wrote := WriteStepShape(s, schedule[0]);
    if !took {
      taken, written := WriteRunInOrder(s', rest);
    } else if !wrote {
      WriteRunStopped(s', rest);
      taken, written := 1, 0;
      assert s.wire + Lines(s.queue[..0]) == s.wire;
    } else {
      var k, w := WriteRunInOrder(s', rest);
      taken, written := k + 1, w + 1;
      WrittenHead(s.queue, s'.queue, k, w);
    }
  }

  /** Taking one written payload off the front shifts the counts by one. */
  lemma WrittenHead(q: seq<string>, q': seq<string>, k: nat, w: nat)
    requires q != [] && q' == q[1..] && w <= k <= |q'|
    ensures q[..w + 1] == [q[0]] + q'[..w] && q[k + 1..] == q'[k..]
    ensures WithCrlf(q[0]) + Lines(q'[..w]) == Lines(q[..w + 1])
  {
    assert q[..w + 1] == [q[0]] + q'[..w];
    LinesAppend([q[0]], q'[..w]);
    LinesSingle(q[0]);
  }

  /**
   * N payloads queued before a run of N successful writes all reach the
   * stream, in the order they were queued, each with one line ending.
   */
  lemma {:induction false} DrainWritesAll(s: WriterState, schedule: seq<Selected>)
    requires s.status == Running
    requires |schedule| == |s.queue|
    requires forall i :: 0 <= i < |schedule| ==> schedule[i] == Received(Written)
    ensures WriteRun(s, schedule) == s.(queue := [], wire := s.wire + Lines(s.queue))
    decreases |schedule|
  {
    if schedule == [] {
      assert s.queue == [];
    } else {
      var s' := WriteStep(s, schedule[0]);
      var line := WithCrlf(s.queue[0]);
      assert s' == s.(queue := s.queue[1..], wire := s.wire + line);
      DrainWritesAll(s', schedule[1..]);
      assert WriteRun(s, schedule) == WriteRun(s', schedule[1..]);
      assert Lines(s.queue) == line + Lines(s.queue[1..]);
      assert s'.wire + Lines(s'.queue) == s.wire + Lines(s.queue);
    }
  }

  /**
   * The write task.  Its queue stands for the `mpsc` channel (the handle holds
   * the sending end, the task the receiving end); `shutdownReady` for the
   * `oneshot` receiver having completed.
   */
  class WriteTask {
    var queue: seq<string>
    var wire: string
    var status: WriterStatus
    var shutdownReady: bool

    function State(): WriterState
      reads this
    {
      WriterState(queue, wire, status, shutdownReady)
    }

    /** A freshly spawned task: nothing queued or written, waiting in its loop. */
    constructor ()
      ensures State() == WriterState([], [], Running, false)
    {
      queue, wire, status, shutdownReady := [], [], Running, false;
    }

    /**
     * `write_tx.send(data)`: queued behind everything sent before; it fails
     * only once the task has exited and dropped its receiver.
     */
    method Enqueue(data: string) returns (r: Result<()>)
      modifies this
      ensures r.Ok? <==> old(status) == Running
      ensures r.Err? ==> r.error == "Failed to send data: channel closed"
      ensures State() == if r.Ok? then old(State()).(queue := old(queue) + [data]) else old(State())
    {
      if status == Running {
        queue := queue + [data];
        r := Ok(());
      } else {
        r := Err("Failed to send data: channel closed");
      }
    }

    /** `shutdown_tx.send(())`, or the drop of `shutdown_tx`: either completes the receiver. */
    method SignalShutdown()
      modifies this
      ensures State() == old(State()).(shutdownReady := true)
    {
      shutdownReady := true;
    }

    /** The loop of `write_task`, taking the arms of `select!` in the order `schedule` gives. */
    method Run(schedule: seq<Selected>)
      modifies this
      ensures State() == WriteRun(old(State()), schedule)
    {
      var i := 0;
      while i < |schedule| && status == Running
        invariant 0 <= i <= |schedule|
        invariant WriteRun(old(State()), schedule) == WriteRun(State(), schedule[i..])
        decreases |schedule| - i
      {
        assert schedule[i..] == [schedule[i]] + schedule[i + 1..];
        match schedule[i] {
        case Received(outcome) =>
          if queue != [] {
            var line := WithCrlf(queue[0]);
            queue := queue[1..];
            match outcome {
              case Written =>
                wire := wire + line;
              case WriteFailed(e) =>
                status := Failed("Write error: " + e);
              case FlushFailed(e) =>
                wire := wire + line;
                status := Failed("Flush error: " + e);
            }
          }
        case ShutdownSelected =>
          if shutdownReady {
            status := ShutDown;
          }
        }
        i := i + 1;
      }
      if i < |schedule| {
        WriteRunStopped(State(), schedule[i..]);
      }
    }
  }
}
