// The asynchronous logger of src/logger/async_logger.hpp. Producers append
// entries to a queue; one consumer thread waits until it is stopped or the
// queue is non-empty, writes every queued entry as one line, and ends once it
// is stopped with nothing left. The model runs one step at a time: the
// consumer's rounds are explicit calls, the output file is the sequence of
// lines written to it, and the clock reading is the timestamp text that
// `put_time` would print.

module AsyncLogger {
  import opened Wrappers

  /** `LogEntry`: the formatted timestamp, the level and the message. */
  datatype LogEntry = LogEntry(timestamp: string, level: string, message: string)

  /** The consumer thread: none (never started, or joined), waiting on the
      condition variable, or finished and not yet joined. */
  datatype Consumer = NoThread | Waiting | Exited

  /** `format_log_entry`: "[" timestamp "] [" level "] " message. */
  function FormatLogEntry(e: LogEntry): (r: string)
    ensures |r| == |e.timestamp| + |e.level| + |e.message| + 6
    ensures r[..|e.timestamp| + 1] == "[" + e.timestamp
    ensures r[|r| - |e.message|..] == e.message
  {
    "[" + e.timestamp + "]" + " [" + e.level + "] " + e.message
  }

  /** The lines a drain pass writes for `es`, one per entry, in order. */
  function Lines(es: seq<LogEntry>): (r: seq<string>)
    ensures |r| == |es|
    ensures forall i :: 0 <= i < |es| ==> r[i] == FormatLogEntry(es[i]) + "\n"
  {
    if es == [] then [] else [FormatLogEntry(es[0]) + "\n"] + Lines(es[1..])
  }

  lemma LinesAppend(es: seq<LogEntry>, e: LogEntry)
    ensures Lines(es + [e]) == Lines(es) + [FormatLogEntry(e) + "\n"]
  {
  }

  /** The first position at or after `from` holding `c`, or `|s|`. */
  function IndexOf(s: string, c: char, from: nat): (r: nat)
    requires from <= |s|
    ensures from <= r <= |s|
    ensures r < |s| ==> s[r] == c
    ensures forall k :: from <= k < r ==> s[k] != c
    decreases |s| - from
  {
    if from == |s| then |s|
    else if s[from] == c then from
    else IndexOf(s, c, from + 1)
  }

  /** Reads a line of the `format_log_entry` layout back into its parts. */
  function ParseLogLine(s: string): Option<LogEntry>
  {
    if |s| == 0 || s[0] != '[' then None
    else
      var i := IndexOf(s, ']', 1);
      if i + 3 > |s| || s[i..i + 3] != "] [" then None
      else
        var j := IndexOf(s, ']', i + 3);
        if j + 2 > |s| || s[j..j + 2] != "] " then None
        else Some(LogEntry(s[1..i], s[i + 3..j], s[j + 2..]))
  }

  /** Every line can be read back: timestamp, level and message are recovered
      whenever neither the timestamp nor the level contains ']'. */
  lemma {:induction false} FormatRoundTrip(e: LogEntry)
    requires ']' !in e.timestamp && ']' !in e.level
    ensures ParseLogLine(FormatLogEntry(e)) == Some(e)
  {
    var s := FormatLogEntry(e);
    var t, l, m := e.timestamp, e.level, e.message;
    var i := 1 + |t|;
    var j := i + 3 + |l|;
    assert s[0] == '[';
    assert s[1..i] == t;
    assert s[i..i + 3] == "] [";
    assert s[i + 3..j] == l;
    assert s[j..j + 2] == "] ";
    assert s[j + 2..] == m;
    assert IndexOf(s, ']', 1) == i by {
      forall k | 1 <= k < i ensures s[k] != ']' {
        assert s[k] == t[k - 1];
      }
      IndexOfFirst(s, ']', 1, i);
    }
    assert IndexOf(s, ']', i + 3) == j by {
      forall k | i + 3 <= k < j ensures s[k] != ']' {
        assert s[k] == l[k - i - 3];
      }
      IndexOfFirst(s, ']', i + 3, j);
    }
  }

  /** `IndexOf` finds the first occurrence. */
  lemma IndexOfFirst(s: string, c: char, from: nat, at: nat)
    requires from <= at < |s| && s[at] == c
    requires forall k :: from <= k < at ==> s[k] != c
    ensures IndexOf(s, c, from) == at
  {
  }

  class Logger {
    /** `running_`. */
    var running: bool
    /** `log_queue_`: appended entries not yet written. */
    var pending: seq<LogEntry>
    /** The lines written to the log file, oldest first. */
    var written: seq<string>
    var consumer: Consumer

    /** The private constructor: not running, nothing queued or written. */
    constructor ()
      ensures !running && pending == [] && written == [] && consumer == NoThread
    {
      running, pending, written, consumer := false, [], [], NoThread;
    }

    /** The condition the consumer waits for: stopped, or something queued. */
    predicate Woken()
      reads this
    {
      !running || pending != []
    }

    /** `append`: the entry goes to the back of the queue. */
    method Append(e: LogEntry)
      modifies this
      ensures pending == old(pending) + [e]
      ensures running == old(running) && written == old(written) && consumer == old(consumer)
    {
      pending := pending + [e];
    }

    /** `start`: running, and a consumer thread begins; it ends at once,
        before writing anything, when the log file cannot be opened. */
    method Start(fileOpens: bool)
      requires consumer == NoThread
      modifies this
      ensures running
      ensures consumer == (if fileOpens then Waiting else Exited)
      ensures pending == old(pending) && written == old(written)
    {
      running := true;
      consumer := if fileOpens then Waiting else Exited;
    }

    /** One pass of the consumer's loop once woken: every queued entry is
        written as one line, in queue order, and the queue is left empty;
        the consumer ends exactly when it has been stopped. */
    method Round() returns (exit: bool)
      requires consumer == Waiting && Woken()
      modifies this
      ensures written == old(written) + Lines(old(pending))
      ensures pending == []
      ensures exit <==> !running
      ensures running == old(running)
      ensures consumer == (if exit then Exited else Waiting)
    {
      ghost var queued := pending;
      var k := 0;
      while pending != []
        invariant 0 <= k <= |queued|
        invariant pending == queued[k..]
        invariant written == old(written) + Lines(queued[..k])
        invariant running == old(running) && consumer == old(consumer)
        decreases |pending|
      {
        var entry := pending[0];
        assert queued[..k + 1] == queued[..k] + [entry];
        LinesAppend(queued[..k], entry);
        written := written + [FormatLogEntry(entry) + "\n"];
        pending := pending[1..];
        k := k + 1;
      }
      assert queued[..k] == queued;
      if !running && pending == [] {
        consumer := Exited;
        return true;
      }
      return false;
    }

    /** `stop`: running is cleared, the consumer is woken, drains what is
        left and ends, and is joined. Everything appended before `stop` is
        in the file afterwards, unless the consumer never opened it. */
    method Stop()
      modifies this
      ensures !running && consumer == NoThread
      ensures old(consumer) == Waiting ==> written == old(written) + Lines(old(pending)) && pending == []
      ensures old(consumer) != Waiting ==> written == old(written) && pending == old(pending)
    {
      running := false;
      if consumer == Waiting {
        var exit := Round();
      }
      consumer := NoThread;
    }
  }

  /** The logger test with the `start` its comment takes for granted: two
      entries appended after `start` are both in the file, in order, once
      `stop` returns. */
  method StopFlushesScenario(a: LogEntry, b: LogEntry) returns (lines: seq<string>)
    ensures lines == [FormatLogEntry(a) + "\n", FormatLogEntry(b) + "\n"]
  {
    var logger := new Logger();
    logger.Start(true);
    logger.Append(a);
    logger.Append(b);
    logger.Stop();
    lines := logger.written;
  }

  /** The logger test as written: it never calls `start`, and the
      constructor does not start the consumer, so `stop` finds no thread to
      join and the appended entries stay queued, unwritten. */
  method UnstartedStopWritesNothing(a: LogEntry, b: LogEntry) returns (lines: seq<string>, left: seq<LogEntry>)
    ensures lines == [] && left == [a, b]
  {
    var logger := new Logger();
    logger.Append(a);
    logger.Append(b);
    logger.Stop();
    lines, left := logger.written, logger.pending;
  }
}
