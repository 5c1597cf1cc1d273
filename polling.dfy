/**
 One cycle of the polling loop `run_every_sec`, as a function of what the
 cycle observes: the watched path read at the start of the cycle, the file
 system at that moment, whether the status channel still accepts commands,
 and how long the cycle's work took. Durations are natural numbers of one
 fixed time unit (the source measures them as `Duration`s and waits 1000 ms).
 */
module Polling {
  import opened Wrappers
  import opened Text
  import opened Status

  /** `std::fs::read_to_string`: the file's text, or an error. */
  datatype ReadResult = Contents(text: string) | ReadError(message: string)

  /** What one cycle observes. */
  datatype CycleInput = CycleInput(
    path: Option<string>,              // the watched path, read once at cycle start
    readFile: string -> ReadResult,    // the file system during this cycle
    channelOpen: bool,                 // `submit_command` succeeds
    runtime: nat                       // time elapsed since the cycle started
  )

  /**
   What one cycle did: the status handed to the channel (if any), whether
   the loop goes on, and the sleep it takes before the next cycle (if any).
   */
  datatype CycleOutcome = CycleOutcome(submitted: Option<ScanResult>, continues: bool, sleep: Option<nat>)

  /** `Duration::checked_sub`: the difference, or nothing when it would be negative. */
  function CheckedSub(wait: nat, runtime: nat): (r: Option<nat>)
    ensures r.Some? <==> runtime <= wait
    ensures r.Some? ==> r.value + runtime == wait
  {
    if runtime <= wait then Some(wait - runtime) else None
  }

  /**
   A path is read only when one is set and its byte length is positive,
   which holds exactly for the paths that are not the empty string.
   */
  function HasPath(path: Option<string>): (has: bool)
    ensures has <==> path.Some? && path.value != []
  {
    path.Some? && Utf8Len(path.value) > 0
  }

  /** The file read succeeds in this cycle, which needs a set, non-empty path. */
  function ReadSucceeds(input: CycleInput): (ok: bool)
    ensures ok ==> input.path.Some? && input.path.value != []
  {
    HasPath(input.path) && input.readFile(input.path.value).Contents?
  }

  /** The text a successful read returns. */
  function ReadText(input: CycleInput): string
    requires ReadSucceeds(input)
  {
    input.readFile(input.path.value).text
  }

  /**
   One iteration of the loop body: read the file if a path is set, classify
   its contents and submit the status; stop if the submission fails,
   otherwise sleep for what remains of `wait`.
   */
  function Cycle(input: CycleInput, wait: nat): (r: CycleOutcome)
    ensures r.submitted.Some? <==> ReadSucceeds(input)
    ensures ReadSucceeds(input) ==>
      r.submitted == Some(Scan(input.readFile(input.path.value).text))
    ensures !r.continues <==> ReadSucceeds(input) && !input.channelOpen
    ensures r.continues ==> r.sleep == CheckedSub(wait, input.runtime)
    ensures !r.continues ==> r.sleep == None
  {
    var submitted :=
      if HasPath(input.path) then
        match input.readFile(input.path.value)
        case Contents(text) => Some(Scan(text))
        case ReadError(_) => None
      else None;
    if submitted.Some? && !input.channelOpen then CycleOutcome(submitted, false, None)
    else CycleOutcome(submitted, true, CheckedSub(wait, input.runtime))
  }

  /** Without a (non-empty) path the file system is not consulted and nothing is submitted. */
  lemma NoPathNoRead(input: CycleInput, other: string -> ReadResult, wait: nat)
    requires !HasPath(input.path)
    ensures Cycle(input, wait) == Cycle(input.(readFile := other), wait)
    ensures Cycle(input, wait).submitted == None && Cycle(input, wait).continues
  {
  }

  /** A failed read submits nothing and the loop goes on. */
  lemma ReadErrorSkips(input: CycleInput, wait: nat)
    requires HasPath(input.path) && input.readFile(input.path.value).ReadError?
    ensures Cycle(input, wait).submitted == None && Cycle(input, wait).continues
  {
  }

  /** The time a continuing cycle actually sleeps. */
  function SleptTime(r: CycleOutcome): (t: nat)
  {
    if r.sleep.Some? then r.sleep.value else 0
  }

  /**
   Cadence: a continuing cycle lasts `wait` from start to start when its work
   fits in `wait`, and exactly its work time when it overran.
   */
  lemma CycleLength(input: CycleInput, wait: nat)
    requires Cycle(input, wait).continues
    ensures input.runtime + SleptTime(Cycle(input, wait)) ==
      if input.runtime <= wait then wait else input.runtime
  {
  }

  /**
   The outcomes of running the loop over successive cycles: one per cycle,
   up to and including the first cycle that stops the loop.
   */
  function Trace(inputs: seq<CycleInput>, wait: nat): (outcomes: seq<CycleOutcome>)
    ensures |outcomes| <= |inputs|
    ensures inputs != [] ==> outcomes != []
    ensures inputs != [] ==> outcomes[0] == Cycle(inputs[0], wait)
  {
    if inputs == [] then []
    else
      var first := Cycle(inputs[0], wait);
      if !first.continues then [first]
      else [first] + Trace(inputs[1..], wait)
  }

  /**
   The trace is the cycles' own outcomes, in order; every cycle but the last
   continued, and the trace ends early only at a cycle that stopped the loop.
   */
  lemma {:induction false} TraceShape(inputs: seq<CycleInput>, wait: nat)
    ensures var outcomes := Trace(inputs, wait);
      && (forall k :: 0 <= k < |outcomes| ==> outcomes[k] == Cycle(inputs[k], wait))
      && (forall k :: 0 <= k < |outcomes| - 1 ==> outcomes[k].continues)
      && (|outcomes| < |inputs| ==> !outcomes[|outcomes| - 1].continues)
  {
    if inputs != [] && Cycle(inputs[0], wait).continues {
      var rest := inputs[1..];
      TraceShape(rest, wait);
      var outcomes := Trace(inputs, wait);
      forall k | 0 <= k < |outcomes|
        ensures outcomes[k] == Cycle(inputs[k], wait)
      {
        if k > 0 {
          assert outcomes[k] == Trace(rest, wait)[k - 1];
          assert inputs[k] == rest[k - 1];
        }
      }
    }
  }

  /** Running from cycle `i` on: cycle `i`, then the rest only if it continued. */
  lemma TraceFrom(inputs: seq<CycleInput>, i: nat, wait: nat)
    requires i < |inputs|
    ensures var first := Cycle(inputs[i], wait);
      Trace(inputs[i..], wait) ==
        if first.continues then [first] + Trace(inputs[i + 1..], wait) else [first]
  {
    assert inputs[i..][0] == inputs[i];
    assert inputs[i..][1..] == inputs[i + 1..];
  }

  /**
   Cycles in which no read succeeds never stop the loop and submit nothing:
   an unset path or a missing file leaves the loop polling.
   */
  lemma QuietCyclesNeverStop(inputs: seq<CycleInput>, wait: nat)
    requires forall k :: 0 <= k < |inputs| ==> !ReadSucceeds(inputs[k])
    ensures |Trace(inputs, wait)| == |inputs|
    ensures forall k :: 0 <= k < |inputs| ==> Trace(inputs, wait)[k].submitted == None
  {
    TraceShape(inputs, wait);
  }

  /** The loop stops only at a cycle whose status the channel refused. */
  lemma StopsOnlyOnClosedChannel(inputs: seq<CycleInput>, wait: nat)
    requires |Trace(inputs, wait)| < |inputs|
    ensures var k := |Trace(inputs, wait)| - 1;
      ReadSucceeds(inputs[k]) && !inputs[k].channelOpen
  {
    TraceShape(inputs, wait);
  }

  /**
   The checker's contents after running the loop over `inputs` from the
   contents `t0`: every cycle whose read succeeds replaces them, up to and
   including the cycle that stops the loop.
   */
  function FinalText(inputs: seq<CycleInput>, wait: nat, t0: string): string
  {
    if inputs == [] then t0
    else
      var t1 := if ReadSucceeds(inputs[0]) then ReadText(inputs[0]) else t0;
      if Cycle(inputs[0], wait).continues then FinalText(inputs[1..], wait, t1) else t1
  }

  /** Cycle `k` is the last cycle of the run whose read succeeded. */
  ghost predicate LastReadAt(inputs: seq<CycleInput>, wait: nat, k: nat)
  {
    var n := |Trace(inputs, wait)|;
    && k < n
    && ReadSucceeds(inputs[k])
    && forall m :: k < m < n ==> !ReadSucceeds(inputs[m])
  }

  /** A run in which no cycle reads the file leaves the contents as they were. */
  lemma {:induction false} FinalTextNoRead(inputs: seq<CycleInput>, wait: nat, t0: string)
    requires forall k :: 0 <= k < |Trace(inputs, wait)| ==> !ReadSucceeds(inputs[k])
    ensures FinalText(inputs, wait, t0) == t0
  {
    if inputs != [] {
      assert !ReadSucceeds(inputs[0]);
      if Cycle(inputs[0], wait).continues {
        var rest := inputs[1..];
        assert Trace(inputs, wait) == [Cycle(inputs[0], wait)] + Trace(rest, wait);
        forall j | 0 <= j < |Trace(rest, wait)| ensures !ReadSucceeds(rest[j]) {
          assert rest[j] == inputs[j + 1];
        }
        FinalTextNoRead(rest, wait, t0);
      }
    }
  }

  /** After a run, the contents are the text of the last cycle that read the file. */
  lemma {:induction false} FinalTextLastRead(inputs: seq<CycleInput>, wait: nat, t0: string, k: nat)
    requires LastReadAt(inputs, wait, k)
    ensures FinalText(inputs, wait, t0) == ReadText(inputs[k])
  {
    var first := Cycle(inputs[0], wait);
    var t1 := if ReadSucceeds(inputs[0]) then ReadText(inputs[0]) else t0;
    if first.continues {
      var rest := inputs[1..];
      assert Trace(inputs, wait) == [first] + Trace(rest, wait);
      var n' := |Trace(rest, wait)|;
      if k == 0 {
        forall j | 0 <= j < n' ensures !ReadSucceeds(rest[j]) {
          assert rest[j] == inputs[j + 1];
        }
        FinalTextNoRead(rest, wait, t1);
      } else {
        assert rest[k - 1] == inputs[k];
        forall m | k - 1 < m < n' ensures !ReadSucceeds(rest[m]) {
          assert rest[m] == inputs[m + 1];
        }
        FinalTextLastRead(rest, wait, t1, k - 1);
      }
    }
  }

  /** Some cycle among the first `n` read the file. */
  ghost predicate ReadBefore(inputs: seq<CycleInput>, n: nat)
  {
    exists k :: 0 <= k < n && k < |inputs| && ReadSucceeds(inputs[k])
  }

  /** One more cycle reads the file or leaves `ReadBefore` as it was. */
  lemma ReadBeforeNext(inputs: seq<CycleInput>, i: nat)
    requires i < |inputs|
    ensures ReadBefore(inputs, i + 1) <==> ReadBefore(inputs, i) || ReadSucceeds(inputs[i])
  {
    if ReadBefore(inputs, i + 1) && !ReadSucceeds(inputs[i]) {
      var k :| 0 <= k < i + 1 && k < |inputs| && ReadSucceeds(inputs[k]);
      assert k < i;
    }
  }

  /** Running from cycle `i` on: cycle `i`'s read, then the rest only if it continued. */
  lemma FinalTextFrom(inputs: seq<CycleInput>, i: nat, wait: nat, t0: string)
    requires i < |inputs|
    ensures var t1 := if ReadSucceeds(inputs[i]) then ReadText(inputs[i]) else t0;
      FinalText(inputs[i..], wait, t0) ==
        if Cycle(inputs[i], wait).continues then FinalText(inputs[i + 1..], wait, t1) else t1
  {
    assert inputs[i..][0] == inputs[i];
    assert inputs[i..][1..] == inputs[i + 1..];
  }
}
