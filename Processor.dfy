/**
 * The cancellable sequential processor: validate a list of numbers, then log
 * each one and wait a fixed delay, stopping early and without error once the
 * abort signal is seen.
 *
 * Wall-clock time is replaced by an abort oracle (AbortPoint) that says at
 * which step the signal fires: before the step's abort check or while the
 * step's delay is pending. Everything the run does is recorded as a trace of
 * events; the console output is the trace's log lines.
 */
module Processor {
  import opened Wrappers

  /** A JavaScript value, as far as the input checks can tell values apart. */
  datatype JsValue = Undefined | Null | Bool(b: bool) | Num(x: real) | Str(s: string) | Arr(elems: seq<JsValue>) | Obj

  /** Why the returned promise rejects. */
  datatype Rejection =
    | LengthOfNullish                 // reading .length of null or undefined throws a TypeError
    | InvalidInput(message: string)   // one of the three checks threw an Error

  const EmptyMessage: string := "Array cannot be empty"
  const NotArrayMessage: string := "Input must be an array"
  const NonNumberMessage: string := "Array must contain only numbers"
  const AbortMessage: string := "The operation was aborted"

  /** The value of .length: arrays and strings have one, other values read undefined. */
  function LengthOf(v: JsValue): Option<nat>
  {
    match v
    case Arr(e) => Some(|e|)
    case Str(s) => Some(|s|)
    case _ => None
  }

  predicate AllNumbers(elems: seq<JsValue>)
  {
    forall i :: 0 <= i < |elems| ==> elems[i].Num?
  }

  function Values(elems: seq<JsValue>): (xs: seq<real>)
    requires AllNumbers(elems)
    ensures |xs| == |elems| && forall i :: 0 <= i < |elems| ==> xs[i] == elems[i].x
  {
    seq(|elems|, i requires 0 <= i < |elems| => elems[i].x)
  }

  /**
   * The three input checks in the order the processor runs them: empty,
   * not an array, not only numbers.
   */
  function Validate(numbers: JsValue): (r: Result<seq<real>, Rejection>)
    ensures r.Success? <==> numbers.Arr? && |numbers.elems| > 0 && AllNumbers(numbers.elems)
    ensures r.Success? ==> |r.value| == |numbers.elems| && forall i :: 0 <= i < |r.value| ==> numbers.elems[i] == Num(r.value[i])
    ensures r == Failure(LengthOfNullish) <==> numbers.Undefined? || numbers.Null?
    ensures r == Failure(InvalidInput(EmptyMessage)) <==> LengthOf(numbers) == Some(0)
    ensures r == Failure(InvalidInput(NotArrayMessage)) <==>
      !numbers.Arr? && !numbers.Undefined? && !numbers.Null? && LengthOf(numbers) != Some(0)
    ensures r == Failure(InvalidInput(NonNumberMessage)) <==>
      numbers.Arr? && |numbers.elems| > 0 && !AllNumbers(numbers.elems)
  {
    if numbers.Undefined? || numbers.Null? then Failure(LengthOfNullish)
    else if LengthOf(numbers) == Some(0) then Failure(InvalidInput(EmptyMessage))
    else if !numbers.Arr? then Failure(InvalidInput(NotArrayMessage))
    else if !AllNumbers(numbers.elems) then Failure(InvalidInput(NonNumberMessage))
    else Success(Values(numbers.elems))
  }

  /**
   * The emptiness check comes first: an empty string is reported as empty,
   * not as a non-array, and an empty list is never checked for its elements.
   * A mixed list such as [1, "a", 3] is reported as not only numbers.
   */
  lemma ValidationOrder()
    ensures Validate(Str("")) == Failure(InvalidInput(EmptyMessage))
    ensures Validate(Str("abc")) == Failure(InvalidInput(NotArrayMessage))
    ensures Validate(Arr([])) == Failure(InvalidInput(EmptyMessage))
    ensures Validate(Arr([Num(1.0), Str("a"), Num(3.0)])) == Failure(InvalidInput(NonNumberMessage))
    ensures Validate(Arr([Num(1.0), Num(2.0)])) == Success([1.0, 2.0])
  {
    assert Values([Num(1.0), Num(2.0)]) == [1.0, 2.0];
    var mixed := [Num(1.0), Str("a"), Num(3.0)];
    assert !mixed[1].Num?;
  }

  /** When the abort signal fires, relative to the loop's steps (0-based). */
  datatype AbortPoint =
    | Never
    | BeforeCheck(step: nat)   // after step-1's delay has resolved, before step's abort check
    | DuringDelay(step: nat)   // while step's delay is pending

  /** signal.aborted as the check of step i reads it: once set, it stays set. */
  predicate AbortedAtCheck(abort: AbortPoint, i: nat)
  {
    match abort
    case Never => false
    case BeforeCheck(k) => k <= i
    case DuringDelay(k) => k < i
  }

  /** The signal fires while the delay of step i is pending. */
  predicate AbortsDuringDelay(abort: AbortPoint, i: nat)
  {
    abort == DuringDelay(i)
  }

  /** The signal fires at some point after the delay of step i has resolved. */
  predicate AbortsAfterDelay(abort: AbortPoint, i: nat)
  {
    !abort.Never? && abort.step > i
  }

  /** Once the signal reads aborted it reads aborted at every later check. */
  lemma AbortIsMonotonic(abort: AbortPoint, i: nat, j: nat)
    requires i <= j && AbortedAtCheck(abort, i)
    ensures AbortedAtCheck(abort, j)
  {
  }

  /** The state of a promise. */
  datatype Settlement = Pending | Resolved | Rejected(reason: string)

  /**
   * One pending delay: the promise delay() returns, its timer, and the abort
   * listener it registered. A promise settles once; later resolve or reject
   * calls are ignored.
   */
  class PendingDelay {
    const ms: real
    var timerArmed: bool
    var state: Settlement

    /** The timer is armed and the promise is pending. */
    constructor (ms: real)
      ensures this.ms == ms && timerArmed && state == Pending
    {
      this.ms := ms;
      timerArmed := true;
      state := Pending;
    }

    /** The due time passes: an armed timer runs its callback, which resolves. */
    method TimerElapsed()
      modifies this
      ensures !timerArmed
      ensures state == if old(timerArmed) && old(state).Pending? then Resolved else old(state)
    {
      if timerArmed {
        timerArmed := false;
        if state.Pending? {
          state := Resolved;
        }
      }
    }

    /** The abort listener: clears the timer, then rejects. */
    method AbortFired()
      modifies this
      ensures !timerArmed
      ensures state == if old(state).Pending? then Rejected(AbortMessage) else old(state)
    {
      timerArmed := false;
      if state.Pending? {
        state := Rejected(AbortMessage);
      }
    }
  }

  /**
   * delay(ms, signal) for one step. The listener stays registered after the
   * promise resolves, so an abort after the wait still reaches it, to no
   * effect. The wait rejects exactly when the signal fires while it is
   * pending, and it never changes its outcome afterwards. timerLeft is read
   * when the wait settles, which is when the step ends: on an abort the
   * listener has cleared the timer before the rejection is seen.
   */
  method Delay(ms: real, abortDuringWait: bool, abortAfterWait: bool) returns (settled: Settlement, timerLeft: bool)
    ensures settled == if abortDuringWait then Rejected(AbortMessage) else Resolved
    ensures !timerLeft
  {
    var d := new PendingDelay(ms);
    if abortDuringWait {
      d.AbortFired();
      timerLeft := d.timerArmed;
      d.TimerElapsed();
    } else {
      d.TimerElapsed();
      timerLeft := d.timerArmed;
      if abortAfterWait {
        d.AbortFired();
      }
    }
    settled := d.state;
  }

  /** A console line: console.log for the first two, console.error for the last. */
  datatype LogLine = Processing(value: real) | AbortNotice | DelayError(message: string)

  /** What a run does, in order. */
  datatype Event =
    | AbortCheck(step: nat, aborted: bool)
    | Log(line: LogLine)
    | DelayStart(step: nat)
    | DelayEnd(step: nat, settled: Settlement)

  /** Whether a run ends by returning normally or with its promise rejected. */
  datatype Completion = Returned | Threw(reason: Rejection)

  /** The events of step i when its check passes and its delay settles as settled. */
  function StepEvents(xs: seq<real>, i: nat, settled: Settlement): seq<Event>
    requires i < |xs|
  {
    [AbortCheck(i, false), Log(Processing(xs[i])), DelayStart(i), DelayEnd(i, settled)]
  }

  /** The events of the loop from step i on. */
  function Steps(xs: seq<real>, i: nat, abort: AbortPoint): (t: seq<Event>)
    requires i <= |xs|
    ensures t == [] <==> i == |xs|
    decreases |xs| - i
  {
    if i == |xs| then []
    else if AbortedAtCheck(abort, i) then [AbortCheck(i, true), Log(AbortNotice)]
    else if AbortsDuringDelay(abort, i) then
      StepEvents(xs, i, Rejected(AbortMessage)) + [Log(DelayError(AbortMessage))]
    else
      StepEvents(xs, i, Resolved) + Steps(xs, i + 1, abort)
  }

  /** Every remaining step opens with its abort check, which reads the signal as AbortedAtCheck says. */
  lemma StepsBeginWithCheck(xs: seq<real>, i: nat, abort: AbortPoint)
    requires i < |xs|
    ensures Steps(xs, i, abort)[0] == AbortCheck(i, AbortedAtCheck(abort, i))
  {
  }

  /**
   * processWithDelay(numbers, delayMs, signal). Invalid input rejects before
   * anything runs; valid input always returns normally, whether or not it
   * is aborted, after the events Steps describes.
   */
  method ProcessWithDelay(numbers: JsValue, delayMs: real, abort: AbortPoint) returns (completion: Completion, trace: seq<Event>)
    ensures Validate(numbers).Failure? ==> completion == Threw(Validate(numbers).error) && trace == []
    ensures Validate(numbers).Success? ==> completion == Returned && trace == Steps(Validate(numbers).value, 0, abort)
  {
    trace := [];
    var checked := Validate(numbers);
    if checked.Failure? {
      completion := Threw(checked.error);
      return;
    }
    completion := Returned;
    trace := RunSteps(checked.value, delayMs, abort);
  }

  /**
   * The loop of processWithDelay over validated numbers: at each step the
   * abort check, the processing line, then the delay; stops at the first abort.
   */
  method RunSteps(xs: seq<real>, delayMs: real, abort: AbortPoint) returns (trace: seq<Event>)
    ensures trace == Steps(xs, 0, abort)
  {
    trace := [];
    var i := 0;
    while i < |xs|
      invariant 0 <= i <= |xs|
      invariant Steps(xs, 0, abort) == trace + Steps(xs, i, abort)
    {
      var aborted := AbortedAtCheck(abort, i);
      var step := [AbortCheck(i, aborted)];
      if aborted {
        step := step + [Log(AbortNotice)];
        assert step == Steps(xs, i, abort);
        trace := trace + step;
        return;
      }
      step := step + [Log(Processing(xs[i])), DelayStart(i)];
      var settled, _ := Delay(delayMs, AbortsDuringDelay(abort, i), AbortsAfterDelay(abort, i));
      step := step + [DelayEnd(i, settled)];
      assert step == StepEvents(xs, i, settled);
      if settled.Rejected? {
        step := step + [Log(DelayError(settled.reason))];
        assert step == Steps(xs, i, abort);
        trace := trace + step;
        return;
      }
      AppendAssociates(trace, step, Steps(xs, i + 1, abort));
      trace := trace + step;
      i := i + 1;
    }
  }

  /** Concatenation is associative. */
  lemma AppendAssociates<T>(a: seq<T>, b: seq<T>, c: seq<T>)
    ensures a + b + c == a + (b + c)
  {
  }

  /** The console output of a trace. */
  function Logs(trace: seq<Event>): seq<LogLine>
  {
    if trace == [] then [] else (if trace[0].Log? then [trace[0].line] else []) + Logs(trace[1..])
  }

  /** The numbers a run of console lines reports as processed. */
  function ProcessedValues(lines: seq<LogLine>): seq<real>
  {
    if lines == [] then [] else (if lines[0].Processing? then [lines[0].value] else []) + ProcessedValues(lines[1..])
  }

  /** One "Processing number" line per value, in order. */
  function ProcessingLines(ys: seq<real>): seq<LogLine>
  {
    if ys == [] then [] else [Processing(ys[0])] + ProcessingLines(ys[1..])
  }

  /**
   * The console output a run should produce: every number if the signal does
   * not fire in time; the first k numbers and the abort notice if it fires
   * before the check of step k; the first k+1 numbers and the delay's error
   * if it fires during the delay of step k.
   */
  function ExpectedLogs(xs: seq<real>, abort: AbortPoint): seq<LogLine>
  {
    match abort
    case Never => ProcessingLines(xs)
    case BeforeCheck(k) =>
      if k < |xs| then ProcessingLines(xs[..k]) + [AbortNotice] else ProcessingLines(xs)
    case DuringDelay(k) =>
      if k < |xs| then ProcessingLines(xs[..k + 1]) + [DelayError(AbortMessage)] else ProcessingLines(xs)
  }

  lemma {:induction false} LogsDistributes(a: seq<Event>, b: seq<Event>)
    ensures Logs(a + b) == Logs(a) + Logs(b)
  {
    if a == [] {
      assert a + b == b;
    } else {
      var c := a + b;
      var head := if a[0].Log? then [a[0].line] else [];
      assert c[0] == a[0] && c[1..] == a[1..] + b;
      assert Logs(c) == head + Logs(c[1..]);
      assert Logs(a) == head + Logs(a[1..]);
      LogsDistributes(a[1..], b);
    }
  }

  lemma {:induction false} ProcessedValuesDistributes(a: seq<LogLine>, b: seq<LogLine>)
    ensures ProcessedValues(a + b) == ProcessedValues(a) + ProcessedValues(b)
  {
    if a == [] {
      assert a + b == b;
    } else {
      var c := a + b;
      var head := if a[0].Processing? then [a[0].value] else [];
      assert c[0] == a[0] && c[1..] == a[1..] + b;
      assert ProcessedValues(c) == head + ProcessedValues(c[1..]);
      assert ProcessedValues(a) == head + ProcessedValues(a[1..]);
      ProcessedValuesDistributes(a[1..], b);
    }
  }

  /** The processing lines of ys report exactly ys. */
  lemma {:induction false} ProcessingLinesValues(ys: seq<real>)
    ensures ProcessedValues(ProcessingLines(ys)) == ys
    ensures |ProcessingLines(ys)| == |ys|
  {
    if ys != [] {
      ProcessingLinesValues(ys[1..]);
      ProcessedValuesDistributes([Processing(ys[0])], ProcessingLines(ys[1..]));
      assert [Processing(ys[0])][1..] == [];
    }
  }

  lemma LogsCons(e: Event, rest: seq<Event>)
    ensures Logs([e] + rest) == (if e.Log? then [e.line] else []) + Logs(rest)
  {
    assert ([e] + rest)[1..] == rest;
  }

  /** The only console line of a step that awaited its delay is its processing line. */
  lemma StepEventsLogs(xs: seq<real>, i: nat, settled: Settlement)
    requires i < |xs|
    ensures Logs(StepEvents(xs, i, settled)) == [Processing(xs[i])]
  {
    var e0, e1, e2, e3 := AbortCheck(i, false), Log(Processing(xs[i])), DelayStart(i), DelayEnd(i, settled);
    assert StepEvents(xs, i, settled) == [e0] + ([e1] + ([e2] + ([e3] + [])));
    LogsCons(e3, []);
    LogsCons(e2, [e3] + []);
    LogsCons(e1, [e2] + ([e3] + []));
    LogsCons(e0, [e1] + ([e2] + ([e3] + [])));
  }

  /** The console output of one completed step, then that of the rest of the run. */
  lemma StepLogs(xs: seq<real>, i: nat, abort: AbortPoint)
    requires i < |xs| && !AbortedAtCheck(abort, i) && !AbortsDuringDelay(abort, i)
    ensures Logs(Steps(xs, i, abort)) == [Processing(xs[i])] + Logs(Steps(xs, i + 1, abort))
  {
    LogsDistributes(StepEvents(xs, i, Resolved), Steps(xs, i + 1, abort));
    StepEventsLogs(xs, i, Resolved);
  }

  lemma ProcessingLinesStep(xs: seq<real>, i: nat, j: nat)
    requires i < j <= |xs|
    ensures ProcessingLines(xs[i..j]) == [Processing(xs[i])] + ProcessingLines(xs[i + 1..j])
  {
    assert xs[i..j][1..] == xs[i + 1..j];
  }

  /** A signal that does not fire before the loop ends lets every number through. */
  lemma {:induction false} LogsWithoutAbort(xs: seq<real>, i: nat, abort: AbortPoint)
    requires i <= |xs|
    requires abort.Never? || abort.step >= |xs|
    ensures Logs(Steps(xs, i, abort)) == ProcessingLines(xs[i..])
    decreases |xs| - i
  {
    if i < |xs| {
      StepLogs(xs, i, abort);
      LogsWithoutAbort(xs, i + 1, abort);
      ProcessingLinesStep(xs, i, |xs|);
    } else {
      assert xs[i..] == [];
    }
  }

  /** A signal firing before the check of step k stops the run there. */
  lemma {:induction false} LogsAbortBeforeCheck(xs: seq<real>, i: nat, k: nat)
    requires i <= k < |xs|
    ensures Logs(Steps(xs, i, BeforeCheck(k))) == ProcessingLines(xs[i..k]) + [AbortNotice]
    decreases k - i
  {
    if i < k {
      StepLogs(xs, i, BeforeCheck(k));
      LogsAbortBeforeCheck(xs, i + 1, k);
      ProcessingLinesStep(xs, i, k);
    } else {
      assert xs[i..k] == [];
      assert [AbortCheck(i, true), Log(AbortNotice)] == [AbortCheck(i, true)] + ([Log(AbortNotice)] + []);
      LogsCons(Log(AbortNotice), []);
      LogsCons(AbortCheck(i, true), [Log(AbortNotice)] + []);
    }
  }

  /** A signal firing during the delay of step k stops the run after that step's line. */
  lemma {:induction false} LogsAbortDuringDelay(xs: seq<real>, i: nat, k: nat)
    requires i <= k < |xs|
    ensures Logs(Steps(xs, i, DuringDelay(k))) == ProcessingLines(xs[i..k + 1]) + [DelayError(AbortMessage)]
    decreases k - i
  {
    ProcessingLinesStep(xs, i, k + 1);
    if i < k {
      StepLogs(xs, i, DuringDelay(k));
      LogsAbortDuringDelay(xs, i + 1, k);
    } else {
      LogsDistributes(StepEvents(xs, i, Rejected(AbortMessage)), [Log(DelayError(AbortMessage))]);
      StepEventsLogs(xs, i, Rejected(AbortMessage));
      LogsCons(Log(DelayError(AbortMessage)), []);
      assert [Log(DelayError(AbortMessage))] + [] == [Log(DelayError(AbortMessage))];
      assert xs[i + 1..k + 1] == [];
    }
  }

  /** The console output of every valid run is exactly ExpectedLogs. */
  lemma LogsMatchExpected(xs: seq<real>, abort: AbortPoint)
    ensures Logs(Steps(xs, 0, abort)) == ExpectedLogs(xs, abort)
  {
    assert xs[0..] == xs;
    match abort
    case Never =>
      LogsWithoutAbort(xs, 0, abort);
    case BeforeCheck(k) =>
      if k < |xs| {
        LogsAbortBeforeCheck(xs, 0, k);
        assert xs[0..k] == xs[..k];
      } else {
        LogsWithoutAbort(xs, 0, abort);
      }
    case DuringDelay(k) =>
      if k < |xs| {
        LogsAbortDuringDelay(xs, 0, k);
        assert xs[0..k + 1] == xs[..k + 1];
      } else {
        LogsWithoutAbort(xs, 0, abort);
      }
  }

  /**
   * Whatever the signal does, the numbers logged are the first m input
   * numbers, each once and in input order; with no abort m is the whole input.
   */
  lemma LoggedValuesArePrefix(xs: seq<real>, abort: AbortPoint)
    ensures exists m :: 0 <= m <= |xs| && ProcessedValues(Logs(Steps(xs, 0, abort))) == xs[..m]
    ensures abort.Never? ==> ProcessedValues(Logs(Steps(xs, 0, abort))) == xs
  {
    LogsMatchExpected(xs, abort);
    var m: nat :=
      if abort.Never? || abort.step >= |xs| then |xs|
      else if abort.BeforeCheck? then abort.step
      else abort.step + 1;
    assert xs[..|xs|] == xs;
    ProcessingLinesValues(xs[..m]);
    if m < |xs| || (!abort.Never? && abort.step < |xs|) {
      var tail := if abort.BeforeCheck? then [AbortNotice] else [DelayError(AbortMessage)];
      ProcessedValuesDistributes(ProcessingLines(xs[..m]), tail);
      assert ProcessedValues(tail) == [] by {
        assert tail[1..] == [];
      }
    }
    assert ProcessedValues(Logs(Steps(xs, 0, abort))) == xs[..m];
  }

  /**
   * A "Processing number" line at position p of a trace comes right after
   * the passed abort check of its step and right before that step's delay
   * starts.
   */
  ghost predicate LineFramed(xs: seq<real>, t: seq<Event>, p: int)
  {
    0 <= p < |t| && t[p].Log? && t[p].line.Processing? ==>
      && 0 < p < |t| - 1
      && t[p - 1].AbortCheck? && !t[p - 1].aborted
      && t[p - 1].step < |xs| && t[p].line.value == xs[t[p - 1].step]
      && t[p + 1] == DelayStart(t[p - 1].step)
  }

  /** A delay started at position p of a trace ends, for the same step, at the next position. */
  ghost predicate DelayScoped(t: seq<Event>, p: int)
  {
    0 <= p < |t| && t[p].DelayStart? ==> p + 1 < |t| && t[p + 1].DelayEnd? && t[p + 1].step == t[p].step
  }

  /**
   * The order of a run: every processing line sits between its step's check
   * and its step's delay, and at most one delay is pending at any time.
   */
  ghost predicate StepsOrdered(xs: seq<real>, t: seq<Event>)
  {
    forall p :: 0 <= p < |t| ==> LineFramed(xs, t, p) && DelayScoped(t, p)
  }

  lemma StepsOrderedAppend(xs: seq<real>, a: seq<Event>, b: seq<Event>)
    requires StepsOrdered(xs, a) && StepsOrdered(xs, b)
    requires a != [] ==> !a[|a| - 1].DelayStart? && !(a[|a| - 1].Log? && a[|a| - 1].line.Processing?)
    requires b != [] ==> !(b[0].Log? && b[0].line.Processing?)
    ensures StepsOrdered(xs, a + b)
  {
    var t := a + b;
    forall p | 0 <= p < |t|
      ensures LineFramed(xs, t, p) && DelayScoped(t, p)
    {
      if p < |a| {
        assert t[p] == a[p];
        if p > 0 { assert t[p - 1] == a[p - 1]; }
        if p + 1 < |a| { assert t[p + 1] == a[p + 1]; }
        assert LineFramed(xs, a, p) && DelayScoped(a, p);
      } else {
        var q := p - |a|;
        assert t[p] == b[q];
        if q > 0 { assert t[p - 1] == b[q - 1]; }
        if q + 1 < |b| { assert t[p + 1] == b[q + 1]; }
        assert LineFramed(xs, b, q) && DelayScoped(b, q);
      }
    }
  }

  /** Every run's trace keeps the order described by StepsOrdered. */
  lemma {:induction false} RunIsOrdered(xs: seq<real>, i: nat, abort: AbortPoint)
    requires i <= |xs|
    ensures StepsOrdered(xs, Steps(xs, i, abort))
    decreases |xs| - i
  {
    if i == |xs| {
    } else if AbortedAtCheck(abort, i) {
      var t := Steps(xs, i, abort);
      assert t == [AbortCheck(i, true), Log(AbortNotice)];
      forall p | 0 <= p < |t|
        ensures LineFramed(xs, t, p) && DelayScoped(t, p)
      {
        assert p == 0 || p == 1;
      }
    } else if AbortsDuringDelay(abort, i) {
      var head := StepEvents(xs, i, Rejected(AbortMessage));
      StepOrdered(xs, i, Rejected(AbortMessage));
      var tail := [Log(DelayError(AbortMessage))];
      assert LineFramed(xs, tail, 0) && DelayScoped(tail, 0);
      StepsOrderedAppend(xs, head, tail);
      assert Steps(xs, i, abort) == head + tail;
    } else {
      var head := StepEvents(xs, i, Resolved);
      RunIsOrdered(xs, i + 1, abort);
      StepOrdered(xs, i, Resolved);
      var rest := Steps(xs, i + 1, abort);
      assert rest != [] ==> rest[0].AbortCheck?;
      StepsOrderedAppend(xs, head, rest);
    }
  }

  /** The four events of a step that passed its check and awaited its delay are in order. */
  lemma StepOrdered(xs: seq<real>, i: nat, settled: Settlement)
    requires i < |xs|
    ensures StepsOrdered(xs, StepEvents(xs, i, settled))
  {
    var t := StepEvents(xs, i, settled);
    forall p | 0 <= p < |t|
      ensures LineFramed(xs, t, p) && DelayScoped(t, p)
    {
      assert p == 0 || p == 1 || p == 2 || p == 3;
    }
  }

  /** A signal that is already aborted when the call starts: no number is logged and no delay is awaited. */
  lemma AbortedBeforeCall(xs: seq<real>)
    requires |xs| > 0
    ensures Steps(xs, 0, BeforeCheck(0)) == [AbortCheck(0, true), Log(AbortNotice)]
  {
  }

  /**
   * The demo run: five numbers, one-second delays, and an abort after three
   * seconds, which falls in the third delay. Numbers 1 to 3 are logged, then
   * the delay's error; the call itself returns normally.
   */
  lemma DemoAbortDuringThirdDelay()
    ensures Logs(Steps([1.0, 2.0, 3.0, 4.0, 5.0], 0, DuringDelay(2)))
      == [Processing(1.0), Processing(2.0), Processing(3.0), DelayError(AbortMessage)]
  {
    var xs := [1.0, 2.0, 3.0, 4.0, 5.0];
    LogsMatchExpected(xs, DuringDelay(2));
    assert xs[..3] == [1.0, 2.0, 3.0];
    assert ProcessingLines([1.0, 2.0, 3.0]) == [Processing(1.0), Processing(2.0), Processing(3.0)] by {
      assert [1.0, 2.0, 3.0][1..] == [2.0, 3.0];
      assert [2.0, 3.0][1..] == [3.0];
      assert [3.0][1..] == [];
    }
  }
}
