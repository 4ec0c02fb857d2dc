/** The piecewise waveform of `xylose::timing::Timing`
    (src/xylose/timing/Timing.h): a list of timing elements laid end to end,
    each lasting `dt`; setting the absolute time selects the element whose
    interval holds it and evaluates that element at the time relative to the
    element's start. Times are exact reals. */
module Timing {
  import opened Wrappers

  /** A timing element: its duration and its waveform, a function of the time
      since the element began (the element's `getValue`). */
  datatype Element = Element(dt: real, value: real -> real)

  /** What `set_time` throws when there are no elements. */
  datatype TimingError = NoTimingElements

  /** The absolute time at which element `k` begins: the durations of the
      elements before it added up (for `k == |ts|`, the total duration). */
  function Start(ts: seq<Element>, k: nat): real
    requires k <= |ts|
  {
    if k == 0 then 0.0 else Start(ts, k - 1) + ts[k - 1].dt
  }

  /** The absolute time at which element `k` ends. */
  function End(ts: seq<Element>, k: nat): real
    requires k < |ts|
  {
    Start(ts, k + 1)
  }

  /** The element `set_time(t)` uses: the first one whose interval ends at or
      after `t`, or the last one when there is none. */
  function Select(ts: seq<Element>, t: real): (k: nat)
    requires |ts| > 0
    ensures k < |ts|
    ensures forall j :: 0 <= j < k ==> t > End(ts, j)
    ensures k == |ts| - 1 || t <= End(ts, k)
  {
    SelectFrom(ts, t, 0)
  }

  function SelectFrom(ts: seq<Element>, t: real, i: nat): (k: nat)
    requires i < |ts|
    requires forall j :: 0 <= j < i ==> t > End(ts, j)
    ensures i <= k < |ts|
    ensures forall j :: 0 <= j < k ==> t > End(ts, j)
    ensures k == |ts| - 1 || t <= End(ts, k)
    decreases |ts| - i
  {
    if i == |ts| - 1 || t <= End(ts, i) then i else SelectFrom(ts, t, i + 1)
  }

  /** The contract of `Select` has one solution only. */
  lemma SelectUnique(ts: seq<Element>, t: real, k: nat)
    requires k < |ts|
    requires forall j :: 0 <= j < k ==> t > End(ts, j)
    requires k == |ts| - 1 || t <= End(ts, k)
    ensures k == Select(ts, t)
  {
  }

  /** The value of the waveform at absolute time `t`. */
  function ValueAt(ts: seq<Element>, t: real): real
    requires |ts| > 0
  {
    var k := Select(ts, t);
    ts[k].value(t - Start(ts, k))
  }

  predicate NonNegativeDurations(ts: seq<Element>) {
    forall k :: 0 <= k < |ts| ==> ts[k].dt >= 0.0
  }

  /** With durations that are not negative, elements begin in order. */
  lemma {:induction false} StartMonotone(ts: seq<Element>, j: nat, k: nat)
    requires NonNegativeDurations(ts) && j <= k <= |ts|
    ensures Start(ts, j) <= Start(ts, k)
  {
    if j < k {
      StartMonotone(ts, j, k - 1);
    }
  }

  /** A time past the total duration falls to the last element, at a relative
      time beyond that element's own duration. */
  lemma BeyondTotalUsesLast(ts: seq<Element>, t: real)
    requires |ts| > 0 && NonNegativeDurations(ts)
    requires t > Start(ts, |ts|)
    ensures Select(ts, t) == |ts| - 1
    ensures t - Start(ts, |ts| - 1) > ts[|ts| - 1].dt
  {
    var k := Select(ts, t);
    StartMonotone(ts, k + 1, |ts|);
  }

  /** Within the total duration, the relative time at which the selected
      element is evaluated lies within that element: after its start (at its
      start only for the first element) and no later than its end. */
  lemma SelectedElementHoldsTime(ts: seq<Element>, t: real)
    requires |ts| > 0 && NonNegativeDurations(ts)
    requires 0.0 <= t <= Start(ts, |ts|)
    ensures var k := Select(ts, t);
            && 0.0 <= t - Start(ts, k) <= ts[k].dt
            && (k > 0 ==> t - Start(ts, k) > 0.0)
  {
    var k := Select(ts, t);
    if k > 0 {
      assert t > End(ts, k - 1);
    }
  }

  class Timing {
    /** The timing elements, in order. */
    var timings: seq<Element>
    /** The value the waveform had at the last time set. */
    var currentVal: real
    /** Saved absolute times, most recent last. */
    var timeStack: seq<real>
    /** The last absolute time set. */
    var currentTime: real

    /** A timing with no elements, value 0, time 0 and no saved times. */
    constructor ()
      ensures timings == [] && currentVal == 0.0 && timeStack == [] && currentTime == 0.0
    {
      timings := [];
      currentVal := 0.0;
      timeStack := [];
      currentTime := 0.0;
    }

    /** `getVal()` */
    method GetVal() returns (v: real)
      ensures v == currentVal
    {
      v := currentVal;
    }

    /** `getTime()` */
    method GetTime() returns (t: real)
      ensures t == currentTime
    {
      t := currentTime;
    }

    /** `push_time(t_abs)`: saves `t` on the stack; nothing else changes. */
    method PushTime(t: real)
      modifies this
      ensures timeStack == old(timeStack) + [t]
      ensures timings == old(timings) && currentVal == old(currentVal) && currentTime == old(currentTime)
    {
      timeStack := timeStack + [t];
    }

    /** `push_time()`: saves the current time; value and time stay as they are. */
    method PushCurrentTime()
      modifies this
      ensures timeStack == old(timeStack) + [old(currentTime)]
      ensures timings == old(timings) && currentVal == old(currentVal) && currentTime == old(currentTime)
    {
      PushTime(currentTime);
    }

    /** `set_time(t)`: records `t` as the current time first, then looks up the
        element holding `t` and takes its value there; with no elements it
        throws, leaving the value as it was but the time already set. */
    method SetTime(t: real) returns (outcome: Outcome<TimingError>)
      modifies this
      ensures currentTime == t
      ensures timings == old(timings) && timeStack == old(timeStack)
      ensures outcome == if |timings| > 0 then Pass else Fail(NoTimingElements)
      ensures currentVal == if |timings| > 0 then ValueAt(timings, t) else old(currentVal)
    {
      currentTime := t;
      var ti, tf := 0.0, 0.0;
      var i := 0;
      while i < |timings|
        invariant 0 <= i <= |timings|
        invariant tf == Start(timings, i)
        invariant i > 0 ==> ti == Start(timings, i - 1)
        invariant forall j :: 0 <= j < i ==> t > End(timings, j)
      {
        ti := tf;
        tf := ti + timings[i].dt;
        if t <= tf {
          i := i + 1;
          break;
        }
        i := i + 1;
      }
      i := i - 1;
      if i < 0 {
        return Fail(NoTimingElements);
      }
      SelectUnique(timings, t, i);
      currentVal := timings[i].value(t - ti);
      outcome := Pass;
    }

    /** `incr_time(dt)`: exactly `set_time(getTime() + dt)`. */
    method IncrTime(dt: real) returns (outcome: Outcome<TimingError>)
      modifies this
      ensures currentTime == old(currentTime) + dt
      ensures timings == old(timings) && timeStack == old(timeStack)
      ensures outcome == if |timings| > 0 then Pass else Fail(NoTimingElements)
      ensures currentVal == if |timings| > 0 then ValueAt(timings, currentTime) else old(currentVal)
    {
      outcome := SetTime(currentTime + dt);
    }

    /** `pop_time()`: sets the time to the most recently saved one, then drops
        it from the stack. `back()` needs a saved time. When `set_time`
        throws, the stack is left as it was. */
    method PopTime() returns (outcome: Outcome<TimingError>)
      requires |timeStack| > 0
      modifies this
      ensures currentTime == old(timeStack[|timeStack| - 1])
      ensures timings == old(timings)
      ensures outcome == if |timings| > 0 then Pass else Fail(NoTimingElements)
      ensures currentVal == if |timings| > 0 then ValueAt(timings, currentTime) else old(currentVal)
      ensures timeStack == if outcome.Pass? then old(timeStack[..|timeStack| - 1]) else old(timeStack)
    {
      var tAbs := timeStack[|timeStack| - 1];
      outcome := SetTime(tAbs);
      if outcome.Fail? {
        return;
      }
      timeStack := timeStack[..|timeStack| - 1];
    }
  }

  /** Setting the time to `t`, saving it, moving by any `dt` and restoring
      gives back the time `t`, the value it had there, and the stack from
      before the save. */
  method PushSetPopRestores(timing: Timing, t: real, dt: real) returns (before: real, after: real)
    requires |timing.timings| > 0
    modifies timing
    ensures timing.timings == old(timing.timings)
    ensures timing.currentTime == t
    ensures timing.timeStack == old(timing.timeStack)
    ensures before == after == ValueAt(timing.timings, t)
  {
    var o := timing.SetTime(t);
    before := timing.GetVal();
    timing.PushCurrentTime();
    o := timing.IncrTime(dt);
    o := timing.PopTime();
    after := timing.GetVal();
  }
}
