/** The polled countdown timer of timer.c. */
module Timers {
  import opened Words

  datatype TimerState = TimerState(repeat: bool, dtime: uint32, rtime: uint32, running: bool, ltime: uint32)

  /** timer_update without its callback: the next timer state, and whether the callback is due. */
  function Poll(t: TimerState, now: uint32): (r: (TimerState, bool)) {
    var diff := Sub32(now, t.ltime);
    if !t.running || diff == 0 then (t, false)
    else if t.rtime <= diff then (t.(ltime := now, rtime := t.dtime, running := t.repeat), true)
    else (t.(ltime := now, rtime := t.rtime - diff), false)
  }

  function Started(t: TimerState, now: uint32): TimerState {
    t.(running := true, ltime := now)
  }

  function Stopped(t: TimerState): TimerState {
    t.(running := false)
  }

  function Reset(t: TimerState, now: uint32): TimerState {
    t.(running := true, ltime := now, rtime := t.dtime)
  }

  // ---------------------------------------------------------------- independence of the polling schedule

  function Max1(d: int): int {
    if d < 1 then 1 else d
  }

  /** Polling at the given times; the clock shows them modulo 2^32. */
  function PollAll(t: TimerState, polls: seq<int>): (fired: seq<bool>)
    ensures |fired| == |polls|
    decreases polls
  {
    if polls == [] then []
    else
      var (t', due) := Poll(t, polls[0] % TWO32);
      [due] + PollAll(t', polls[1..])
  }

  /** When a timer of duration `d` set at `base` ought to fire, by the true times alone. */
  function Schedule(base: int, d: uint32, repeat: bool, polls: seq<int>): (fired: seq<bool>)
    ensures |fired| == |polls|
    decreases polls
  {
    if polls == [] then []
    else if polls[0] - base < Max1(d) then [false] + Schedule(base, d, repeat, polls[1..])
    else [true] + if repeat then Schedule(polls[0], d, repeat, polls[1..]) else seq(|polls| - 1, _ => false)
  }

  /** Times do not go back, and two polls are less than 2^32 apart. */
  ghost predicate Spaced(last: int, polls: seq<int>)
    decreases polls
  {
    polls != [] ==> last <= polls[0] < last + TWO32 && Spaced(polls[0], polls[1..])
  }

  lemma {:induction false} StoppedStaysQuiet(t: TimerState, polls: seq<int>)
    requires !t.running
    ensures PollAll(t, polls) == seq(|polls|, _ => false)
    decreases polls
  {
    if polls != [] {
      StoppedStaysQuiet(t, polls[1..]);
    }
  }

  /** A timer set at `base` and last polled at `last` fires on schedule, however it is polled. */
  lemma {:induction false} PollingFollowsSchedule(t: TimerState, base: int, last: int, polls: seq<int>)
    requires t.running && t.ltime == last % TWO32
    requires base <= last < base + Max1(t.dtime) && t.rtime == t.dtime - (last - base)
    requires Spaced(last, polls)
    ensures PollAll(t, polls) == Schedule(base, t.dtime, t.repeat, polls)
    decreases polls
  {
    if polls != [] {
      var p := polls[0];
      ClockDifference(last, p);
      var (t', due) := Poll(t, p % TWO32);
      if due && t.repeat {
        PollingFollowsSchedule(t', p, p, polls[1..]);
      } else if due {
        StoppedStaysQuiet(t', polls[1..]);
      } else {
        PollingFollowsSchedule(t', base, p, polls[1..]);
      }
    }
  }

  lemma ClockDifference(last: int, p: int)
    requires last <= p < last + TWO32
    ensures Sub32(p % TWO32, last % TWO32) == p - last
  {
    assert (p - last) % TWO32 == p - last;
  }

  /** A one-shot timer fires exactly at the first poll that finds its time elapsed. */
  lemma {:induction false} OneShotFiresOnce(base: int, d: uint32, polls: seq<int>, k: nat)
    requires k < |polls|
    ensures Schedule(base, d, false, polls)[k] <==>
            polls[k] - base >= Max1(d) && forall j :: 0 <= j < k ==> polls[j] - base < Max1(d)
    decreases polls
  {
    if k > 0 {
      OneShotFiresOnce(base, d, polls[1..], k - 1);
      assert forall j :: 1 <= j < k ==> polls[j] == polls[1..][j - 1];
    }
  }

  /** Two firings of a repeating timer are at least its duration apart. */
  lemma {:induction false} RepeatedFiringsApart(base: int, d: uint32, polls: seq<int>, k: nat, l: nat)
    requires k < l < |polls|
    requires Schedule(base, d, true, polls)[k] && Schedule(base, d, true, polls)[l]
    ensures polls[l] - polls[k] >= Max1(d)
    decreases polls
  {
    if k > 0 {
      var base' := if polls[0] - base < Max1(d) then base else polls[0];
      RepeatedFiringsApart(base', d, polls[1..], k - 1, l - 1);
    } else {
      FiringNotBefore(polls[0], d, polls[1..], l - 1);
    }
  }

  lemma {:induction false} FiringNotBefore(base: int, d: uint32, polls: seq<int>, l: nat)
    requires l < |polls| && Schedule(base, d, true, polls)[l]
    ensures polls[l] - base >= Max1(d)
    decreases polls
  {
    if l > 0 {
      var base' := if polls[0] - base < Max1(d) then base else polls[0];
      FiringNotBefore(base', d, polls[1..], l - 1);
    }
  }

  /** Started with its full duration, a one-shot timer fires once, at the first poll with the time elapsed. */
  lemma OneShotTimer(t: TimerState, t0: int, polls: seq<int>, k: nat)
    requires !t.repeat && t.rtime == t.dtime && Spaced(t0, polls) && k < |polls|
    ensures PollAll(Started(t, t0 % TWO32), polls)[k] <==>
            polls[k] - t0 >= Max1(t.dtime) && forall j :: 0 <= j < k ==> polls[j] - t0 < Max1(t.dtime)
  {
    PollingFollowsSchedule(Started(t, t0 % TWO32), t0, t0, polls);
    OneShotFiresOnce(t0, t.dtime, polls, k);
  }

  /** A repeating timer never fires early: not within its duration of the start or of another firing. */
  lemma RepeatingTimer(t: TimerState, t0: int, polls: seq<int>, k: nat, l: nat)
    requires t.repeat && t.rtime == t.dtime && Spaced(t0, polls) && k < l < |polls|
    requires PollAll(Started(t, t0 % TWO32), polls)[l]
    ensures polls[l] - t0 >= Max1(t.dtime)
    ensures PollAll(Started(t, t0 % TWO32), polls)[k] ==> polls[l] - polls[k] >= Max1(t.dtime)
  {
    PollingFollowsSchedule(Started(t, t0 % TWO32), t0, t0, polls);
    FiringNotBefore(t0, t.dtime, polls, l);
    if Schedule(t0, t.dtime, true, polls)[k] {
      RepeatedFiringsApart(t0, t.dtime, polls, k, l);
    }
  }

  // ---------------------------------------------------------------- the timer object

  /** struct timer. Whether the callback is due is returned; the caller runs it. */
  class Timer {
    const repeat: bool
    const dtime: uint32
    var rtime: uint32
    var running: bool
    var ltime: uint32

    /** timer_new. */
    constructor (repeat: bool, dtime: uint32, running: bool, now: uint32)
      ensures View() == TimerState(repeat, dtime, dtime, running, now)
    {
      this.repeat, this.dtime, this.rtime, this.running, this.ltime := repeat, dtime, dtime, running, now;
    }

    function View(): TimerState
      reads this
    {
      TimerState(repeat, dtime, rtime, running, ltime)
    }

    /** timer_update. */
    method Update(now: uint32) returns (due: bool)
      modifies this
      ensures (View(), due) == Poll(old(View()), now)
    {
      due := false;
      if running {
        var diff := Sub32(now, ltime);
        if diff != 0 {
          ltime := now;
          if rtime <= diff {
            rtime := dtime;
            running := repeat;
            due := true;
          } else {
            rtime := rtime - diff;
          }
        }
      }
    }

    /** timer_start. */
    method Start(now: uint32)
      modifies this
      ensures View() == Started(old(View()), now)
    {
      running := true;
      ltime := now;
    }

    /** timer_stop. */
    method Stop()
      modifies this
      ensures View() == Stopped(old(View()))
    {
      running := false;
    }

    /** timer_reset. */
    method Restart(now: uint32)
      modifies this
      ensures View() == Reset(old(View()), now)
    {
      running := true;
      ltime := now;
      rtime := dtime;
    }
  }
}
