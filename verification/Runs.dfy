/** Lease safety over whole runs of the server. */
module Runs {
  import opened Messages
  import opened Protocol
  import opened LeaseSafety
  import opened Recovery

  /** The assumption on one event: an admitted REQUEST is honest where it is handled. */
  ghost predicate HonestEvent(s: State, e: Event) {
    e.Received? && e.m.kind == REQUEST && Admit(s, e.now, e.m).1 ==>
      Honest(Admit(s, e.now, e.m).0, e.now, e.m, e.sent)
  }

  ghost predicate HonestRun(s: State, events: seq<Event>)
    decreases events
  {
    events != [] ==> HonestEvent(s, events[0]) && HonestRun(Step(s, events[0]), events[1..])
  }

  lemma StepKeepsInv(s: State, e: Event)
    requires Inv(s) && s.cfg.ackKind == ACK && HonestEvent(s, e)
    ensures Inv(Step(s, e))
  {
    match e
    case Received(now, m, sent) =>
      ReceiveKeepsInv(s, now, m, sent);
    case Timers(now) =>
      TickKeepsInv(s, now);
    case Restarted(now) =>
      SafeIsRecoverable(s.store);
      RestartEstablishesInv(s, now);
  }

  /**
   Lease safety over whole runs: from any safe state, after every prefix of every honest
   interleaving of messages, timer updates and restarts, the invariant holds.
   */
  lemma {:induction false} RunsAreSafe(s: State, events: seq<Event>, k: nat)
    requires Inv(s) && s.cfg.ackKind == ACK && HonestRun(s, events) && k <= |events|
    ensures Inv(Run(s, events[..k]))
    decreases events
  {
    if k > 0 {
      StepKeepsInv(s, events[0]);
      RunPrefix(s, events, k);
      RunsAreSafe(Step(s, events[0]), events[1..], k - 1);
    }
  }
}
