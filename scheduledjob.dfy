/** ScheduledJob (ScheduledJob.cs): one entry of the scheduler's list, with
    a fire time that Perform moves forward. Times are DateTime ticks; the
    clock is passed in as `now`. */
module ScheduledJobs {
  import opened Logging

  /** DateTime.MaxValue, in ticks. */
  const MaxValue: int := 3155378975999999999

  /** The job's Action<Server>, as an opaque token. */
  datatype JobAction = JobAction(name: string)

  /** What the action does when it is invoked: return, or throw an
      exception whose logged text is `message`. */
  datatype ActionOutcome = Returned | Threw(message: string)

  /** The messages Perform logs: "Performing", then "Completed" when the
      action returns, or the exception when it throws (ScheduledJob.cs:43-49). */
  function PerformLog(identifier: string, outcome: ActionOutcome): (log: seq<LoggedMessage>)
    ensures |log| == 2 && log[0] == Info("Performing " + identifier)
    ensures log[1] == Info("Completed " + identifier) <==> outcome.Returned?
    ensures outcome.Threw? ==> log[1] == LoggedMessage(Error, outcome.message)
  {
    match outcome
    case Returned => [Info("Performing " + identifier), Info("Completed " + identifier)]
    case Threw(m) => [Info("Performing " + identifier), LoggedMessage(Error, m)]
  }

  /** The fire time Perform sets: now plus the interval for a recurring job,
      MaxValue for a one-shot job (ScheduledJob.cs:37-41). */
  function NextTimeAfter(interval: int, now: int): int {
    if interval != 0 then now + interval else MaxValue
  }

  class ScheduledJob {
    const identifier: string
    var nextTime: int
    const interval: int
    const action: JobAction
    /** The cancel flag behind Cancel() and Cancelled. */
    var cancelled: bool

    /** ScheduledJob.cs:24-33; a new job is not cancelled. */
    constructor (ident: string, nextTime: int, interval: int, action: JobAction)
      ensures identifier == ident && this.nextTime == nextTime
      ensures this.interval == interval && this.action == action
      ensures !cancelled
    {
      identifier := ident;
      this.nextTime := nextTime;
      this.interval := interval;
      this.action := action;
      cancelled := false;
    }

    /** Due at `now` (ScheduledJob.cs:14-17). */
    predicate ShouldPerform(now: int)
      reads this
    {
      now >= nextTime
    }

    /** A job with a zero interval fires once (ScheduledJob.cs:19-22). */
    predicate OnceOnly() {
      interval == 0
    }

    /** Moves the fire time forward before the action runs, then runs the
        action and logs; an exception from the action is caught and logged,
        so the new fire time stands either way (ScheduledJob.cs:35-50). */
    method Perform(now: int, outcome: ActionOutcome) returns (messages: seq<LoggedMessage>)
      modifies this`nextTime
      ensures nextTime == NextTimeAfter(interval, now)
      ensures !OnceOnly() ==> nextTime == now + interval
      ensures OnceOnly() ==> nextTime == MaxValue && forall t :: t < MaxValue ==> !ShouldPerform(t)
      ensures messages == PerformLog(identifier, outcome)
    {
      if !OnceOnly() {
        nextTime := now + interval;
      } else {
        nextTime := MaxValue;
      }
      messages := [Info("Performing " + identifier)];
      match outcome {
        case Returned =>
          messages := messages + [Info("Completed " + identifier)];
        case Threw(m) =>
          messages := messages + [LoggedMessage(Error, m)];
      }
    }

    /** Sets the cancel flag (called at Server.cs:295). */
    method Cancel()
      modifies this`cancelled
      ensures cancelled
    {
      cancelled := true;
    }
  }

  /** The fire times of a list of jobs, in list order. */
  function Times(q: seq<ScheduledJob>): (ts: seq<int>)
    reads q
    ensures |ts| == |q|
    ensures forall i :: 0 <= i < |q| ==> ts[i] == q[i].nextTime
  {
    if q == [] then [] else [q[0].nextTime] + Times(q[1..])
  }
}
