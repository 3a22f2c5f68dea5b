/** The result polling of `handleSubmit` in components/SimpleScraperForm.tsx:
    once a second the form fetches the task's results and stops on a
    completed task, on an unknown task or after thirty attempts. The replies
    the polls receive are a parameter, one per tick. */
module ResultPoll {
  const MaxAttempts: nat := 30

  /** What one poll sees: the `status` of the parsed reply, or a failure of
      the fetch or of the JSON parsing. */
  datatype Reply = Status(status: string) | Error

  /** How a tick ends: polling goes on, the results are shown, the "timed out
      or failed" alert is raised, or the "failed to get results" alert is. */
  datatype Step = Continue | Completed | GaveUp | Failed

  /** A reply that lets polling go on when attempts remain. */
  predicate Quiet(reply: Reply) {
    reply != Status("completed") && reply != Status("not_found")
  }

  /** One tick, `attempt` being the counter after its increment. */
  function Tick(attempt: nat, reply: Reply): (s: Step)
    ensures s == Completed <==> reply == Status("completed")
    ensures s == Continue <==> Quiet(reply) && attempt < MaxAttempts
    ensures s == Failed <==> reply == Error && attempt >= MaxAttempts
  {
    match reply
    case Status(st) =>
      if st == "completed" then Completed
      else if st == "not_found" || attempt >= MaxAttempts then GaveUp
      else Continue
    case Error =>
      if attempt >= MaxAttempts then Failed else Continue
  }

  /** The last step taken and the number of polls made. */
  datatype Run = Run(outcome: Step, attempts: nat)

  /** Polling after `done` ticks; the outcome stays `Continue` when the
      replies run out first. */
  function PollFrom(replies: seq<Reply>, done: nat): Run
    decreases |replies| - done
  {
    if done >= |replies| then Run(Continue, done)
    else
      var step := Tick(done + 1, replies[done]);
      if step != Continue then Run(step, done + 1) else PollFrom(replies, done + 1)
  }

  function Poll(replies: seq<Reply>): Run {
    PollFrom(replies, 0)
  }

  /** The stopping rule, from any tick before the last one allowed. */
  lemma {:induction false} PollFromRule(replies: seq<Reply>, a: nat)
    requires a < MaxAttempts && a <= |replies|
    ensures var r := PollFrom(replies, a);
      && a <= r.attempts <= MaxAttempts && r.attempts <= |replies|
      && (forall k :: a <= k < r.attempts - 1 ==> Quiet(replies[k]))
      && (r.outcome == Completed <==> r.attempts > a && replies[r.attempts - 1] == Status("completed"))
      && (r.outcome == GaveUp ==>
            && r.attempts > a && replies[r.attempts - 1].Status?
            && (replies[r.attempts - 1] == Status("not_found") || r.attempts == MaxAttempts))
      && (r.outcome == Failed ==> r.attempts == MaxAttempts && replies[r.attempts - 1] == Error)
      && (r.outcome == Continue <==>
            r.attempts == |replies| < MaxAttempts && (a == |replies| || Quiet(replies[|replies| - 1])))
    decreases |replies| - a
  {
    if a < |replies| {
      var step := Tick(a + 1, replies[a]);
      if step == Continue && a + 1 < MaxAttempts {
        PollFromRule(replies, a + 1);
      }
    }
  }

  /** The stopping rule: at most thirty polls; every poll before the last
      saw neither a completed nor an unknown task; the results are shown
      exactly when the last poll saw a completed task; the alerts are raised
      only for an unknown task or on the thirtieth poll; and polling is
      still going on only when every reply so far was quiet and fewer than
      thirty polls were made. */
  lemma PollStopRule(replies: seq<Reply>)
    ensures var r := Poll(replies);
      && r.attempts <= MaxAttempts && r.attempts <= |replies|
      && (forall k :: 0 <= k < r.attempts - 1 ==> Quiet(replies[k]))
      && (r.outcome == Completed <==> r.attempts > 0 && replies[r.attempts - 1] == Status("completed"))
      && (r.outcome == GaveUp ==>
            && r.attempts > 0 && replies[r.attempts - 1].Status?
            && (replies[r.attempts - 1] == Status("not_found") || r.attempts == MaxAttempts))
      && (r.outcome == Failed ==> r.attempts == MaxAttempts && replies[r.attempts - 1] == Error)
      && (r.outcome == Continue <==>
            |replies| < MaxAttempts && forall k :: 0 <= k < |replies| ==> Quiet(replies[k]))
  {
    PollFromRule(replies, 0);
  }

  /** Thirty replies always end the polling. */
  lemma PollEnds(replies: seq<Reply>)
    requires |replies| >= MaxAttempts
    ensures Poll(replies).outcome != Continue
    ensures Poll(replies).attempts <= MaxAttempts
  {
    PollStopRule(replies);
  }
}
