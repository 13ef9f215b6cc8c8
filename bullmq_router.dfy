/** The job-progress subscription and the listTasks input rules of the BullMQ router
    (apps/backend/src/modules/bullmq/bullmq.router.ts). Job states come from the queue; here they are
    an input: one Poll is what the queue answered in one round. */
module BullmqRouter {
  import opened Wrappers
  import Decimal

  /** The states a queued job can report. */
  datatype JobState = Waiting | Active | Completed | Failed | Delayed | Paused | Prioritized | WaitingChildren | Unknown

  /** A job counts as done once it has completed or failed. */
  predicate IsFinished(s: JobState) {
    s == Completed || s == Failed
  }

  /** One round of status lookups: the jobs the queue knows, by id, or a queue failure. */
  datatype Poll = Poll(jobs: map<string, JobState>, fails: bool)

  /** What one tick yields to the subscriber. */
  datatype ProgressUpdate = ProgressUpdate(completed: nat, total: nat, message: string, jobIds: seq<string>)

  const ErrorMessage: string := "Error checking progress"
  const MessageTail: string := " tasks completed"

  /** Number of finished jobs in a list of states. */
  function CountFinished(states: seq<JobState>): (c: nat)
    ensures c <= |states|
    ensures c == |states| <==> forall i :: 0 <= i < |states| ==> IsFinished(states[i])
    ensures c == 0 <==> forall i :: 0 <= i < |states| ==> !IsFinished(states[i])
  {
    if |states| == 0 then 0
    else
      var rest := CountFinished(states[1..]);
      assert forall i :: 1 <= i < |states| ==> states[i] == states[1..][i - 1];
      (if IsFinished(states[0]) then 1 else 0) + rest
  }

  /** The status of every requested job, in request order; None when the queue fails or any job is
      unknown to it (the status lookup throws "Job <id> not found"). */
  function Statuses(jobIds: seq<string>, poll: Poll): (r: Option<seq<JobState>>)
    ensures r.Some? <==> !poll.fails && forall i :: 0 <= i < |jobIds| ==> jobIds[i] in poll.jobs
    ensures r.Some? ==> |r.value| == |jobIds| && forall i :: 0 <= i < |jobIds| ==> r.value[i] == poll.jobs[jobIds[i]]
  {
    if poll.fails || exists i :: 0 <= i < |jobIds| && jobIds[i] !in poll.jobs then None
    else Some(seq(|jobIds|, i requires 0 <= i < |jobIds| => poll.jobs[jobIds[i]]))
  }

  function ProgressMessage(completed: nat, total: nat): string {
    Decimal.NatToString(completed) + " of " + Decimal.NatToString(total) + MessageTail
  }

  /** The record yielded after a failed round. */
  function ErrorUpdate(jobIds: seq<string>): ProgressUpdate {
    ProgressUpdate(0, 0, ErrorMessage, jobIds)
  }

  /** One tick: count finished jobs among the requested ones and describe the count; a failed
      round yields the zeroed error record instead. */
  function ProgressTick(jobIds: seq<string>, poll: Poll): (u: ProgressUpdate)
    ensures u.jobIds == jobIds
    ensures u.completed <= u.total
    ensures Statuses(jobIds, poll).None? ==> u == ErrorUpdate(jobIds)
    ensures Statuses(jobIds, poll).Some? ==>
              u.total == |jobIds| && u.completed == CountFinished(Statuses(jobIds, poll).value)
              && u.message == ProgressMessage(u.completed, u.total)
  {
    match Statuses(jobIds, poll)
    case None => ErrorUpdate(jobIds)
    case Some(states) =>
      var completed := CountFinished(states);
      ProgressUpdate(completed, |states|, ProgressMessage(completed, |states|), jobIds)
  }

  /** The loop ends after a tick in which every one of at least one job is done. */
  predicate ShouldStop(u: ProgressUpdate) {
    u.completed >= u.total && u.total > 0
  }

  /** Stopping happens exactly when the round succeeded, the list is non-empty and every requested
      job has completed or failed. */
  lemma StopsIffAllFinished(jobIds: seq<string>, poll: Poll)
    ensures ShouldStop(ProgressTick(jobIds, poll))
            <==> (Statuses(jobIds, poll).Some? && |jobIds| > 0
                  && forall i :: 0 <= i < |jobIds| ==> IsFinished(poll.jobs[jobIds[i]]))
  {
    var s := Statuses(jobIds, poll);
    if s.Some? {
      assert forall i :: 0 <= i < |jobIds| ==> s.value[i] == poll.jobs[jobIds[i]];
    }
  }

  /** With no job ids the loop never stops on its own; nor does it after an error round. */
  lemma NeverStopsOnEmptyOrError(jobIds: seq<string>, poll: Poll)
    requires jobIds == [] || Statuses(jobIds, poll).None?
    ensures !ShouldStop(ProgressTick(jobIds, poll))
  {
  }

  predicate AllDigits(s: string) {
    forall i :: 0 <= i < |s| ==> Decimal.IsDigit(s[i])
  }

  /** When two splits of one string differ in length, the longer first part covers the first
      character of the shorter split's second part. */
  lemma ShorterSplitSeesDigit(x: string, y: string, x': string, y': string)
    requires AllDigits(x') && |y| > 0 && |x| < |x'|
    requires x + y == x' + y'
    ensures Decimal.IsDigit(y[0])
  {
    assert (x + y)[|x|] == y[0];
    assert (x' + y')[|x|] == x'[|x|];
  }

  /** A digit run followed by a non-digit splits a string in one way only. */
  lemma DigitPrefixUnique(x: string, y: string, x': string, y': string)
    requires AllDigits(x) && AllDigits(x')
    requires |y| > 0 && |y'| > 0 && !Decimal.IsDigit(y[0]) && !Decimal.IsDigit(y'[0])
    requires x + y == x' + y'
    ensures x == x' && y == y'
  {
    if |x| < |x'| {
      ShorterSplitSeesDigit(x, y, x', y');
      assert false;
    } else if |x'| < |x| {
      ShorterSplitSeesDigit(x', y', x, y);
      assert false;
    } else {
      assert x == (x + y)[..|x|] && x' == (x' + y')[..|x'|];
      assert y == (x + y)[|x|..] && y' == (x' + y')[|x'|..];
    }
  }

  /** The message is the completed count's digits followed by a part that starts with a space and,
      four characters on, holds the total's digits followed by the tail. */
  lemma MessageShape(c: nat, t: nat)
    ensures var rest := " of " + Decimal.NatToString(t) + MessageTail;
            ProgressMessage(c, t) == Decimal.NatToString(c) + rest
            && |rest| > 4 && rest[0] == ' ' && rest[4..] == Decimal.NatToString(t) + MessageTail
  {
    var b := Decimal.NatToString(t);
    assert (" of " + b + MessageTail)[4..] == b + MessageTail;
  }

  /** The message names both counts: different counts never give the same message. */
  lemma MessageDeterminesCounts(c: nat, t: nat, c': nat, t': nat)
    requires ProgressMessage(c, t) == ProgressMessage(c', t')
    ensures c == c' && t == t'
  {
    var a, a' := Decimal.NatToString(c), Decimal.NatToString(c');
    var b, b' := Decimal.NatToString(t), Decimal.NatToString(t');
    var rest, rest' := " of " + b + MessageTail, " of " + b' + MessageTail;
    MessageShape(c, t);
    MessageShape(c', t');
    DigitPrefixUnique(a, rest, a', rest');
    assert b + MessageTail == b' + MessageTail by {
      assert rest[4..] == rest'[4..];
    }
    assert MessageTail[0] == ' ';
    DigitPrefixUnique(b, MessageTail, b', MessageTail);
    Decimal.NatToStringInjective(c, c');
    Decimal.NatToStringInjective(t, t');
  }

  /** The subscription loop: one tick per round the queue answers, ending right after the first tick
      that reports every job done. The rounds available before the client aborts are given as polls;
      the sleeps between rounds are not modelled. */
  method SubscribeToJobProgress(jobIds: seq<string>, polls: seq<Poll>) returns (updates: seq<ProgressUpdate>)
    ensures |updates| <= |polls|
    ensures forall i :: 0 <= i < |updates| ==> updates[i] == ProgressTick(jobIds, polls[i])
    ensures forall i :: 0 <= i < |updates| - 1 ==> !ShouldStop(updates[i])
    ensures |updates| < |polls| ==> |updates| > 0 && ShouldStop(updates[|updates| - 1])
  {
    updates := [];
    var k := 0;
    while k < |polls|
      invariant 0 <= k <= |polls| && |updates| == k
      invariant forall i :: 0 <= i < k ==> updates[i] == ProgressTick(jobIds, polls[i])
      invariant forall i :: 0 <= i < k ==> !ShouldStop(updates[i])
    {
      var u := ProgressTick(jobIds, polls[k]);
      updates := updates + [u];
      if ShouldStop(u) {
        return;
      }
      k := k + 1;
    }
  }

  /** The accepted listTasks input, defaults filled in. */
  datatype ListTasksInput = ListTasksInput(limit: int, offset: int)

  datatype InputIssue = LimitBelowMinimum | LimitAboveMaximum | OffsetBelowMinimum

  const DefaultLimit: int := 20
  const DefaultOffset: int := 0
  const MaxLimit: int := 100

  function OrDefault(v: Option<int>, d: int): (r: int)
    ensures v.None? ==> r == d
    ensures v.Some? ==> r == v.value
  {
    if v.Some? then v.value else d
  }

  /** listTasks input validation: a missing limit is 20 and a missing offset 0; then limit must lie
      in 1..100 and offset be at least 0, and every violated bound is reported. */
  function ParseListTasksInput(limit: Option<int>, offset: Option<int>): (r: Result<ListTasksInput, seq<InputIssue>>)
    ensures r.Ok? <==> 1 <= OrDefault(limit, DefaultLimit) <= MaxLimit && OrDefault(offset, DefaultOffset) >= 0
    ensures r.Ok? ==> r.value == ListTasksInput(OrDefault(limit, DefaultLimit), OrDefault(offset, DefaultOffset))
    ensures r.Err? ==> |r.error| > 0
                       && (LimitBelowMinimum in r.error <==> OrDefault(limit, DefaultLimit) < 1)
                       && (LimitAboveMaximum in r.error <==> OrDefault(limit, DefaultLimit) > MaxLimit)
                       && (OffsetBelowMinimum in r.error <==> OrDefault(offset, DefaultOffset) < 0)
  {
    var l := OrDefault(limit, DefaultLimit);
    var o := OrDefault(offset, DefaultOffset);
    var issues := (if l < 1 then [LimitBelowMinimum] else [])
                  + (if l > MaxLimit then [LimitAboveMaximum] else [])
                  + (if o < 0 then [OffsetBelowMinimum] else []);
    if issues == [] then Ok(ListTasksInput(l, o)) else Err(issues)
  }

  /** Every accepted input has a page size in 1..100 and a non-negative offset, and omitting both
      fields is accepted as the first page of 20. */
  lemma ListTasksBounds(limit: Option<int>, offset: Option<int>)
    ensures ParseListTasksInput(None, None) == Ok(ListTasksInput(20, 0))
    ensures ParseListTasksInput(limit, offset).Ok? ==>
              var v := ParseListTasksInput(limit, offset).value;
              1 <= v.limit <= 100 && v.offset >= 0
  {
  }
}
