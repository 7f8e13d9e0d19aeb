/**
 * The delivery side of `send_messages`: the retry loop of `send_one` for one
 * recipient and the loop over all recipients that counts successes, records
 * failures and pauses between messages.
 *
 * The SMTP exchange is replaced by an outcome per attempt: `outcome(k)` says
 * whether attempt `k` (counting from 1) delivered the message or raised an
 * exception with the given text. Building the message, which the `email`
 * package may refuse, and printing the `Sent` line, which may raise, are
 * likewise given as the error they raise, if any. Durations are integers
 * in a fixed unit; `time.sleep` of a negative duration raises, as in Python.
 */
module Sender {
  import opened Wrappers

  /** The result of one connect-login-send attempt. */
  datatype Outcome = Delivered | Refused(error: string)

  /** What `send_one` did: the number of attempts made, the backoff slept
      before each retry, and the text of the exception it let escape. */
  datatype Delivery = Delivery(attempts: nat, backoffs: seq<int>, failure: Option<string>)

  /** The message of the `ValueError` that `time.sleep` raises on a negative
      duration. */
  const NegativeSleep := "sleep length must be non-negative"

  /** `attempt > retries` lets an exception escape at this attempt number
      at the latest. */
  function MaxAttempts(retries: int): (n: nat)
    ensures n >= 1 && n > retries
    ensures n == 1 || n - 1 <= retries
  {
    if retries < 0 then 1 else retries + 1
  }

  /** The retry loop, from attempt `attempt` on. */
  function Attempts(outcome: nat -> Outcome, retries: int, delay: int, attempt: nat): (d: Delivery)
    requires 1 <= attempt <= MaxAttempts(retries)
    decreases MaxAttempts(retries) - attempt
  {
    match outcome(attempt)
    case Delivered => Delivery(attempt, [], None)
    case Refused(e) =>
      if attempt > retries then Delivery(attempt, [], Some(e))
      else if delay * attempt < 0 then Delivery(attempt, [], Some(NegativeSleep))
      else
        var rest := Attempts(outcome, retries, delay, attempt + 1);
        Delivery(rest.attempts, [delay * attempt] + rest.backoffs, rest.failure)
  }

  /** The retry loop of `send_one(recipient)`, from the first attempt. */
  function Deliver(outcome: nat -> Outcome, retries: int, delay: int): Delivery {
    Attempts(outcome, retries, delay, 1)
  }

  /** `send_one(recipient)`: the message is built first, and an error in
      building it (`buildError`) escapes before any attempt is made;
      otherwise the retry loop runs. */
  function SendRecipient(buildError: Option<string>, outcome: nat -> Outcome, retries: int, delay: int): Delivery {
    if buildError.Some? then Delivery(0, [], buildError) else Deliver(outcome, retries, delay)
  }

  /** A backoff of `delay * attempt` is negative exactly when `delay` is. */
  lemma BackoffSign(delay: int, attempt: nat)
    requires attempt >= 1
    ensures delay * attempt < 0 <==> delay < 0
    ensures delay >= 0 ==> delay * attempt >= delay
  {
    if delay < 0 {
      assert delay * attempt <= delay * 1;
    } else {
      assert delay * attempt >= delay * 1;
    }
  }

  /** The retry loop from `attempt`: every attempt before the last was
      refused; the loop gives up with no exception exactly when the last
      attempt delivered; with a non-negative delay the `j`-th backoff is
      `delay * (attempt + j)` and a failure only comes after the last
      allowed attempt, with that attempt's error; with a negative delay the
      first refusal that may be retried fails on the sleep. */
  lemma {:induction false} AttemptsShape(outcome: nat -> Outcome, retries: int, delay: int, attempt: nat)
    requires 1 <= attempt <= MaxAttempts(retries)
    ensures var d := Attempts(outcome, retries, delay, attempt);
      && attempt <= d.attempts <= MaxAttempts(retries)
      && (forall k :: attempt <= k < d.attempts ==> outcome(k).Refused?)
      && (d.failure.None? <==> outcome(d.attempts) == Delivered)
    ensures var d := Attempts(outcome, retries, delay, attempt);
      delay >= 0 ==>
        && |d.backoffs| == d.attempts - attempt
        && (forall j :: 0 <= j < |d.backoffs| ==> d.backoffs[j] == delay * (attempt + j))
        && (d.failure.Some? ==> d.attempts == MaxAttempts(retries) && d.failure == Some(outcome(d.attempts).error))
    ensures var d := Attempts(outcome, retries, delay, attempt);
      delay < 0 ==>
        && d.attempts == attempt && d.backoffs == []
        && (outcome(attempt).Refused? ==> d.failure == Some(if attempt > retries then outcome(attempt).error else NegativeSleep))
    decreases MaxAttempts(retries) - attempt
  {
    BackoffSign(delay, attempt);
    if outcome(attempt).Refused? && attempt <= retries && delay >= 0 {
      var rest := Attempts(outcome, retries, delay, attempt + 1);
      AttemptsShape(outcome, retries, delay, attempt + 1);
      var d := Attempts(outcome, retries, delay, attempt);
      assert d.backoffs == [delay * attempt] + rest.backoffs;
      forall j | 0 <= j < |d.backoffs|
        ensures d.backoffs[j] == delay * (attempt + j)
      {
        if j > 0 {
          assert d.backoffs[j] == rest.backoffs[j - 1];
        }
      }
    }
  }

  /** With a non-negative delay, `send_one` gives up exactly when every one
      of the `MaxAttempts(retries)` allowed attempts was refused; otherwise
      it stops at the first attempt that delivered. */
  lemma DeliverFailsOnlyIfAllFail(outcome: nat -> Outcome, retries: int, delay: int)
    requires delay >= 0
    ensures var d := Deliver(outcome, retries, delay);
      d.failure.Some? <==> forall k :: 1 <= k <= MaxAttempts(retries) ==> outcome(k).Refused?
    ensures var d := Deliver(outcome, retries, delay);
      d.failure.None? ==> outcome(d.attempts) == Delivered && forall k :: 1 <= k < d.attempts ==> outcome(k).Refused?
  {
    AttemptsShape(outcome, retries, delay, 1);
  }

  /** With a non-negative delay, `send_one` fails exactly when the message
      cannot be built or every allowed attempt is refused; a message that
      cannot be built fails with that error after no attempt at all. */
  lemma SendRecipientFails(buildError: Option<string>, outcome: nat -> Outcome, retries: int, delay: int)
    requires delay >= 0
    ensures var d := SendRecipient(buildError, outcome, retries, delay);
      d.failure.Some? <==> buildError.Some? || forall k :: 1 <= k <= MaxAttempts(retries) ==> outcome(k).Refused?
    ensures var d := SendRecipient(buildError, outcome, retries, delay);
      buildError.Some? ==> d.attempts == 0 && d.failure == buildError
    ensures var d := SendRecipient(buildError, outcome, retries, delay);
      buildError.None? ==> d.attempts >= 1
  {
    if buildError.None? {
      DeliverFailsOnlyIfAllFail(outcome, retries, delay);
      DeliverBounded(outcome, retries, delay);
    }
  }

  /** The number of attempts never exceeds `retries + 1` (one when
      `retries` is negative), and there is one backoff per retry. */
  lemma DeliverBounded(outcome: nat -> Outcome, retries: int, delay: int)
    ensures var d := Deliver(outcome, retries, delay);
      1 <= d.attempts <= MaxAttempts(retries) && |d.backoffs| <= d.attempts - 1
  {
    AttemptsShape(outcome, retries, delay, 1);
  }

  /** The `k`-th backoff is `retry_delay * k`, so with a positive delay the
      waits strictly grow; a negative delay leaves no backoff at all. */
  lemma DeliverBackoffs(outcome: nat -> Outcome, retries: int, delay: int)
    ensures var d := Deliver(outcome, retries, delay);
      forall j :: 0 <= j < |d.backoffs| ==> d.backoffs[j] == delay * (j + 1)
    ensures var d := Deliver(outcome, retries, delay);
      delay > 0 ==> forall i, j :: 0 <= i < j < |d.backoffs| ==> d.backoffs[i] < d.backoffs[j]
  {
    var d := Deliver(outcome, retries, delay);
    AttemptsShape(outcome, retries, delay, 1);
    forall i, j | 0 <= i < j < |d.backoffs| && delay > 0
      ensures d.backoffs[i] < d.backoffs[j]
    {
      assert d.backoffs[j] - d.backoffs[i] == delay * (j - i);
      BackoffSign(delay, j - i);
    }
  }

  /** With a negative delay the sleep before the first retry raises, so
      `send_one` makes one attempt and, when that is refused and a retry
      was allowed, fails with the sleep's error. */
  lemma DeliverNegativeDelay(outcome: nat -> Outcome, retries: int, delay: int)
    requires delay < 0
    ensures var d := Deliver(outcome, retries, delay);
      && d.attempts == 1 && d.backoffs == []
      && (d.failure.None? <==> outcome(1) == Delivered)
      && (outcome(1).Refused? ==> d.failure == Some(if retries >= 1 then NegativeSleep else outcome(1).error))
  {
    AttemptsShape(outcome, retries, delay, 1);
  }

  /** `backoffs` followed by what the loop still does. */
  function Resume(backoffs: seq<int>, rest: Delivery): Delivery {
    Delivery(rest.attempts, backoffs + rest.backoffs, rest.failure)
  }

  /** `send_one` as written: the message, then a `while True` loop counting
      attempts. */
  method SendOne(buildError: Option<string>, outcome: nat -> Outcome, retries: int, delay: int) returns (d: Delivery)
    ensures d == SendRecipient(buildError, outcome, retries, delay)
  {
    if buildError.Some? {
      return Delivery(0, [], buildError);
    }
    var attempt: nat := 0;
    var backoffs: seq<int> := [];
    while true
      invariant attempt < MaxAttempts(retries)
      invariant Deliver(outcome, retries, delay) == Resume(backoffs, Attempts(outcome, retries, delay, attempt + 1))
      decreases MaxAttempts(retries) - attempt
    {
      attempt := attempt + 1;
      match outcome(attempt) {
        case Delivered =>
          return Delivery(attempt, backoffs, None);
        case Refused(e) =>
          if attempt > retries {
            return Delivery(attempt, backoffs, Some(e));
          }
          var backoff := delay * attempt;
          if backoff < 0 {
            return Delivery(attempt, backoffs, Some(NegativeSleep));
          }
          assert backoffs + ([backoff] + Attempts(outcome, retries, delay, attempt + 1).backoffs)
              == (backoffs + [backoff]) + Attempts(outcome, retries, delay, attempt + 1).backoffs;
          backoffs := backoffs + [backoff];
      }
    }
  }

  // ---------------------------------------------------------------------
  // The loop over all recipients

  /** The tallies of `send_messages`: successes, `(email, reason)` per
      failure, the pauses slept, and whether a pause raised and ended the
      batch early. */
  datatype Report = Report(successes: nat, failures: seq<(string, string)>, pauses: nat, aborted: bool)

  const Nothing := Report(0, [], 0, false)

  /** The tallies of one stretch followed by those of the next. */
  function Combine(a: Report, b: Report): Report {
    Report(a.successes + b.successes, a.failures + b.failures, a.pauses + b.pauses, a.aborted || b.aborted)
  }

  lemma CombineAssociative(a: Report, b: Report, c: Report)
    ensures Combine(Combine(a, b), c) == Combine(a, Combine(b, c))
  {
    assert (a.failures + b.failures) + c.failures == a.failures + (b.failures + c.failures);
  }

  /** The empty report is neutral on both sides. */
  lemma CombineNothing(r: Report)
    ensures Combine(Nothing, r) == r && Combine(r, Nothing) == r
  {
    assert r.failures + [] == r.failures;
  }

  /** One turn of the loop over recipients: the delivery, and the error that
      printing the `Sent` line raised, if any. */
  datatype Turn = Turn(delivery: Delivery, notice: Option<string>)

  /** The tally of one turn. The `Sent` line is printed inside the `try`,
      after `successes += 1`: when that print raises, the recipient is
      counted as a success and also recorded as a failure. */
  function Tally(email: string, t: Turn): (r: Report)
    ensures r.pauses == 0 && !r.aborted && |r.failures| <= 1
    ensures r.successes == 1 <==> t.delivery.failure.None?
    ensures r.failures == [] <==> t.delivery.failure.None? && t.notice.None?
    ensures forall f :: f in r.failures ==> f.0 == email
  {
    if t.delivery.failure.Some? then Report(0, [(email, t.delivery.failure.value)], 0, false)
    else if t.notice.Some? then Report(1, [(email, t.notice.value)], 0, false)
    else Report(1, [], 0, false)
  }

  /** A delivered recipient whose `Sent` line fails to print counts twice:
      once as a success and once as a failure with the print's error. */
  lemma NoticeFailureCountsTwice(email: string, d: Delivery, e: string)
    requires d.failure.None?
    ensures var r := Tally(email, Turn(d, Some(e)));
      r.successes == 1 && r.failures == [(email, e)]
  {
  }

  /** The turn of each recipient, by 0-based position (the source counts
      from 1). */
  function Sends(buildError: nat -> Option<string>, outcome: nat -> nat -> Outcome, notice: nat -> Option<string>,
                 retries: int, delay: int): nat -> Turn {
    (i: nat) => Turn(SendRecipient(buildError(i), outcome(i), retries, delay), notice(i))
  }

  /** The recipients from position `i` on, each delivered as `send` says.
      After each one, `if args.pause and idx < total` sleeps; a negative
      pause raises outside the `try` and ends the batch. */
  function BatchFrom(emails: seq<string>, send: nat -> Turn, pause: int, i: nat): Report
    requires i <= |emails|
    decreases |emails| - i
  {
    if i == |emails| then Nothing
    else
      var head := Tally(emails[i], send(i));
      if pause != 0 && i + 1 < |emails| then
        if pause < 0 then Combine(head, Report(0, [], 0, true))
        else Combine(Combine(head, Report(0, [], 1, false)), BatchFrom(emails, send, pause, i + 1))
      else Combine(head, BatchFrom(emails, send, pause, i + 1))
  }

  /** `send_messages` over all recipients. */
  function Batch(emails: seq<string>, buildError: nat -> Option<string>, outcome: nat -> nat -> Outcome,
                 notice: nat -> Option<string>, retries: int, delay: int, pause: int): Report {
    BatchFrom(emails, Sends(buildError, outcome, notice, retries, delay), pause, 0)
  }

  /** The number of recipients the batch gets through: all of them, unless
      a negative pause ends it after the first. */
  function Processed(n: nat, pause: int): nat {
    if pause < 0 && n >= 2 then 1 else n
  }

  /** Reference definition: the tallies of the recipients `i..n` with no
      pausing at all. */
  function Tallies(emails: seq<string>, send: nat -> Turn, i: nat, n: nat): Report
    requires i <= n <= |emails|
    decreases n - i
  {
    if i == n then Nothing else Combine(Tally(emails[i], send(i)), Tallies(emails, send, i + 1, n))
  }

  /** How many of the recipients `i..n` were delivered. */
  function DeliveredCount(send: nat -> Turn, i: nat, n: nat): (c: nat)
    requires i <= n
    ensures c <= n - i
    decreases n - i
  {
    if i == n then 0
    else (if send(i).delivery.failure.None? then 1 else 0) + DeliveredCount(send, i + 1, n)
  }

  /** How many of the recipients `i..n` were delivered and then failed to
      print their `Sent` line. */
  function NoticeFailures(send: nat -> Turn, i: nat, n: nat): (c: nat)
    requires i <= n
    ensures c <= DeliveredCount(send, i, n)
    decreases n - i
  {
    if i == n then 0
    else (if send(i).delivery.failure.None? && send(i).notice.Some? then 1 else 0) + NoticeFailures(send, i + 1, n)
  }

  /** Among `i..n`: the successes are the delivered recipients; the failures
      are the undelivered ones plus the delivered ones whose `Sent` line
      raised; each failure carries that recipient's address and the error
      that was raised for it. */
  lemma {:induction false} DeliveredOrFailed(emails: seq<string>, send: nat -> Turn, i: nat, n: nat)
    requires i <= n <= |emails|
    ensures var t := Tallies(emails, send, i, n);
      && t.successes == DeliveredCount(send, i, n)
      && |t.failures| == (n - i - DeliveredCount(send, i, n)) + NoticeFailures(send, i, n)
      && t.pauses == 0 && !t.aborted
    ensures var t := Tallies(emails, send, i, n);
      forall k :: 0 <= k < |t.failures| ==> exists j :: i <= j < n && t.failures[k].0 == emails[j] && FailedWith(send(j), t.failures[k].1)
    decreases n - i
  {
    if i < n {
      DeliveredOrFailed(emails, send, i + 1, n);
      var t := Tallies(emails, send, i, n);
      var head := Tally(emails[i], send(i));
      var rest := Tallies(emails, send, i + 1, n);
      forall k | 0 <= k < |t.failures|
        ensures exists j :: i <= j < n && t.failures[k].0 == emails[j] && FailedWith(send(j), t.failures[k].1)
      {
        if k < |head.failures| {
          assert t.failures[k] == head.failures[k];
          assert t.failures[k].0 == emails[i] && FailedWith(send(i), t.failures[k].1);
        } else {
          assert t.failures[k] == rest.failures[k - |head.failures|];
        }
      }
    }
  }

  /** The turn recorded a failure with reason `reason`: the delivery failed
      with it, or the delivery succeeded and the `Sent` line raised it. */
  predicate FailedWith(t: Turn, reason: string) {
    t.delivery.failure == Some(reason) || (t.delivery.failure.None? && t.notice == Some(reason))
  }

  /** When every `Sent` line prints, each recipient is counted exactly once. */
  lemma {:induction false} CountedOnce(emails: seq<string>, send: nat -> Turn, i: nat, n: nat)
    requires i <= n <= |emails|
    requires forall j :: i <= j < n ==> send(j).notice.None?
    ensures var t := Tallies(emails, send, i, n);
      t.successes + |t.failures| == n - i
    decreases n - i
  {
    DeliveredOrFailed(emails, send, i, n);
    NoNoticeFailures(send, i, n);
  }

  lemma {:induction false} NoNoticeFailures(send: nat -> Turn, i: nat, n: nat)
    requires i <= n
    requires forall j :: i <= j < n ==> send(j).notice.None?
    ensures NoticeFailures(send, i, n) == 0
    decreases n - i
  {
    if i < n {
      NoNoticeFailures(send, i + 1, n);
    }
  }

  /** A batch from `i` on, with a non-negative pause, tallies every
      recipient and pauses between each two of them when the pause is
      positive. */
  lemma {:induction false} BatchFromRuns(emails: seq<string>, send: nat -> Turn, pause: int, i: nat)
    requires i <= |emails| && pause >= 0
    ensures var r := BatchFrom(emails, send, pause, i);
      var t := Tallies(emails, send, i, |emails|);
      && r.successes == t.successes && r.failures == t.failures && !r.aborted
      && r.pauses == (if pause > 0 && i < |emails| then |emails| - 1 - i else 0)
    decreases |emails| - i
  {
    if i < |emails| {
      BatchFromRuns(emails, send, pause, i + 1);
      BatchFromStep(emails, send, pause, i);
    }
  }

  /** With a non-negative pause, the batch from `i` is recipient `i`'s
      tally, one pause when another recipient follows and the pause is
      positive, then the batch from `i + 1`. */
  lemma BatchFromStep(emails: seq<string>, send: nat -> Turn, pause: int, i: nat)
    requires i < |emails| && pause >= 0
    ensures var r := BatchFrom(emails, send, pause, i);
      var head := Tally(emails[i], send(i));
      var rest := BatchFrom(emails, send, pause, i + 1);
      && r.successes == head.successes + rest.successes
      && r.failures == head.failures + rest.failures
      && r.pauses == (if pause > 0 && i + 1 < |emails| then 1 else 0) + rest.pauses
      && r.aborted == rest.aborted
  {
    var head := Tally(emails[i], send(i));
    assert head.failures + [] == head.failures;
  }

  /** With a negative pause, the batch from `i` tallies recipient `i` and
      stops, aborted when another recipient was waiting. */
  lemma BatchFromStops(emails: seq<string>, send: nat -> Turn, pause: int, i: nat)
    requires i < |emails| && pause < 0
    ensures var r := BatchFrom(emails, send, pause, i);
      var t := Tallies(emails, send, i, i + 1);
      && r.successes == t.successes && r.failures == t.failures && r.pauses == 0
      && (r.aborted <==> i + 1 < |emails|)
  {
    var head := Tally(emails[i], send(i));
    assert Tallies(emails, send, i, i + 1) == Combine(head, Nothing);
    if i + 1 < |emails| {
      assert BatchFrom(emails, send, pause, i) == Combine(head, Report(0, [], 0, true));
    } else {
      assert BatchFrom(emails, send, pause, i) == Combine(head, Nothing);
    }
  }

  /** `send_messages`: successes and failures are those of the recipients
      processed; the successes are the delivered ones; successes and
      failures add up to the number processed plus one for each delivered
      recipient whose `Sent` line raised; the batch aborts exactly when a
      negative pause follows a recipient with another waiting; there are
      `|recipients| - 1` pauses when the pause is positive. */
  lemma BatchCounts(emails: seq<string>, buildError: nat -> Option<string>, outcome: nat -> nat -> Outcome,
                    notice: nat -> Option<string>, retries: int, delay: int, pause: int)
    ensures var r := Batch(emails, buildError, outcome, notice, retries, delay, pause);
      var send := Sends(buildError, outcome, notice, retries, delay);
      var t := Tallies(emails, send, 0, Processed(|emails|, pause));
      && (r.aborted <==> pause < 0 && |emails| >= 2)
      && r.successes == t.successes && r.failures == t.failures
      && r.successes == DeliveredCount(send, 0, Processed(|emails|, pause))
      && r.successes + |r.failures| == Processed(|emails|, pause) + NoticeFailures(send, 0, Processed(|emails|, pause))
      && r.pauses == (if pause > 0 && |emails| > 0 then |emails| - 1 else 0)
  {
    var send := Sends(buildError, outcome, notice, retries, delay);
    if pause >= 0 {
      BatchFromRuns(emails, send, pause, 0);
    } else if emails != [] {
      BatchFromStops(emails, send, pause, 0);
    }
    DeliveredOrFailed(emails, send, 0, Processed(|emails|, pause));
  }

  /** Folding recipient `i` into the running report `r`, as the loop body
      does, leaves what is still owed from `i + 1` on. */
  lemma SendStep(r: Report, emails: seq<string>, send: nat -> Turn, pause: int, i: nat)
    requires i < |emails|
    ensures var head := Tally(emails[i], send(i));
      pause < 0 && i + 1 < |emails| ==>
        Combine(Combine(r, head), Report(0, [], 0, true)) == Combine(r, BatchFrom(emails, send, pause, i))
    ensures var head := Tally(emails[i], send(i));
      pause > 0 && i + 1 < |emails| ==>
        Combine(Combine(Combine(r, head), Report(0, [], 1, false)), BatchFrom(emails, send, pause, i + 1))
          == Combine(r, BatchFrom(emails, send, pause, i))
    ensures var head := Tally(emails[i], send(i));
      (pause == 0 || i + 1 == |emails|) ==>
        Combine(Combine(r, head), BatchFrom(emails, send, pause, i + 1)) == Combine(r, BatchFrom(emails, send, pause, i))
  {
    var head := Tally(emails[i], send(i));
    var rest := BatchFrom(emails, send, pause, i + 1);
    if pause != 0 && i + 1 < |emails| {
      if pause < 0 {
        CombineAssociative(r, head, Report(0, [], 0, true));
      } else {
        CombineAssociative(r, head, Report(0, [], 1, false));
        CombineAssociative(r, Combine(head, Report(0, [], 1, false)), rest);
      }
    } else {
      CombineAssociative(r, head, rest);
    }
  }

  /** The loop of `send_messages` as written, with running tallies. */
  method SendMessages(emails: seq<string>, buildError: nat -> Option<string>, outcome: nat -> nat -> Outcome,
                      notice: nat -> Option<string>, retries: int, delay: int, pause: int) returns (r: Report)
    ensures r == Batch(emails, buildError, outcome, notice, retries, delay, pause)
  {
    ghost var send := Sends(buildError, outcome, notice, retries, delay);
    ghost var target := BatchFrom(emails, send, pause, 0);
    r := Nothing;
    var i := 0;
    CombineNothing(target);
    while i < |emails|
      invariant 0 <= i <= |emails|
      invariant Combine(r, BatchFrom(emails, send, pause, i)) == target
    {
      var d := SendOne(buildError(i), outcome(i), retries, delay);
      assert Turn(d, notice(i)) == send(i);
      var head := Tally(emails[i], Turn(d, notice(i)));
      SendStep(r, emails, send, pause, i);
      if pause != 0 && i + 1 < |emails| {
        if pause < 0 {
          return Combine(Combine(r, head), Report(0, [], 0, true));
        }
        r := Combine(Combine(r, head), Report(0, [], 1, false));
      } else {
        r := Combine(r, head);
      }
      i := i + 1;
    }
    CombineNothing(r);
  }
}
