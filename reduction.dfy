/** Reducing a log until it fits a token budget (reduce_log).

    While the log is over the limit, the longest message that is not pinned
    has its code blocks truncated and is put back at its own index. The
    recursion stops when the log fits, or when the re-measured count equals
    the count passed down from the previous step (no progress). */
module Reduction {
  import opened Messages
  import opened Truncation

  /** The default budget, and a hard limit that no algorithm uses. */
  const TokenLimitSoft: nat := 6000
  const TokenLimitHard: nat := 7000

  /** The truncation window reduce_log uses: truncate_msg's defaults. */
  const LinesPre: nat := 10
  const LinesPost: nat := 10

  /** The index that `max` over the non-pinned messages, keyed by their
      token count, returns: the first non-pinned message of maximal count.
      None when every message is pinned (`max` of an empty list fails). */
  function LongestUnpinned(count: Counter, log: Log): (r: Option<nat>)
    ensures r.None? <==> forall k :: 0 <= k < |log| ==> log[k].pinned
    ensures r.Some? ==>
              r.value < |log| && !log[r.value].pinned &&
              (forall k :: 0 <= k < |log| && !log[k].pinned ==>
                 count(log[k].content) <= count(log[r.value].content)) &&
              (forall k :: 0 <= k < r.value && !log[k].pinned ==>
                 count(log[k].content) < count(log[r.value].content))
  {
    if log == [] then None
    else
      var last := |log| - 1;
      var best := LongestUnpinned(count, log[..last]);
      if log[last].pinned then best
      else if best.Some? && count(log[last].content) <= count(log[best.value].content) then best
      else Some(last)
  }

  /** The number of code blocks of a content that truncation would shorten. */
  function LongBlocks(c: Content): nat
  {
    if c == [] then 0
    else (if IsLong(c[0], LinesPre, LinesPost) then 1 else 0) + LongBlocks(c[1..])
  }

  lemma {:induction false} LongBlocksZero(c: Content)
    ensures LongBlocks(c) == 0 <==> forall k :: 0 <= k < |c| ==> !IsLong(c[k], LinesPre, LinesPost)
  {
    if c != [] {
      LongBlocksZero(c[1..]);
      assert forall k :: 1 <= k < |c| ==> c[k] == c[1..][k - 1];
    }
  }

  /** The number of long code blocks in a whole log: the termination measure. */
  function LogLongBlocks(log: Log): nat
  {
    if log == [] then 0 else LongBlocks(log[0].content) + LogLongBlocks(log[1..])
  }

  lemma {:induction false} LogLongBlocksUpdate(log: Log, i: nat, m: Message)
    requires i < |log|
    ensures LogLongBlocks(log[i := m])
            == LogLongBlocks(log) - LongBlocks(log[i].content) + LongBlocks(m.content)
  {
    if i > 0 {
      assert log[i := m][1..] == log[1..][i - 1 := m];
      LogLongBlocksUpdate(log[1..], i - 1, m);
    } else {
      assert log[i := m][1..] == log[1..];
    }
  }

  /** A truncation that changes a message removes all its long blocks, and it had some. */
  lemma TruncationRemovesLongBlocks(msg: Message, m: Message)
    requires Truncated(msg, LinesPre, LinesPost) == Ok(Some(m))
    ensures LongBlocks(m.content) == 0 < LongBlocks(msg.content)
  {
    LongBlocksZero(m.content);
    LongBlocksZero(msg.content);
  }

  /** Splicing a message in at index i, as the source's slice concatenation does. */
  lemma SpliceFacts(count: Counter, log: Log, i: nat, m: Message)
    requires i < |log|
    ensures var next := log[..i] + [m] + log[i + 1..];
            next == log[i := m] &&
            LogTokens(count, next) == LogTokens(count, log) - count(log[i].content) + count(m.content) &&
            LogLongBlocks(next) == LogLongBlocks(log) - LongBlocks(log[i].content) + LongBlocks(m.content)
  {
    assert log[..i] + [m] + log[i + 1..] == log[i := m];
    LogTokensUpdate(count, log, i, m);
    LogLongBlocksUpdate(log, i, m);
  }

  /** One reduction step: truncate the target and splice it back at its index. */
  function ReduceStep(count: Counter, log: Log): (r: Result<Log>)
    ensures r == Err(NoReducibleMessage) <==> forall k :: 0 <= k < |log| ==> log[k].pinned
    ensures r == Err(BlockNotFound) ==>
              exists k :: 0 <= k < |log| && RepeatsLongBlock(log[k].content, LinesPre, LinesPost)
    ensures r.Ok? ==>
              LongestUnpinned(count, log).Some? && |r.value| == |log| &&
              var i := LongestUnpinned(count, log).value;
              (forall k :: 0 <= k < |log| && k != i ==> r.value[k] == log[k]) &&
              (r.value[i] == log[i] || Truncated(log[i], LinesPre, LinesPost) == Ok(Some(r.value[i]))) &&
              LogTokens(count, r.value)
                == LogTokens(count, log) - count(log[i].content) + count(r.value[i].content)
    ensures r.Ok? ==>
              forall k :: 0 <= k < |log| ==>
                r.value[k].pinned == log[k].pinned && r.value[k].role == log[k].role
    ensures r.Ok? ==> r.value == log || LogLongBlocks(r.value) < LogLongBlocks(log)
    ensures LongestUnpinned(count, log).Some? ==>
              var i := LongestUnpinned(count, log).value;
              var t := Truncated(log[i], LinesPre, LinesPost);
              (t.Err? ==> r == Err(BlockNotFound)) &&
              (t == Ok(None) ==> r == Ok(log)) &&
              (t.Ok? && t.value.Some? ==> r == Ok(log[i := t.value.value]))
  {
    match LongestUnpinned(count, log)
    case None => Err(NoReducibleMessage)
    case Some(i) =>
      match Truncated(log[i], LinesPre, LinesPost)
      case Err(e) => Err(e)
      case Ok(t) =>
        var summary := if t.Some? then t.value else log[i];
        var next := log[..i] + [summary] + log[i + 1..];
        SpliceFacts(count, log, i, summary);
        assert t.Some? ==> LongBlocks(summary.content) == 0 < LongBlocks(log[i].content) by {
          if t.Some? {
            TruncationRemovesLongBlocks(log[i], summary);
          }
        }
        Ok(next)
  }

  /** The measure that decreases with every recursive call of ReduceLog. */
  function Progress(count: Counter, log: Log, prevLen: Option<nat>): nat
  {
    2 * LogLongBlocks(log) + (if prevLen == Some(LogTokens(count, log)) then 0 else 1)
  }

  /** An over-limit result can only come from the stall guard: it is the
      outcome of a step that left the count as it was, or of the first step
      taken here when its count equals the count passed down. */
  ghost predicate StoppedAtStall(count: Counter, log: Log, prevLen: Option<nat>, result: Log)
  {
    exists p: Log :: ReduceStep(count, p) == Ok(result) &&
      (LogTokens(count, p) == LogTokens(count, result) ||
       (p == log && prevLen == Some(LogTokens(count, result))))
  }

  /** result is reached from log by n successful steps, each taken on a log
      over the limit. The chain is determined by log, and it cannot go past
      a log that fits. */
  ghost predicate StepsTo(count: Counter, limit: int, log: Log, result: Log, n: nat)
    decreases n
  {
    if n == 0 then result == log
    else
      LogTokens(count, log) > limit && ReduceStep(count, log).Ok? &&
      StepsTo(count, limit, ReduceStep(count, log).value, result, n - 1)
  }

  /** A stall found one recursion further down is a stall of the caller too. */
  lemma StallPropagates(count: Counter, log: Log, prevLen: Option<nat>, next: Log, result: Log)
    requires ReduceStep(count, log) == Ok(next)
    requires StoppedAtStall(count, next, Some(LogTokens(count, next)), result)
    ensures StoppedAtStall(count, log, prevLen, result)
  {
    var p: Log :| ReduceStep(count, p) == Ok(result) &&
      (LogTokens(count, p) == LogTokens(count, result) ||
       (p == next && Some(LogTokens(count, next)) == Some(LogTokens(count, result))));
    assert LogTokens(count, p) == LogTokens(count, result);
  }

  /** reduce_log: the log itself when it fits; otherwise one step, then stop
      if the new log fits or its count equals prevLen, else recurse with the
      new count. */
  function ReduceLog(count: Counter, log: Log, limit: int, prevLen: Option<nat>): (r: Result<Log>)
    ensures LogTokens(count, log) <= limit ==> r == Ok(log)
    ensures r == Err(NoReducibleMessage) <==>
              LogTokens(count, log) > limit && forall k :: 0 <= k < |log| ==> log[k].pinned
    ensures r == Err(BlockNotFound) ==>
              exists k :: 0 <= k < |log| && RepeatsLongBlock(log[k].content, LinesPre, LinesPost)
    ensures r.Ok? ==> |r.value| == |log|
    decreases Progress(count, log, prevLen)
  {
    if LogTokens(count, log) <= limit then Ok(log)
    else
      match ReduceStep(count, log)
      case Err(e) => Err(e)
      case Ok(next) =>
        var tokens := LogTokens(count, next);
        if tokens <= limit then Ok(next)
        else if prevLen == Some(tokens) then Ok(next)
        else
          var r := ReduceLog(count, next, limit, Some(tokens));
          ReduceErrorCompose(count, log, next, r);
          r
  }

  /** An over-limit result can only come from the stall guard. */
  lemma {:induction false} ReduceLogStopsAtStall(count: Counter, log: Log, limit: int, prevLen: Option<nat>)
    requires ReduceLog(count, log, limit, prevLen).Ok?
    requires LogTokens(count, ReduceLog(count, log, limit, prevLen).value) > limit
    ensures StoppedAtStall(count, log, prevLen, ReduceLog(count, log, limit, prevLen).value)
    decreases Progress(count, log, prevLen)
  {
    var r := ReduceLog(count, log, limit, prevLen).value;
    assert LogTokens(count, log) > limit;
    var next := ReduceStep(count, log).value;
    assert ReduceStep(count, log) == Ok(next);
    var tokens := LogTokens(count, next);
    if prevLen == Some(tokens) {
      assert r == next;
    } else {
      assert ReduceLog(count, log, limit, prevLen) == ReduceLog(count, next, limit, Some(tokens));
      ReduceLogStopsAtStall(count, next, limit, Some(tokens));
      StallPropagates(count, log, prevLen, next, r);
    }
  }

  /** An Ok result other than the log comes from one step on a log over the
      limit, either directly or through the recursive call on that step's log
      with its count passed down, which is a smaller problem. */
  lemma ReduceLogUnfold(count: Counter, log: Log, limit: int, prevLen: Option<nat>) returns (next: Log)
    requires ReduceLog(count, log, limit, prevLen).Ok?
    requires ReduceLog(count, log, limit, prevLen).value != log
    ensures LogTokens(count, log) > limit && ReduceStep(count, log) == Ok(next)
    ensures ReduceLog(count, log, limit, prevLen).value == next ||
            (LogTokens(count, next) > limit && prevLen != Some(LogTokens(count, next)) &&
             ReduceLog(count, log, limit, prevLen) == ReduceLog(count, next, limit, Some(LogTokens(count, next))) &&
             Progress(count, next, Some(LogTokens(count, next))) < Progress(count, log, prevLen))
  {
    next := ReduceStep(count, log).value;
  }

  /** A result is reached from the log by a chain of steps each taken on a
      log over the limit: reduction never steps on a log that already fits,
      so it stops at the first log of the chain that fits. */
  lemma {:induction false} ReduceLogStopsWhenFits(count: Counter, log: Log, limit: int, prevLen: Option<nat>)
    requires ReduceLog(count, log, limit, prevLen).Ok?
    ensures exists n: nat :: StepsTo(count, limit, log, ReduceLog(count, log, limit, prevLen).value, n)
    decreases Progress(count, log, prevLen)
  {
    var r := ReduceLog(count, log, limit, prevLen).value;
    if r == log {
      assert StepsTo(count, limit, log, r, 0);
    } else {
      var next := ReduceLogUnfold(count, log, limit, prevLen);
      if r == next {
        StepsToCons(count, limit, log, next, r, 0);
      } else {
        ReduceLogStopsWhenFits(count, next, limit, Some(LogTokens(count, next)));
        var n: nat :| StepsTo(count, limit, next, r, n);
        StepsToCons(count, limit, log, next, r, n);
      }
    }
  }

  /** A failure other than one of this call's own step comes from the
      recursive call on that step's log, with its count passed down. */
  lemma ReduceLogErrUnfold(count: Counter, log: Log, limit: int, prevLen: Option<nat>) returns (next: Log)
    requires ReduceLog(count, log, limit, prevLen).Err?
    requires ReduceStep(count, log).Ok?
    ensures LogTokens(count, log) > limit && ReduceStep(count, log) == Ok(next)
    ensures LogTokens(count, next) > limit && prevLen != Some(LogTokens(count, next))
    ensures ReduceLog(count, log, limit, prevLen) == ReduceLog(count, next, limit, Some(LogTokens(count, next)))
    ensures Progress(count, next, Some(LogTokens(count, next))) < Progress(count, log, prevLen)
  {
    next := ReduceStep(count, log).value;
  }

  /** reduce_log fails only where the source raises: at a log on the chain of
      steps, still over the limit, whose own step fails (every message
      pinned, or the target repeats a long block). */
  lemma {:induction false} ReduceLogFailsOnChain(count: Counter, log: Log, limit: int, prevLen: Option<nat>)
    requires ReduceLog(count, log, limit, prevLen).Err?
    ensures exists n: nat, p: Log ::
              StepsTo(count, limit, log, p, n) && LogTokens(count, p) > limit &&
              ReduceStep(count, p) == ReduceLog(count, log, limit, prevLen)
    decreases Progress(count, log, prevLen)
  {
    if ReduceStep(count, log).Err? {
      assert LogTokens(count, log) > limit;
      assert ReduceStep(count, log) == ReduceLog(count, log, limit, prevLen);
      assert StepsTo(count, limit, log, log, 0);
    } else {
      var next := ReduceLogErrUnfold(count, log, limit, prevLen);
      ReduceLogFailsOnChain(count, next, limit, Some(LogTokens(count, next)));
      var n: nat, p: Log :| StepsTo(count, limit, next, p, n) && LogTokens(count, p) > limit &&
                            ReduceStep(count, p) == ReduceLog(count, next, limit, Some(LogTokens(count, next)));
      StepsToCons(count, limit, log, next, p, n);
    }
  }

  /** A step on a log over the limit extends a chain by one. */
  lemma StepsToCons(count: Counter, limit: int, log: Log, next: Log, result: Log, n: nat)
    requires LogTokens(count, log) > limit
    requires ReduceStep(count, log) == Ok(next)
    requires StepsTo(count, limit, next, result, n)
    ensures StepsTo(count, limit, log, result, n + 1)
  {
  }

  /** A chain of steps never leaves a log that fits: starting within the
      limit, the only log reached is the log itself. */
  lemma StepsToFromFitting(count: Counter, limit: int, log: Log, result: Log, n: nat)
    requires LogTokens(count, log) <= limit
    requires StepsTo(count, limit, log, result, n)
    ensures n == 0 && result == log
  {
  }

  /** A message that repeats a long block one recursion further down was
      already in the log, since the step's truncation leaves no long block. */
  lemma ReduceErrorCompose(count: Counter, log: Log, next: Log, r: Result<Log>)
    requires ReduceStep(count, log) == Ok(next)
    requires r == Err(BlockNotFound) ==>
               exists k :: 0 <= k < |next| && RepeatsLongBlock(next[k].content, LinesPre, LinesPost)
    ensures r == Err(BlockNotFound) ==>
              exists k :: 0 <= k < |log| && RepeatsLongBlock(log[k].content, LinesPre, LinesPost)
  {
    if r == Err(BlockNotFound) {
      var k :| 0 <= k < |next| && RepeatsLongBlock(next[k].content, LinesPre, LinesPost);
      assert next[k] == log[k];
    }
  }

  /** Messages of the step's result are originals or truncations of the
      originals, and the same holds one recursion further down, because a
      truncated message is not truncated again. */
  lemma ReduceTruncationsCompose(count: Counter, log: Log, next: Log, r: Log)
    requires ReduceStep(count, log) == Ok(next)
    requires |r| == |next|
    requires forall k :: 0 <= k < |next| ==>
               r[k] == next[k] || Truncated(next[k], LinesPre, LinesPost) == Ok(Some(r[k]))
    ensures forall k :: 0 <= k < |log| ==>
              r[k] == log[k] || Truncated(log[k], LinesPre, LinesPost) == Ok(Some(r[k]))
  {
    forall k | 0 <= k < |log|
      ensures r[k] == log[k] || Truncated(log[k], LinesPre, LinesPost) == Ok(Some(r[k]))
    {
      if next[k] != log[k] {
        TruncatedIdempotent(log[k], LinesPre, LinesPost, next[k]);
      }
    }
  }

  /** Every message of a reduced log keeps its role and pinned flag; a pinned
      message is kept as it is, and any other is either kept or replaced by
      its truncation. */
  lemma {:induction false} ReduceLogKeepsMessages(count: Counter, log: Log, limit: int, prevLen: Option<nat>)
    requires ReduceLog(count, log, limit, prevLen).Ok?
    ensures var r := ReduceLog(count, log, limit, prevLen).value;
            (forall k :: 0 <= k < |log| ==> r[k].pinned == log[k].pinned && r[k].role == log[k].role) &&
            (forall k :: 0 <= k < |log| && log[k].pinned ==> r[k] == log[k]) &&
            (forall k :: 0 <= k < |log| ==>
               r[k] == log[k] || Truncated(log[k], LinesPre, LinesPost) == Ok(Some(r[k])))
    decreases Progress(count, log, prevLen)
  {
    if LogTokens(count, log) > limit {
      var next := ReduceStep(count, log).value;
      assert ReduceStep(count, log) == Ok(next);
      var tokens := LogTokens(count, next);
      if tokens > limit && prevLen != Some(tokens) {
        assert ReduceLog(count, log, limit, prevLen) == ReduceLog(count, next, limit, Some(tokens));
        ReduceLogKeepsMessages(count, next, limit, Some(tokens));
        ReduceTruncationsCompose(count, log, next, ReduceLog(count, log, limit, prevLen).value);
      }
    }
  }

  /** Once the result fits the limit, reducing it again returns it unchanged. */
  lemma ReduceIdempotentUnderLimit(count: Counter, log: Log, limit: int, prevLen: Option<nat>, again: Option<nat>)
    requires ReduceLog(count, log, limit, prevLen).Ok?
    requires LogTokens(count, ReduceLog(count, log, limit, prevLen).value) <= limit
    ensures ReduceLog(count, ReduceLog(count, log, limit, prevLen).value, limit, again)
            == ReduceLog(count, log, limit, prevLen)
  {
  }

  /** A step changes nothing exactly when truncating the target returns None. */
  lemma StepUnchangedIff(count: Counter, log: Log)
    requires LongestUnpinned(count, log).Some?
    ensures ReduceStep(count, log) == Ok(log)
            <==> Truncated(log[LongestUnpinned(count, log).value], LinesPre, LinesPost) == Ok(None)
  {
    var i := LongestUnpinned(count, log).value;
    var t := Truncated(log[i], LinesPre, LinesPost);
    if t.Err? {
      assert ReduceStep(count, log) == Err(BlockNotFound);
      return;
    }
    var summary := if t.value.Some? then t.value.value else log[i];
    var next := log[..i] + [summary] + log[i + 1..];
    assert ReduceStep(count, log) == Ok(next);
    assert next[i] == summary;
    if t.value.Some? {
      TruncationRemovesLongBlocks(log[i], summary);
      assert next != log;
    } else {
      assert next == log;
    }
  }

  /** The stall guard: an over-limit log whose target cannot be truncated is
      returned unchanged after exactly two calls, the first of which passes
      no previous count. */
  lemma StallReturnsLog(count: Counter, log: Log, limit: int)
    requires LogTokens(count, log) > limit
    requires ReduceStep(count, log) == Ok(log)
    ensures ReduceLog(count, log, limit, Some(LogTokens(count, log))) == Ok(log)
    ensures ReduceLog(count, log, limit, None) == Ok(log)
  {
  }

  /** One step that brings an over-limit log within the limit is the whole
      reduction, whatever count was passed down. */
  lemma OneStepFits(count: Counter, log: Log, limit: int, prevLen: Option<nat>, next: Log)
    requires LogTokens(count, log) > limit
    requires ReduceStep(count, log) == Ok(next)
    requires LogTokens(count, next) <= limit
    ensures ReduceLog(count, log, limit, prevLen) == Ok(next)
  {
  }

  /** The stall guard for any step: when the step's log is still over the
      limit and its count equals the count passed down, that log is returned
      without recursing, whether or not the step changed it. */
  lemma StallStops(count: Counter, log: Log, limit: int, prevLen: Option<nat>, next: Log)
    requires LogTokens(count, log) > limit
    requires ReduceStep(count, log) == Ok(next)
    requires LogTokens(count, next) > limit
    requires prevLen == Some(LogTokens(count, next))
    ensures ReduceLog(count, log, limit, prevLen) == Ok(next)
  {
  }
}
