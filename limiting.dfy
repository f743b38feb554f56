/** Keeping the most recent messages that fit the soft limit (limit_log).

    The leading run of system messages is always kept. The other messages
    are taken newest first until their count passes the soft limit, the one
    that passed it is dropped, and the taken messages are put back in
    chronological order after the system messages. */
module Limiting {
  import opened Messages
  import Reduction

  const SystemRole: string := "system"

  /** The length of the leading run of system messages. */
  function SystemPrefixLen(log: Log): (n: nat)
    ensures n <= |log|
    ensures forall k :: 0 <= k < n ==> log[k].role == SystemRole
    ensures n < |log| ==> log[n].role != SystemRole
  {
    if log == [] || log[0].role != SystemRole then 0
    else
      var rest := SystemPrefixLen(log[1..]);
      assert forall k :: 1 <= k < rest + 1 ==> log[k] == log[1..][k - 1];
      1 + rest
  }

  function Reversed(s: Log): (r: Log)
    ensures |r| == |s|
  {
    if s == [] then [] else Reversed(s[1..]) + [s[0]]
  }

  lemma {:induction false} ReversedAppend(a: Log, b: Log)
    ensures Reversed(a + b) == Reversed(b) + Reversed(a)
  {
    if a == [] {
      assert a + b == b;
    } else {
      assert (a + b)[1..] == a[1..] + b;
      ReversedAppend(a[1..], b);
    }
  }

  lemma {:induction false} ReversedInvolution(s: Log)
    ensures Reversed(Reversed(s)) == s
  {
    if s != [] {
      ReversedAppend(Reversed(s[1..]), [s[0]]);
      ReversedInvolution(s[1..]);
      assert [s[0]][1..] == [];
    }
  }

  lemma {:induction false} ReversedTokens(count: Counter, s: Log)
    ensures LogTokens(count, Reversed(s)) == LogTokens(count, s)
  {
    if s != [] {
      ReversedTokens(count, s[1..]);
      LogTokensAppend(count, Reversed(s[1..]), [s[0]]);
      assert [s[0]][1..] == [];
    }
  }

  /** Popping the last of the newest-first list drops the oldest message. */
  lemma ReversedDropLast(s: Log)
    requires s != []
    ensures Reversed(s)[..|s| - 1] == Reversed(s[1..])
  {
    assert Reversed(s) == Reversed(s[1..]) + [s[0]];
  }

  /** Any n with the two properties of SystemPrefixLen is that length. */
  lemma SystemPrefixLenUnique(log: Log, n: nat)
    requires n <= |log|
    requires forall k :: 0 <= k < n ==> log[k].role == SystemRole
    requires n < |log| ==> log[n].role != SystemRole
    ensures n == SystemPrefixLen(log)
  {
  }

  /** A log of system messages only is its own system prefix. */
  lemma {:induction false} AllSystemPrefix(log: Log)
    requires forall k :: 0 <= k < |log| ==> log[k].role == SystemRole
    ensures SystemPrefixLen(log) == |log|
  {
    if log != [] {
      AllSystemPrefix(log[1..]);
    }
  }

  /** For a log of system messages only, the system prefix followed by any
      suffix of the rest is the whole log. */
  lemma AllSystemKept(log: Log, start: nat)
    requires SystemPrefixLen(log) <= start <= |log|
    requires forall k :: 0 <= k < |log| ==> log[k].role == SystemRole
    ensures log[..SystemPrefixLen(log)] + log[start..] == log
  {
    AllSystemPrefix(log);
    WholeSplit(log, start);
  }

  /** A log is its whole prefix followed by its empty suffix. */
  lemma WholeSplit(log: Log, n: nat)
    requires n == |log|
    ensures log[..n] + log[n..] == log
  {
  }

  /** With a non-negative counter, once the suffix starting one message
      earlier exceeds the limit, every longer suffix does too: the kept
      suffix is the longest one that fits. */
  lemma {:induction false} NoLongerSuffixFits(count: Counter, log: Log, p: nat, start: nat)
    requires p < start <= |log|
    requires LogTokens(count, log[start - 1..]) > Reduction.TokenLimitSoft
    ensures forall s :: p <= s < start ==> LogTokens(count, log[s..]) > Reduction.TokenLimitSoft
  {
    forall s | p <= s < start
      ensures LogTokens(count, log[s..]) > Reduction.TokenLimitSoft
    {
      SuffixTokensMonotone(count, log, s, start - 1);
    }
  }

  /** The first loop of limit_log: collect messages while they are system messages. */
  method LeadingSystem(log: Log) returns (initial: Log)
    ensures initial == log[..SystemPrefixLen(log)]
  {
    initial := [];
    var p := 0;
    while p < |log|
      invariant 0 <= p <= |log|
      invariant initial == log[..p]
      invariant forall k :: 0 <= k < p ==> log[k].role == SystemRole
    {
      if log[p].role != SystemRole {
        break;
      }
      initial := initial + [log[p]];
      p := p + 1;
    }
    SystemPrefixLenUnique(log, p);
  }

  /** The second loop of limit_log and the pop after it: the messages after
      index p, newest first, until their count passes the soft limit, minus
      the one that passed it. The result is the reversed suffix log[start..],
      which fits, and the suffix one message longer does not, unless it would
      reach back to index p. */
  method LatestWithinLimit(count: Counter, log: Log, p: nat) returns (msgs: Log, ghost start: nat)
    requires p <= |log|
    ensures p <= start <= |log|
    ensures msgs == Reversed(log[start..])
    ensures LogTokens(count, log[start..]) <= Reduction.TokenLimitSoft
    ensures p < start ==> LogTokens(count, log[start - 1..]) > Reduction.TokenLimitSoft
  {
    msgs := [];
    var j := |log|;
    while j > p
      invariant p <= j <= |log|
      invariant msgs == Reversed(log[j..])
      invariant LogTokens(count, log[j..]) <= Reduction.TokenLimitSoft
    {
      j := j - 1;
      assert log[j..][1..] == log[j + 1..];
      msgs := msgs + [log[j]];
      ReversedTokens(count, log[j..]);
      if LogTokens(count, msgs) > Reduction.TokenLimitSoft {
        break;
      }
    }
    ReversedTokens(count, log[j..]);

    // Drop the message that went over the limit.
    start := j;
    if LogTokens(count, msgs) > Reduction.TokenLimitSoft {
      assert j < |log| && log[j..][1..] == log[j + 1..];
      ReversedDropLast(log[j..]);
      msgs := msgs[..|msgs| - 1];
      start := j + 1;
      assert msgs == Reversed(log[start..]);
      assert LogTokens(count, log[start - 1..]) > Reduction.TokenLimitSoft;
    } else {
      assert start == p && msgs == Reversed(log[start..]);
    }
  }

  /** limit_log with the soft limit as its budget. The result is the system
      prefix followed by a suffix of the remaining messages whose count is
      within the soft limit; when a message before that suffix was dropped,
      the suffix one message longer exceeds the limit (and so, by
      NoLongerSuffixFits, does every longer one). The bound covers the
      suffix only: the system prefix is kept whatever its count. */
  method LimitLog(count: Counter, log: Log) returns (r: Log, ghost start: nat)
    ensures SystemPrefixLen(log) <= start <= |log|
    ensures r == log[..SystemPrefixLen(log)] + log[start..]
    ensures LogTokens(count, log[start..]) <= Reduction.TokenLimitSoft
    ensures SystemPrefixLen(log) < start ==> LogTokens(count, log[start - 1..]) > Reduction.TokenLimitSoft
    ensures (forall k :: 0 <= k < |log| ==> log[k].role == SystemRole) ==> r == log
  {
    // Always pick the leading system messages.
    var initial := LeadingSystem(log);
    // Pick the remaining messages latest first.
    var msgs;
    msgs, start := LatestWithinLimit(count, log, |initial|);
    ReversedInvolution(log[start..]);
    r := initial + Reversed(msgs);
    if forall k :: 0 <= k < |log| ==> log[k].role == SystemRole {
      AllSystemKept(log, start);
    }
  }
}
