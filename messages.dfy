/** The conversation log as the context-reduction operations see it.

    A message has a role, a content and a pinned flag. Its content is kept as
    the sequence of pieces the message's code-block view splits it into:
    plain text, and fenced code blocks given by the tag after the opening
    fence (a language or a file name) and the lines of the body. A code block
    is then found and replaced as one piece, without parsing fences.

    The token counter is an external capability: it is passed in as a
    function from a content to a non-negative count, and the count of a log is
    the sum of the counts of its messages. */
module Messages {

  datatype Segment =
    | Text(text: string)
    | Code(tag: string, body: seq<string>)

  type Content = seq<Segment>

  datatype Message = Message(role: string, content: Content, pinned: bool)

  type Log = seq<Message>

  /** A deterministic, non-negative token count of one message content. */
  type Counter = Content -> nat

  datatype Option<T> = None | Some(value: T)

  /** The failures that reach the caller of the reduction operations. */
  datatype Error =
    | NoReducibleMessage  // the log is over the limit and every message is pinned
    | BlockNotFound       // a code block is no longer in the content being rewritten

  datatype Result<T> = Ok(value: T) | Err(error: Error)

  /** The token count of a whole log. */
  function LogTokens(count: Counter, log: Log): nat
  {
    if log == [] then 0 else count(log[0].content) + LogTokens(count, log[1..])
  }

  lemma {:induction false} LogTokensAppend(count: Counter, a: Log, b: Log)
    ensures LogTokens(count, a + b) == LogTokens(count, a) + LogTokens(count, b)
  {
    if a == [] {
      assert a + b == b;
    } else {
      assert (a + b)[1..] == a[1..] + b;
      LogTokensAppend(count, a[1..], b);
    }
  }

  /** Replacing one message changes the log's count by the change in that message's count. */
  lemma LogTokensUpdate(count: Counter, log: Log, i: nat, m: Message)
    requires i < |log|
    ensures LogTokens(count, log[i := m])
            == LogTokens(count, log) - count(log[i].content) + count(m.content)
  {
    var tail := log[i + 1..];
    assert log == log[..i] + ([log[i]] + tail);
    assert log[i := m] == log[..i] + ([m] + tail);
    LogTokensAppend(count, log[..i], [log[i]] + tail);
    LogTokensAppend(count, log[..i], [m] + tail);
    assert ([log[i]] + tail)[1..] == tail;
    assert ([m] + tail)[1..] == tail;
  }

  /** A longer suffix of a log never counts fewer tokens than a shorter one. */
  lemma {:induction false} SuffixTokensMonotone(count: Counter, log: Log, i: nat, j: nat)
    requires i <= j <= |log|
    ensures LogTokens(count, log[j..]) <= LogTokens(count, log[i..])
    decreases j - i
  {
    if i < j {
      assert log[i..][1..] == log[i + 1..];
      SuffixTokensMonotone(count, log, i + 1, j);
    }
  }
}
