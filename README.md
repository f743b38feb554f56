# Context reduction for a conversation log

This project models the context-reduction core of gptme, a chat assistant
that sends its conversation log to a language model whose input is limited
to a token budget. The core is `gptme/tools/reduce.py`. It has three
operations on a log of messages, where each message has a role, a content
and a pinned flag:

- `truncate_msg` shortens every long fenced code block of one message. A
  long block keeps its first `lines_pre` lines, a `[...]` line and its last
  `lines_post` lines. The operation returns nothing when no block changed.
- `reduce_log` repeatedly truncates the longest non-pinned message, splicing
  it back at its own index. It stops when the log fits the limit, or when the
  token count stops changing from one step to the next.
- `limit_log` keeps the leading system messages. It then keeps the newest
  other messages whose count stays within the soft limit of 6000 tokens.

The Dafny modules:

- `Messages` (messages.dfy) holds the message model and the token count of a log.
  A message's content is a sequence of segments. A segment is plain text or a
  code block, given by its tag (language or file name) and its body lines.
  The token counter is a function parameter from a content to a natural
  number. The count of a log is the sum of its messages' counts.
- `Truncation` (truncation.dfy) models `truncate_msg`. The method
  `TruncateMsg` follows the source's loop: it checks that each block is still
  in the staged content, then replaces every occurrence of a long block, as
  `str.replace` does. It is proved equal to the function `Truncated`, which
  gives the result in closed form.
- `Reduction` (reduction.dfy) models `reduce_log`, its target selection and
  one reduction step, as functions. `ReduceLog` carries no fuel. Its
  recursion ends because of a measure: twice the number of long code blocks
  in the log, plus one unless the previous count equals the current one.
- `Limiting` (limiting.dfy) models `limit_log` as a method. Its two loops
  work as in the source: the `break`, the `pop` of the message that went over
  the limit, and the final reversal.

The token counter and the segment structure stand in for `len_tokens` and
`Message.get_codeblocks`. gptme/util and gptme/message.py are not part of
this model.

## Model

| member | source | states |
|---|---|---|
| `Messages.LogTokensUpdate` | gptme/tools/reduce.py:48-50 | replacing the message at one index changes the log's count by exactly that message's change in count |
| `Messages.SuffixTokensMonotone` | gptme/tools/reduce.py:112-121 | with a non-negative counter, a longer suffix of the log never counts fewer tokens, so the newest-first scan crosses the limit at most once |
| `Truncation.ShortenBody` | gptme/tools/reduce.py:73-75 | a body longer than pre+post+1 lines becomes exactly pre+1+post lines, strictly fewer than before: its first pre lines, then `[...]`, then its last post lines |
| `Truncation.LastLinesAsWritten` | gptme/tools/reduce.py:75 | Python's `lines[-n:]`: always a suffix of the lines, of length n when 0 < n <= the number of lines, and the whole list otherwise, including n == 0 |
| `Truncation.ShortenBodyAsWritten` | gptme/tools/reduce.py:75 | the body as the source builds it: the first pre lines and `[...]`, then the last post lines when post > 0, but the whole original body when post == 0 |
| `Truncation.AsWrittenAgreesForPositiveTail` | gptme/tools/reduce.py:75 | when the tail size is positive, the source's negative slice `lines[-lines_post:]` gives the same body as the intended truncation |
| `Truncation.AsWrittenGrowsForZeroTail` | gptme/tools/reduce.py:75 | when the tail size is 0, the source keeps the whole body after `[...]`. The truncated block is then longer than the original and still over the threshold, e.g. `["a","b"]` becomes `["[...]","a","b"]` |
| `Truncation.Shorten` | gptme/tools/reduce.py:73-78 | a segment is never over the threshold after truncation; a long block changes and keeps its tag; text and short blocks are left as they are |
| `Truncation.Truncated` | gptme/tools/reduce.py:63-95 | the truncation fails exactly when a long block equals an earlier block. It returns None exactly when no block is over the threshold. Otherwise it returns a message with the same role, pinned cleared, and the same segments, except that each long block is shortened with its tag kept |
| `Truncation.TruncatedIdempotent` | gptme/tools/reduce.py:73-78 | truncating an already truncated message returns None |
| `Truncation.ReplaceAll` | gptme/tools/reduce.py:83-85 | `str.replace` on segments: same length, every occurrence of the block becomes the replacement and every other segment is kept, so after replacing with a different block the old one no longer occurs |
| `Truncation.StagedContains` | gptme/tools/reduce.py:70 | the membership check for block i fails exactly when block i is long and an equal block precedes it, since that block's replace-all already rewrote it |
| `Truncation.StagedStep` | gptme/tools/reduce.py:80-87 | one replace-all of a long block takes the staged content from "first i blocks processed" to "first i+1 blocks processed" |
| `Truncation.RepeatsPrefixStep` | gptme/tools/reduce.py:69-70 | after one more block, the membership check has failed so far exactly when it had failed before, or the new block is long and equals an earlier block |
| `Truncation.TruncateMsg` | gptme/tools/reduce.py:63-95 | the staged loop returns exactly `Truncated`. The checks at lines 86-87 are proved: every replacement changes the content, and afterwards the old block no longer occurs |
| `Reduction.LongestUnpinned` | gptme/tools/reduce.py:28-32 | returns None exactly when every message is pinned. Otherwise it returns a non-pinned index whose count is at least that of every non-pinned message, and strictly greater than that of every non-pinned message before it (`max` keeps the first maximum) |
| `Reduction.SpliceFacts` | gptme/tools/reduce.py:48-50 | `log[:i] + [m] + log[i+1:]` is the log with index i replaced by m; its count and its number of long blocks change only by the difference between m and the message it replaces |
| `Reduction.TruncationRemovesLongBlocks` | gptme/tools/reduce.py:35-39 | a truncation that yields a new message leaves it with no long block, and the original had at least one |
| `Reduction.ReduceStep` | gptme/tools/reduce.py:28-50 | fails with NoReducibleMessage exactly when every message is pinned. Otherwise, with i the selected index: if truncating message i fails, the step fails with BlockNotFound; if it returns None, the step returns the log unchanged (the identity fallback); if it returns a message, the step returns the log with index i replaced by it. On success the length, roles and pinned flags are kept, the new count is the old one adjusted by the target's change, and either the log is unchanged or its number of long blocks falls |
| `Reduction.ReduceLog` | gptme/tools/reduce.py:15-60 | a log within the limit is returned as is. NoReducibleMessage is returned exactly when the log is over the limit and every message is pinned. BlockNotFound implies some message repeats a long block. A result has the same length as the log. When a failure happens is stated by `ReduceLogFailsOnChain` |
| `Reduction.ReduceLogKeepsMessages` | gptme/tools/reduce.py:28-60 | every message of a reduced log keeps its role and pinned flag; every pinned message is kept unchanged; every other message is either kept or replaced by its truncation |
| `Reduction.ReduceLogStopsAtStall` | gptme/tools/reduce.py:50-60 | a result over the limit comes only from the stall guard: it is the outcome of a step that left the count as it was, or of the first step here when its count equals the count passed down |
| `Reduction.ReduceLogStopsWhenFits` | gptme/tools/reduce.py:22-60 | every result is reached from the log by a chain of n reduction steps, each taken on a log over the limit; the chain is determined by the log, so no step is ever taken on a log within the limit |
| `Reduction.StepsToFromFitting` | gptme/tools/reduce.py:22-25 | a chain of steps starting from a log within the limit is empty: it reaches only that log |
| `Reduction.ReduceLogFailsOnChain` | gptme/tools/reduce.py:28-60 | a failure comes only from a log on the chain of steps that is still over the limit and whose own step fails with that same error (every message pinned, or the target repeats a long block); the failure is then propagated unchanged |
| `Reduction.ReduceErrorCompose` | gptme/tools/reduce.py:35-60 | a message that repeats a long block in the log of a recursive call was already in the caller's log, since a truncation leaves no long block |
| `Reduction.ReduceTruncationsCompose` | gptme/tools/reduce.py:48-60 | "unchanged or truncated" is preserved across a recursive call, because a truncated message is not truncated again |
| `Reduction.ReduceIdempotentUnderLimit` | gptme/tools/reduce.py:22-25 | reducing a result that fits the limit returns that result again |
| `Reduction.StepUnchangedIff` | gptme/tools/reduce.py:35-48 | for every log with a non-pinned message, a step returns the log unchanged exactly when truncating the target returns None (the identity fallback at line 46) |
| `Reduction.StallReturnsLog` | gptme/tools/reduce.py:50-60 | an over-limit log whose step changes nothing is returned unchanged: the first call (no previous count) recurses once, and the second stops at the stall guard |
| `Reduction.StallStops` | gptme/tools/reduce.py:56-58 | whenever a step leaves a log over the limit whose count equals the count passed down, that log is returned without recursing, whether or not the step changed it |
| `Reduction.OneStepFits` | gptme/tools/reduce.py:48-52 | when one step brings an over-limit log within the limit, that step's log is the result, whatever count was passed down: reduction stops at the first log that fits and takes no further step |
| `Limiting.SystemPrefixLen` | gptme/tools/reduce.py:104-109 | the first n messages are system messages, and message n, if there is one, is not |
| `Limiting.ReversedInvolution` | gptme/tools/reduce.py:113-123 | reversing the newest-first list again restores chronological order |
| `Limiting.ReversedTokens` | gptme/tools/reduce.py:115 | the newest-first list has the same count as the suffix it holds |
| `Limiting.NoLongerSuffixFits` | gptme/tools/reduce.py:112-121 | when the suffix one message longer than the kept one exceeds the soft limit, every longer suffix exceeds it too, so the kept suffix is the longest that fits |
| `Limiting.ReversedDropLast` | gptme/tools/reduce.py:119-121 | popping the last message of the newest-first list drops the oldest message of the suffix it holds |
| `Limiting.AllSystemPrefix` | gptme/tools/reduce.py:104-109 | in a log of system messages only, the leading run of system messages is the whole log |
| `Limiting.AllSystemKept` | gptme/tools/reduce.py:104-123 | for a log of system messages only, the system prefix followed by what is left of the rest is the whole log |
| `Limiting.LeadingSystem` | gptme/tools/reduce.py:104-109 | the first loop collects exactly the maximal leading run of system messages, in order |
| `Limiting.LatestWithinLimit` | gptme/tools/reduce.py:111-121 | the second loop and the pop yield the reversed suffix `log[start..]` of the non-system part; its count is within the soft limit, and unless it reaches back to the system prefix, the suffix one message longer exceeds the limit |
| `Limiting.LimitLog` | gptme/tools/reduce.py:98-123 | the result is the maximal leading run of system messages followed by the suffix `log[start..]` of the rest. That suffix's count is within the soft limit. If any non-system message was dropped, the suffix one message longer exceeds the limit. Since start is at most the log's length, an empty log gives an empty result. An all-system log comes back unchanged |

## Left out

- Logging calls (reduce.py lines 27, 57, 77) are side effects only and are not modelled.
- The summarisation fallback (reduce.py lines 41-45) is commented out in the source. The model uses the identity fallback of line 46.
- `TOKEN_LIMIT_HARD` is declared as `Reduction.TokenLimitHard` and, as in the source, used by nothing.
- `reduce_log` is a generator. Its result is modelled as a materialised sequence wrapped in a `Result`.
- The tokenizer is not modelled. The counter is an arbitrary non-negative function of a content, and a log's count is the sum over its messages.
- The model assumes no monotonicity of the counter in content length, so it does not claim that a reduction step lowers the count.
- Code-fence parsing (`Message.get_codeblocks`, and the split of a block into tag and body at reduce.py line 71) is not modelled. Content arrives already split into text and code segments.
- `Truncation.Shorten`, `Truncation.TruncateMsg`: the model takes a code block's body without its closing fence and writes back one well-formed block, `Code(tag, shortened body)`. The source keeps in `content` everything after the tag line (reduce.py line 71) and rebuilds the block as the tag, the shortened lines and a new closing fence (line 84). If the extracted block text includes its closing fence, that fence is counted as a body line at line 74 (so a block reaches the threshold one line earlier than `IsLong` says), kept in the tail at line 75, and followed by a second fence at line 84. If the extracted text stops before the fence, the original fence stays in the content after the replacement, again giving two fences. Which case happens depends on `Message.get_codeblocks`, which is not part of this model.
- `TruncateMsg`: the source's replace-all works on text. The model replaces whole code segments only, so a block's text occurring inside plain text, or straddling segments, is not matched.
- Message fields other than role, content and pinned are not modelled. The source rebuilds the message with `Message(role=..., content=...)`, so every other field falls back to its default.
- `AssertionError` and `ValueError` are modelled as the `Error` values `BlockNotFound` and `NoReducibleMessage`.
- The model uses the corrected tail slice (see Findings). It agrees with the source whenever `lines_post > 0`, and `reduce_log` always uses 10.
- `truncate_msg` shortens every long block, not only the longest ones. The code decides this and the model follows it.
- `reduce_log` leaves the pinned flag of a truncated message unset, as the code does, rather than carrying it over.
- `limit_log`'s bound covers only the non-system part of the result. The code measures only that part, so the whole result may exceed the soft limit even when the system prefix alone does not.

## Findings

| source | as written | input that shows it | evidently intended | confidence | as-written member | corrected member |
|---|---|---|---|---|---|---|
| gptme/tools/reduce.py:75 | the tail is taken as `lines[-lines_post:]`. For `lines_post == 0` this is `lines[0:]`, the whole body | `truncate_msg` with `lines_pre=0`, `lines_post=0` on a block with body lines `a`, `b`: the body becomes `[...]`, `a`, `b`, longer than before | keep no trailing lines, so the body becomes `[...]` alone, shorter than before | medium; not executed (no caller in the source passes 0) | `Truncation.AsWrittenGrowsForZeroTail` | `Truncation.ShortenBody` |
