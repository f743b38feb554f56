/** Shortening the long code blocks of one message (truncate_msg).

    Each code block whose body has more than linesPre + linesPost + 1 lines is
    cut down to its first linesPre lines, a placeholder line and its last
    linesPost lines. The rewrite is staged: for each block of the original
    content, in order, the staged content must still contain the block, and
    every occurrence of it is replaced by the shortened block, as a textual
    replace-all does. */
module Truncation {
  import opened Messages

  /** The line that stands in for the lines cut out of a code block. */
  const Placeholder: string := "[...]"

  predicate IsLong(s: Segment, linesPre: nat, linesPost: nat)
  {
    s.Code? && |s.body| > linesPre + linesPost + 1
  }

  /** The body of a long block after truncation. */
  function ShortenBody(body: seq<string>, linesPre: nat, linesPost: nat): (r: seq<string>)
    requires |body| > linesPre + linesPost + 1
    ensures |r| == linesPre + 1 + linesPost < |body|
    ensures r[..linesPre] == body[..linesPre]
    ensures r[linesPre] == Placeholder
    ensures r[linesPre + 1..] == body[|body| - linesPost..]
  {
    body[..linesPre] + [Placeholder] + body[|body| - linesPost..]
  }

  /** Python's `lines[-n:]` for a natural n: the last n lines, except that
      for n == 0 the slice starts at index 0 and keeps every line. */
  function LastLinesAsWritten(lines: seq<string>, n: nat): (r: seq<string>)
    ensures |r| == (if 0 < n <= |lines| then n else |lines|)
    ensures r == lines[|lines| - |r|..]
  {
    if n == 0 then lines
    else if n <= |lines| then lines[|lines| - n..]
    else lines
  }

  /** The truncated body exactly as the source computes it, with the tail
      taken by a negative slice. */
  function ShortenBodyAsWritten(body: seq<string>, linesPre: nat, linesPost: nat): (r: seq<string>)
    requires |body| > linesPre + linesPost + 1
    ensures |r| == linesPre + 1 + (if linesPost > 0 then linesPost else |body|)
    ensures r[..linesPre] == body[..linesPre] && r[linesPre] == Placeholder
    ensures linesPost > 0 ==> r[linesPre + 1..] == body[|body| - linesPost..]
    ensures linesPost == 0 ==> r[linesPre + 1..] == body
  {
    body[..linesPre] + [Placeholder] + LastLinesAsWritten(body, linesPost)
  }

  /** For a positive tail size the source's slice is the intended one. */
  lemma AsWrittenAgreesForPositiveTail(body: seq<string>, linesPre: nat, linesPost: nat)
    requires |body| > linesPre + linesPost + 1
    requires linesPost > 0
    ensures ShortenBodyAsWritten(body, linesPre, linesPost) == ShortenBody(body, linesPre, linesPost)
  {
  }

  /** With a tail size of 0 the source keeps the whole body after the
      placeholder: the "truncated" block is longer than the original and
      still long enough to be truncated again. */
  lemma AsWrittenGrowsForZeroTail(body: seq<string>, linesPre: nat)
    requires |body| > linesPre + 1
    ensures |ShortenBodyAsWritten(body, linesPre, 0)| == linesPre + 1 + |body| > |body|
    ensures |ShortenBodyAsWritten(body, linesPre, 0)| > linesPre + 0 + 1
    ensures ShortenBodyAsWritten(["a", "b"], 0, 0) == [Placeholder, "a", "b"]
  {
  }

  /** One segment after truncation: long blocks shortened, everything else kept. */
  function Shorten(s: Segment, linesPre: nat, linesPost: nat): (r: Segment)
    ensures !IsLong(r, linesPre, linesPost)
    ensures IsLong(s, linesPre, linesPost) ==> r != s && r.Code? && r.tag == s.tag
    ensures !IsLong(s, linesPre, linesPost) ==> r == s
  {
    if IsLong(s, linesPre, linesPost) then Code(s.tag, ShortenBody(s.body, linesPre, linesPost)) else s
  }

  function ShortenAll(c: Content, linesPre: nat, linesPost: nat): (r: Content)
  {
    seq(|c|, k requires 0 <= k < |c| => Shorten(c[k], linesPre, linesPost))
  }

  /** Some long block equals an earlier block of the same content. */
  predicate RepeatsLongBlock(c: Content, linesPre: nat, linesPost: nat)
  {
    exists j :: 0 <= j < |c| && IsLong(c[j], linesPre, linesPost) && c[j] in c[..j]
  }

  /** What truncating a message yields: BlockNotFound when a long block
      repeats an earlier one (the earlier replace-all already rewrote it),
      None when no block is long, and otherwise a new message with the same
      role, every long block shortened and the pinned flag cleared. */
  function Truncated(msg: Message, linesPre: nat, linesPost: nat): (r: Result<Option<Message>>)
    ensures r.Err? <==> RepeatsLongBlock(msg.content, linesPre, linesPost)
    ensures r == Ok(None) <==> forall k :: 0 <= k < |msg.content| ==> !IsLong(msg.content[k], linesPre, linesPost)
    ensures r.Ok? && r.value.Some? ==>
              var m := r.value.value;
              m.role == msg.role && !m.pinned && |m.content| == |msg.content| &&
              (forall k :: 0 <= k < |m.content| ==> !IsLong(m.content[k], linesPre, linesPost)) &&
              (forall k :: 0 <= k < |m.content| && !IsLong(msg.content[k], linesPre, linesPost) ==>
                 m.content[k] == msg.content[k]) &&
              (forall k :: 0 <= k < |m.content| && IsLong(msg.content[k], linesPre, linesPost) ==>
                 m.content[k] == Code(msg.content[k].tag, ShortenBody(msg.content[k].body, linesPre, linesPost)))
  {
    if RepeatsLongBlock(msg.content, linesPre, linesPost) then Err(BlockNotFound)
    else
      var staged := ShortenAll(msg.content, linesPre, linesPost);
      if staged != msg.content then Ok(Some(Message(msg.role, staged, false))) else Ok(None)
  }

  /** Truncating a truncated message changes nothing more. */
  lemma TruncatedIdempotent(msg: Message, linesPre: nat, linesPost: nat, m: Message)
    requires Truncated(msg, linesPre, linesPost) == Ok(Some(m))
    ensures Truncated(m, linesPre, linesPost) == Ok(None)
  {
  }

  /** Every occurrence of target replaced: the segment-level `str.replace`. */
  function ReplaceAll(s: Content, target: Segment, replacement: Segment): (r: Content)
    ensures |r| == |s|
    ensures forall k :: 0 <= k < |s| && s[k] != target ==> r[k] == s[k]
    ensures forall k :: 0 <= k < |s| && s[k] == target ==> r[k] == replacement
    ensures target in s ==> replacement in r
    ensures target != replacement ==> target !in r
  {
    seq(|s|, k requires 0 <= k < |s| => if s[k] == target then replacement else s[k])
  }

  /** The staged content after the first i blocks of c have been processed. */
  ghost function Staged(c: Content, i: nat, linesPre: nat, linesPost: nat): Content
    requires i <= |c|
  {
    seq(|c|, k requires 0 <= k < |c| =>
      if IsLong(c[k], linesPre, linesPost) && c[k] in c[..i] then Shorten(c[k], linesPre, linesPost) else c[k])
  }

  /** Block i is still in the staged content unless it is long and an equal
      block came before it. */
  lemma StagedContains(c: Content, i: nat, linesPre: nat, linesPost: nat)
    requires i < |c|
    ensures c[i] in Staged(c, i, linesPre, linesPost)
            <==> !(IsLong(c[i], linesPre, linesPost) && c[i] in c[..i])
  {
    var st := Staged(c, i, linesPre, linesPost);
    if IsLong(c[i], linesPre, linesPost) && c[i] in c[..i] {
      forall k | 0 <= k < |c| ensures st[k] != c[i] {
        if c[k] == c[i] {
          assert st[k] == Shorten(c[k], linesPre, linesPost);
        }
      }
    } else {
      assert st[i] == c[i];
    }
  }

  /** Processing block i turns Staged(c, i) into Staged(c, i + 1). */
  lemma StagedStep(c: Content, i: nat, linesPre: nat, linesPost: nat)
    requires i < |c|
    requires !(IsLong(c[i], linesPre, linesPost) && c[i] in c[..i])
    ensures Staged(c, i + 1, linesPre, linesPost)
            == if IsLong(c[i], linesPre, linesPost)
               then ReplaceAll(Staged(c, i, linesPre, linesPost), c[i], Shorten(c[i], linesPre, linesPost))
               else Staged(c, i, linesPre, linesPost)
  {
  }

  /** A prefix one block longer repeats a long block exactly when the
      shorter one does or the new block is long and seen before. */
  lemma RepeatsPrefixStep(c: Content, i: nat, linesPre: nat, linesPost: nat)
    requires i < |c|
    ensures RepeatsLongBlock(c[..i + 1], linesPre, linesPost)
            <==> RepeatsLongBlock(c[..i], linesPre, linesPost) || (IsLong(c[i], linesPre, linesPost) && c[i] in c[..i])
  {
    var c' := c[..i + 1];
    assert c'[..i] == c[..i];
    forall j | 0 <= j < i
      ensures c'[j] == c[..i][j] && c'[..j] == c[..i][..j]
    {
    }
  }

  /** truncate_msg: walks the message's code blocks in order, checking that
      each is still in the staged content and replacing every occurrence of
      a long one by its shortened form; returns None when the staged content
      ends up equal to the original. */
  method TruncateMsg(msg: Message, linesPre: nat, linesPost: nat) returns (r: Result<Option<Message>>)
    ensures r == Truncated(msg, linesPre, linesPost)
  {
    var c := msg.content;
    var staged := c;
    var i := 0;
    assert staged == Staged(c, 0, linesPre, linesPost);
    while i < |c|
      invariant 0 <= i <= |c|
      invariant !RepeatsLongBlock(c[..i], linesPre, linesPost)
      invariant staged == Staged(c, i, linesPre, linesPost)
    {
      var block := c[i];
      if block.Code? {
        StagedContains(c, i, linesPre, linesPost);
        if block !in staged {
          assert RepeatsLongBlock(c, linesPre, linesPost);
          return Err(BlockNotFound);
        }
        StagedStep(c, i, linesPre, linesPost);
        if |block.body| > linesPre + linesPost + 1 {
          var shortened := Code(block.tag, ShortenBody(block.body, linesPre, linesPost));
          var prev := staged;
          staged := ReplaceAll(staged, block, shortened);
          assert staged != prev;
          assert block !in staged;
        }
      } else {
        StagedStep(c, i, linesPre, linesPost);
      }
      RepeatsPrefixStep(c, i, linesPre, linesPost);
      i := i + 1;
    }
    assert c[..|c|] == c;
    assert staged == ShortenAll(c, linesPre, linesPost);
    if staged != msg.content {
      r := Ok(Some(Message(msg.role, staged, false)));
    } else {
      r := Ok(None);
    }
  }
}
