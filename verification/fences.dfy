/** Step 5 of the route: removing Markdown code fences the model may wrap its
    JSON in. Only a completion that starts with three backticks is touched; for
    it, every match of the regular expression /```json|```/g is deleted and the
    rest trimmed. */
module Fences {
  import opened Wrappers
  import opened Strings

  const Fence := "```"

  const JsonFence := "```json"

  /** Three backticks start at position i of s. */
  predicate FenceAt(s: string, i: int) {
    0 <= i && i + 3 <= |s| && s[i] == '`' && s[i + 1] == '`' && s[i + 2] == '`'
  }

  predicate ContainsFence(s: string) {
    exists i :: 0 <= i < |s| && FenceAt(s, i)
  }

  /** The global regex replacement by "": the scan goes left to right, tries
      the first alternative (```json) before the second (```) at each position,
      deletes a match and resumes after it, and keeps any character where
      neither alternative matches. */
  function StripFences(s: string): (r: string)
    ensures |r| <= |s|
    decreases |s|
  {
    if |s| == 0 then ""
    else if StartsWith(s, JsonFence) then StripFences(s[|JsonFence|..])
    else if FenceAt(s, 0) then StripFences(s[|Fence|..])
    else [s[0]] + StripFences(s[1..])
  }

  /** A stripped string can only start with a backtick if the input did. */
  lemma StripHeadBacktick(s: string)
    requires |StripFences(s)| > 0 && StripFences(s)[0] == '`'
    ensures |s| > 0 && s[0] == '`'
  {
  }

  /** A stripped string can only start with two backticks if the input did. */
  lemma StripHeadTwoBackticks(s: string)
    requires |StripFences(s)| >= 2 && StripFences(s)[0] == '`' && StripFences(s)[1] == '`'
    ensures |s| >= 2 && s[0] == '`' && s[1] == '`'
  {
    if !StartsWith(s, JsonFence) && !FenceAt(s, 0) {
      assert StripFences(s) == [s[0]] + StripFences(s[1..]);
      StripHeadBacktick(s[1..]);
    }
  }

  /** The stripped text never contains three backticks in a row: a run of
      backticks that survives is shorter than three, and deleting a fence
      cannot glue two surviving runs together. */
  lemma {:induction false} StripFencesFenceFree(s: string)
    ensures !ContainsFence(StripFences(s))
    decreases |s|
  {
    if |s| == 0 {
    } else if StartsWith(s, JsonFence) {
      StripFencesFenceFree(s[|JsonFence|..]);
    } else if FenceAt(s, 0) {
      StripFencesFenceFree(s[|Fence|..]);
    } else {
      var rest := StripFences(s[1..]);
      StripFencesFenceFree(s[1..]);
      var r := [s[0]] + rest;
      assert r == StripFences(s);
      forall i | 0 <= i < |r| && FenceAt(r, i) ensures false {
        if i > 0 {
          assert FenceAt(rest, i - 1);
        } else {
          StripHeadTwoBackticks(s[1..]);
        }
      }
    }
  }

  /** ```json begins with a fence. */
  lemma JsonFenceIsFence(s: string)
    ensures StartsWith(s, JsonFence) ==> FenceAt(s, 0)
  {
    if StartsWith(s, JsonFence) {
      assert s[0] == JsonFence[0] && s[1] == JsonFence[1] && s[2] == JsonFence[2];
    }
  }

  /** Text without three backticks in a row passes through unchanged. */
  lemma {:induction false} StripFencesIdentity(s: string)
    requires !ContainsFence(s)
    ensures StripFences(s) == s
    decreases |s|
  {
    if |s| > 0 {
      assert !FenceAt(s, 0);
      JsonFenceIsFence(s);
      assert !ContainsFence(s[1..]) by {
        forall i | 0 <= i < |s| - 1 && FenceAt(s[1..], i) ensures false { assert FenceAt(s, i + 1); }
      }
      StripFencesIdentity(s[1..]);
    }
  }

  /** Stripping twice is stripping once. */
  lemma StripFencesIdempotent(s: string)
    ensures StripFences(StripFences(s)) == StripFences(s)
  {
    StripFencesFenceFree(s);
    StripFencesIdentity(StripFences(s));
  }

  /** A closing fence after fence-free text is removed and nothing else is: if
      the text ends in one or two backticks, the deleted match starts inside the
      text, and the same number of backticks survive from the fence. */
  lemma {:induction false} StripClosingFence(c: string)
    requires !ContainsFence(c)
    ensures StripFences(c + Fence) == c
    decreases |c|
  {
    var s := c + Fence;
    JsonFenceIsFence(s);
    if |c| == 0 {
      assert s == Fence;
      assert s[3..] == "";
    } else if FenceAt(s, 0) {
      // c is one or two backticks: the match starts at 0 and leaves |c| of them
      ShortBackticksBeforeFence(c);
      assert s[3..] == c;
      StripFencesIdentity(c);
    } else {
      assert !ContainsFence(c[1..]) by {
        forall i | 0 <= i < |c| - 1 && FenceAt(c[1..], i) ensures false { assert FenceAt(c, i + 1); }
      }
      assert s[1..] == c[1..] + Fence;
      StripClosingFence(c[1..]);
    }
  }

  /** At the start of the text, the first alternative wins: ```json is deleted
      whole, whatever follows it. */
  lemma StripJsonFenceHead(s: string)
    ensures StripFences(JsonFence + s) == StripFences(s)
  {
    assert (JsonFence + s)[..|JsonFence|] == JsonFence;
    assert (JsonFence + s)[|JsonFence|..] == s;
  }

  /** A leading ``` not followed by "json" is deleted on its own. */
  lemma StripFenceHead(s: string)
    requires !StartsWith(s, "json")
    ensures StripFences(Fence + s) == StripFences(s)
  {
    var t := Fence + s;
    JsonTagAfterFence(s);
    assert t[0] == '`' && t[1] == '`' && t[2] == '`';
    assert t[|Fence|..] == s;
  }

  /** The ```json alternative matches at a fence only when the text after the
      fence starts with "json". */
  lemma JsonTagAfterFence(s: string)
    ensures StartsWith(Fence + s, JsonFence) ==> StartsWith(s, "json")
  {
    var t := Fence + s;
    if StartsWith(t, JsonFence) {
      assert t[3] == 'j' && t[4] == 's' && t[5] == 'o' && t[6] == 'n';
      assert s[..4] == t[3..7];
    }
  }

  /** Text with no fence that does not end in a backtick is copied through
      unchanged, and the scan then carries on with what follows it: no match can
      start inside such text. */
  lemma {:induction false} StripFencesPrefix(c: string, s: string)
    requires !ContainsFence(c)
    requires |c| == 0 || c[|c| - 1] != '`'
    ensures StripFences(c + s) == c + StripFences(s)
    decreases |c|
  {
    if |c| == 0 {
      assert c + s == s;
    } else {
      var t := c + s;
      NoFenceAtHead(c, s);
      StripPlainHead(t);
      FenceFreeTail(c);
      assert t[0] == c[0] && t[1..] == c[1..] + s;
      StripFencesPrefix(c[1..], s);
      var rest := StripFences(s);
      assert StripFences(t) == [c[0]] + (c[1..] + rest);
      assert [c[0]] + (c[1..] + rest) == ([c[0]] + c[1..]) + rest;
      assert [c[0]] + c[1..] == c;
    }
  }

  /** Where no fence starts, the scan copies one character and moves on. */
  lemma StripPlainHead(t: string)
    requires |t| > 0 && !FenceAt(t, 0)
    ensures StripFences(t) == [t[0]] + StripFences(t[1..])
  {
    JsonFenceIsFence(t);
  }

  /** A fence starts at `i` and at no earlier position. */
  predicate FirstFence(s: string, i: nat) {
    i < |s| && FenceAt(s, i) && forall j :: 0 <= j < i ==> !FenceAt(s, j)
  }

  /** Everything before the first fence is copied unchanged: the replacement
      is decided by the text from the first fence on, where one of the two head
      rules applies. */
  lemma FirstFenceSplit(s: string, i: nat)
    requires FirstFence(s, i)
    ensures StripFences(s) == s[..i] + StripFences(s[i..])
  {
    var c, t := s[..i], s[i..];
    assert c + t == s;
    BeforeFirstFence(s, i);
    StripFencesPrefix(c, t);
  }

  /** The text before the first fence has no fence and does not end in a
      backtick (else a fence would start one character earlier). */
  lemma BeforeFirstFence(s: string, i: nat)
    requires FirstFence(s, i)
    ensures !ContainsFence(s[..i])
    ensures i == 0 || s[..i][i - 1] != '`'
  {
    var c := s[..i];
    forall j | 0 <= j < |c| ensures FenceAt(c, j) ==> FenceAt(s, j) {
    }
    if i > 0 {
      FenceExtendsBack(s, i);
      assert c[i - 1] == s[i - 1];
    }
  }

  /** A backtick just before a fence starts a fence itself. */
  lemma FenceExtendsBack(s: string, i: nat)
    requires 0 < i < |s| && FenceAt(s, i)
    ensures s[i - 1] == '`' ==> FenceAt(s, i - 1)
  {
  }

  /** Non-empty fence-free text that does not end in a backtick cannot start a
      fence, whatever follows it. */
  lemma NoFenceAtHead(c: string, s: string)
    requires |c| > 0 && !ContainsFence(c) && c[|c| - 1] != '`'
    ensures !FenceAt(c + s, 0)
  {
    var t := c + s;
    assert t[|c| - 1] == c[|c| - 1];
    if |c| >= 3 {
      assert !FenceAt(c, 0);
      assert t[0] == c[0] && t[1] == c[1] && t[2] == c[2];
    }
  }

  /** Dropping the first character of fence-free text leaves it fence-free. */
  lemma FenceFreeTail(c: string)
    requires |c| > 0 && !ContainsFence(c)
    ensures !ContainsFence(c[1..])
  {
    forall i | 0 <= i < |c| - 1 && FenceAt(c[1..], i) ensures false {
      assert FenceAt(c, i + 1);
    }
  }

  /** If fence-free text followed by a fence begins with a fence, the text is one
      or two backticks. */
  lemma ShortBackticksBeforeFence(c: string)
    requires !ContainsFence(c) && |c| > 0
    requires FenceAt(c + Fence, 0)
    ensures |c| < 3 && forall i :: 0 <= i < |c| ==> c[i] == '`'
  {
    var s := c + Fence;
    forall i | 0 <= i < |c| && i < 3 ensures c[i] == '`' {
      assert s[i] == c[i];
    }
    assert !FenceAt(c, 0);
  }

  /** `responseText` before the parse: untouched unless it starts with three
      backticks; otherwise fences deleted and whitespace trimmed. */
  function DeFence(text: string): (r: string)
    ensures !StartsWith(text, Fence) ==> r == text
    ensures StartsWith(text, Fence) ==> r == Trim(StripFences(text))
    ensures StartsWith(text, Fence) ==> !ContainsFence(r) && NoOuterWhitespace(r)
  {
    if StartsWith(text, Fence) then
      var stripped := StripFences(text);
      StripFencesFenceFree(text);
      TrimSplits(stripped);
      TrimNoFence(stripped);
      Trim(stripped)
    else text
  }

  /** Trimming keeps a fence-free string fence-free (the trim is a slice). */
  lemma TrimNoFence(s: string)
    requires !ContainsFence(s)
    ensures !ContainsFence(Trim(s))
  {
    TrimIsSlice(s);
    var a := ContentStart(s, 0);
    var t := Trim(s);
    forall i | 0 <= i < |t| ensures FenceAt(t, i) ==> FenceAt(s, a + i) {
    }
  }

  /** The completion text as the route reads it: an absent content is "". */
  function CompletionText(content: Option<string>): (r: string)
    ensures content.Some? ==> r == content.value
    ensures content.None? ==> r == ""
  {
    content.GetOr("")
  }

  /** A reply wrapped as ```json … ``` around fence-free text de-fences to that
      text, trimmed. */
  lemma DeFenceJsonBlock(c: string)
    requires !ContainsFence(c)
    ensures DeFence(JsonFence + c + Fence) == Trim(c)
  {
    var s := JsonFence + c + Fence;
    assert StartsWith(s, JsonFence);
    assert s[..3] == Fence;
    assert s[|JsonFence|..] == c + Fence;
    StripClosingFence(c);
  }

  /** The same for a bare ``` … ``` block, as long as the content does not itself
      begin with "json" (which the first alternative of the regex would eat). */
  lemma DeFenceBareBlock(c: string)
    requires !ContainsFence(c)
    requires !StartsWith(c, "json")
    ensures DeFence(Fence + c + Fence) == Trim(c)
  {
    var s := Fence + c + Fence;
    assert s[..3] == Fence;
    JsonTagInsideBlock(c);
    assert s[|Fence|..] == c + Fence;
    StripClosingFence(c);
  }

  /** A bare block reads as ```json only when its content starts with "json":
      `JsonTagAfterFence` for the text after the opening fence, whose closing
      backticks cannot spell part of "json". */
  lemma JsonTagInsideBlock(c: string)
    ensures StartsWith(Fence + c + Fence, JsonFence) ==> StartsWith(c, "json")
  {
    var t := c + Fence;
    assert Fence + c + Fence == Fence + t;
    JsonTagAfterFence(t);
    if |c| >= 4 {
      assert t[..4] == c[..4];
    } else {
      assert t[|c|] == '`' != "json"[|c|];
    }
  }

  /** A ```json block followed by more text (a trailing newline, a remark): the
      parser receives the block's content, then the rest with its own fences
      deleted, trimmed as a whole. */
  lemma DeFenceFencedReply(c: string, t: string)
    requires !ContainsFence(c)
    requires |c| == 0 || c[|c| - 1] != '`'
    requires !StartsWith(t, "json")
    ensures DeFence(JsonFence + c + Fence + t) == Trim(c + StripFences(t))
  {
    var s := JsonFence + c + Fence + t;
    assert s[..3] == Fence;
    assert s == JsonFence + (c + (Fence + t));
    StripJsonFenceHead(c + (Fence + t));
    StripFencesPrefix(c, Fence + t);
    StripFenceHead(t);
  }

  /** De-fencing is idempotent: its output never starts with a fence. */
  lemma DeFenceIdempotent(text: string)
    ensures DeFence(DeFence(text)) == DeFence(text)
  {
    var r := DeFence(text);
    if StartsWith(text, Fence) {
      assert !StartsWith(r, Fence) by {
        if StartsWith(r, Fence) { assert FenceAt(r, 0); }
      }
    }
  }
}
