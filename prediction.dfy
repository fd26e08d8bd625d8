/**
  Prompt framing and answer extraction around the fine-tuned causal language
  model (finetuning/deploy/prediction.py). The model, the tokenizer and text
  generation are not modelled: the decoded output is an input string.
 */
module Prediction {
  import opened Wrappers
  import opened Text

  /** The marker that closes an instruction. */
  const InstEnd := "[/INST]"

  /** `transform_prompt`: the context and question wrapped in an instruction.
      The prompt ends with the closing marker, and when neither the context nor
      the question holds a marker that closing marker is its first. */
  function TransformPrompt(context: string, question: string): (prompt: string)
    ensures |prompt| >= |InstEnd| && prompt[|prompt| - |InstEnd|..] == InstEnd
    ensures !Contains(context, InstEnd) && !Contains(question, InstEnd) ==>
      Find(prompt, InstEnd) == Some(|prompt| - |InstEnd|)
  {
    var userText := "Context: " + context + " Question: " + question;
    PromptEndsWithMarker(context, question);
    "<s>[INST] " + userText + " [/INST]"
  }

  /** The `IndexError` raised by `[1]` when the split yields one piece. */
  datatype ExtractError = IndexError

  /** The text before the first `sep` in `s`, or all of `s`: piece 0 of `s.split(sep)`. */
  function FirstPiece(s: string, sep: string): string
    requires |sep| > 0
  {
    match Find(s, sep)
    case None => s
    case Some(j) => s[..j]
  }

  /** The post-processing in `predict`: `decoded.split('[/INST]')[1].strip()`.
      It fails with an index error exactly when the text has no marker;
      otherwise the answer holds no marker and no edge whitespace. */
  function ExtractAnswer(decoded: string): (r: Result<string, ExtractError>)
    ensures r.Err? <==> !Contains(decoded, InstEnd)
    ensures r.Ok? ==> !Contains(r.value, InstEnd)
    ensures r.Ok? ==> |r.value| > 0 ==> !IsSpace(r.value[0]) && !IsSpace(r.value[|r.value| - 1])
  {
    var parts := SplitOn(decoded, InstEnd);
    MarkerPieces(decoded);
    if |parts| < 2 then Err(IndexError)
    else
      StripKeepsAbsent(parts[1], InstEnd);
      Ok(Strip(parts[1]))
  }

  /** The split has a second piece exactly when the text holds a marker, and
      that piece holds none. */
  lemma MarkerPieces(decoded: string)
    ensures |SplitOn(decoded, InstEnd)| >= 2 <==> Contains(decoded, InstEnd)
    ensures |SplitOn(decoded, InstEnd)| >= 2 ==> !Contains(SplitOn(decoded, InstEnd)[1], InstEnd)
  {
    FindSpec(decoded, InstEnd);
    if Find(decoded, InstEnd).Some? {
      var i := Find(decoded, InstEnd).value;
      SecondPiece(decoded);
      FirstPieceHasNoMarker(decoded[i + |InstEnd|..], InstEnd);
    }
  }

  /** Piece 1 of the split is the text after the first marker, up to the next one. */
  lemma SecondPiece(decoded: string)
    requires Find(decoded, InstEnd).Some?
    ensures var i := Find(decoded, InstEnd).value;
      |SplitOn(decoded, InstEnd)| >= 2 &&
      SplitOn(decoded, InstEnd)[1] == FirstPiece(decoded[i + |InstEnd|..], InstEnd)
  {
  }

  /** The text before the first occurrence of `sep` does not contain `sep`. */
  lemma FirstPieceHasNoMarker(s: string, sep: string)
    requires |sep| > 0
    ensures !Contains(FirstPiece(s, sep), sep)
  {
    FindSpec(s, sep);
    match Find(s, sep)
    case None =>
    case Some(j) =>
      forall k | OccursAt(s[..j], sep, k) ensures false {
        assert s[..j][k..k + |sep|] == s[k..k + |sep|];
        assert OccursAt(s, sep, k);
      }
  }

  /** The answer is the stripped text between the first marker (at `i`) and the
      next marker (at `j`), or the end of the text when there is none. */
  lemma ExtractAnswerBetweenMarkers(decoded: string, i: nat, j: nat)
    requires OccursAt(decoded, InstEnd, i)
    requires forall k :: 0 <= k < i ==> !OccursAt(decoded, InstEnd, k)
    requires i + |InstEnd| <= j <= |decoded|
    requires forall k :: i + |InstEnd| <= k < j ==> !OccursAt(decoded, InstEnd, k)
    requires j == |decoded| || OccursAt(decoded, InstEnd, j)
    ensures ExtractAnswer(decoded) == Ok(Strip(decoded[i + |InstEnd|..j]))
  {
    FindFirst(decoded, InstEnd, i);
    SecondPiece(decoded);
    FirstPieceOfSuffix(decoded, i + |InstEnd|, j);
  }

  /** Piece 0 of the split of a suffix ends at the first marker of the suffix. */
  lemma FirstPieceOfSuffix(s: string, start: nat, j: nat)
    requires start <= j <= |s|
    requires forall k :: start <= k < j ==> !OccursAt(s, InstEnd, k)
    requires j == |s| || OccursAt(s, InstEnd, j)
    ensures FirstPiece(s[start..], InstEnd) == s[start..j]
  {
    var rest := s[start..];
    forall k: nat | k < j - start || j == |s| ensures !OccursAt(rest, InstEnd, k) {
      OccursInSuffix(s, InstEnd, start, k);
    }
    FindSpec(rest, InstEnd);
    if j < |s| {
      OccursInSuffix(s, InstEnd, start, j - start);
      FindFirst(rest, InstEnd, j - start);
    }
  }

  /** `[/INST]` has no `/`-free window: an occurrence needs a `/` at its second position. */
  lemma NoSlashNoMarker(s: string)
    requires '/' !in s
    ensures !Contains(s, InstEnd)
  {
    forall i | 0 <= i && i + |InstEnd| <= |s| ensures !OccursAt(s, InstEnd, i) {
      assert s[i..i + |InstEnd|][1] == s[i + 1];
    }
  }

  /** A space at `p` rules out a marker at any `k` whose window covers `p`. */
  lemma SpaceBreaksMarker(s: string, k: int, p: int)
    requires 0 <= k <= p < k + |InstEnd| && p < |s| && s[p] == ' '
    ensures !OccursAt(s, InstEnd, k)
  {
    if k + |InstEnd| <= |s| {
      assert s[k..k + |InstEnd|][p - k] == s[p];
    }
  }

  /** Occurrences inside a prefix `u` of `u + v` are occurrences in `u`. */
  lemma OccursInPrefix(u: string, v: string, k: int)
    requires 0 <= k && k + |InstEnd| <= |u|
    ensures OccursAt(u + v, InstEnd, k) <==> OccursAt(u, InstEnd, k)
  {
    assert (u + v)[k..k + |InstEnd|] == u[k..k + |InstEnd|];
  }

  /** No occurrence of the marker starts inside a marker-free `u` that ends with
      a space, whatever follows it: the marker holds no space. */
  lemma NoMarkerStartsIn(u: string, v: string)
    requires !Contains(u, InstEnd)
    requires |u| > 0 && u[|u| - 1] == ' '
    ensures forall k :: 0 <= k < |u| ==> !OccursAt(u + v, InstEnd, k)
  {
    var s := u + v;
    forall k | 0 <= k < |u| ensures !OccursAt(s, InstEnd, k) {
      if k + |InstEnd| <= |u| {
        OccursInPrefix(u, v, k);
      } else {
        SpaceBreaksMarker(s, k, |u| - 1);
      }
    }
  }

  /** Joining two marker-free strings at a space creates no marker. */
  lemma NoMarkerAcrossSpace(u: string, v: string)
    requires !Contains(u, InstEnd) && !Contains(v, InstEnd)
    requires (|u| > 0 && u[|u| - 1] == ' ') || (|v| > 0 && v[0] == ' ')
    ensures !Contains(u + v, InstEnd)
  {
    var s := u + v;
    forall k | 0 <= k ensures !OccursAt(s, InstEnd, k) {
      if k + |InstEnd| <= |u| {
        OccursInPrefix(u, v, k);
      } else if |u| <= k {
        assert s[|u|..] == v;
        OccursInSuffix(s, InstEnd, |u|, k - |u|);
      } else if |u| > 0 && u[|u| - 1] == ' ' {
        SpaceBreaksMarker(s, k, |u| - 1);
      } else if |u| < |s| {
        SpaceBreaksMarker(s, k, |u|);
      }
    }
  }

  /** The prompt up to its closing marker: the instruction text and a space. */
  function PromptBody(context: string, question: string): string {
    "<s>[INST] Context: " + context + " Question: " + question + " "
  }

  /** The closing marker is the first marker of the prompt when the context and
      question hold none. */
  lemma ClosingMarkerFirst(context: string, question: string)
    ensures var u := PromptBody(context, question);
      !Contains(context, InstEnd) && !Contains(question, InstEnd) ==>
        Find(u + InstEnd, InstEnd) == Some(|u|)
  {
    var u := PromptBody(context, question);
    if !Contains(context, InstEnd) && !Contains(question, InstEnd) {
      PromptBodyMarkerFree(context, question);
      NoMarkerStartsIn(u, InstEnd);
      assert (u + InstEnd)[|u|..|u| + |InstEnd|] == InstEnd;
      FindFirst(u + InstEnd, InstEnd, |u|);
    }
  }

  /** The f-strings of `transform_prompt` give the body followed by the closing marker. */
  lemma BodyPlusMarker(context: string, question: string)
    ensures "<s>[INST] " + ("Context: " + context + " Question: " + question) + " [/INST]" ==
      PromptBody(context, question) + InstEnd
  {
    var userText := "Context: " + context + " Question: " + question;
    assert "<s>[INST] " + userText == "<s>[INST] Context: " + context + " Question: " + question;
  }

  /** The f-string prompt ends with the closing marker, which is its first marker
      when context and question hold none. */
  lemma PromptEndsWithMarker(context: string, question: string)
    ensures var prompt := "<s>[INST] " + ("Context: " + context + " Question: " + question) + " [/INST]";
      |prompt| >= |InstEnd| && prompt[|prompt| - |InstEnd|..] == InstEnd &&
      (!Contains(context, InstEnd) && !Contains(question, InstEnd) ==>
        Find(prompt, InstEnd) == Some(|prompt| - |InstEnd|))
  {
    var u := PromptBody(context, question);
    BodyPlusMarker(context, question);
    assert (u + InstEnd)[|u|..] == InstEnd;
    ClosingMarkerFirst(context, question);
  }

  /** The prompt is its body followed by the closing marker. */
  lemma PromptSplits(context: string, question: string)
    ensures TransformPrompt(context, question) == PromptBody(context, question) + InstEnd
  {
    BodyPlusMarker(context, question);
  }

  /** The body holds no marker when context and question hold none, and it ends
      in a space. */
  lemma PromptBodyMarkerFree(context: string, question: string)
    requires !Contains(context, InstEnd) && !Contains(question, InstEnd)
    ensures var u := PromptBody(context, question);
      |u| > 0 && u[|u| - 1] == ' ' && !Contains(u, InstEnd)
  {
    var head := "<s>[INST] Context: ";
    var mid := " Question: ";
    NoSlashNoMarker(head);
    NoSlashNoMarker(mid);
    NoSlashNoMarker(" ");
    var x1 := head + context;
    NoMarkerAcrossSpace(head, context);
    var x2 := x1 + mid;
    NoMarkerAcrossSpace(x1, mid);
    var x3 := x2 + question;
    NoMarkerAcrossSpace(x2, question);
    NoMarkerAcrossSpace(x3, " ");
  }

  /** A marker-free `u` ending in a space, the marker, then a marker-free `x`:
      the answer is `x` stripped. */
  lemma AnswerAfterMarker(u: string, x: string)
    requires |u| > 0 && u[|u| - 1] == ' ' && !Contains(u, InstEnd)
    requires !Contains(x, InstEnd)
    ensures ExtractAnswer(u + InstEnd + x) == Ok(Strip(x))
  {
    var decoded := u + InstEnd + x;
    NoMarkerStartsIn(u, InstEnd + x);
    assert decoded == u + (InstEnd + x);
    var start := |u| + |InstEnd|;
    assert decoded[|u|..start] == InstEnd;
    assert decoded[start..] == decoded[start..|decoded|] == x;
    forall k: nat | start <= k ensures !OccursAt(decoded, InstEnd, k) {
      OccursInSuffix(decoded, InstEnd, start, k - start);
    }
    ExtractAnswerBetweenMarkers(decoded, |u|, |decoded|);
  }

  /** Round trip: the model's completion `x` after a prompt built from marker-free
      context and question comes back stripped, provided `x` holds no marker. */
  lemma PromptRoundTrip(context: string, question: string, x: string)
    requires !Contains(context, InstEnd) && !Contains(question, InstEnd) && !Contains(x, InstEnd)
    ensures ExtractAnswer(TransformPrompt(context, question) + x) == Ok(Strip(x))
  {
    PromptSplits(context, question);
    PromptBodyMarkerFree(context, question);
    AnswerAfterMarker(PromptBody(context, question), x);
  }
}
