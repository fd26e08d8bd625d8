/**
  Start and end token labels for extractive question answering. Each tokenized
  feature (one window of a question and its context) is labelled with the
  positions of the first and the last token of the gold answer, or with the
  position of the classifier token when the example has no answer or the
  answer is not inside the feature's context window.
 */
module SpanLabels {
  import opened Wrappers

  /** One tokenized window of a (question, context) pair. `offsets[i]` is the
      character span of token `i` in its own text; `sequenceIds[i]` is `None`
      for special tokens, `Some(0)` for question tokens and `Some(1)` for
      context tokens; `sampleIndex` names the example the window came from. */
  datatype Feature = Feature(
    inputIds: seq<int>,
    offsets: seq<(int, int)>,
    sequenceIds: seq<Option<int>>,
    sampleIndex: int)

  /** The gold answers of one example: start characters and texts, in parallel. */
  datatype Answer = Answer(answerStart: seq<int>, text: seq<string>)

  /** `list.index`: the first position of `x`. */
  function IndexOf<T(==)>(s: seq<T>, x: T): (k: nat)
    requires x in s
    ensures k < |s| && s[k] == x
    ensures forall j :: 0 <= j < k ==> s[j] != x
  {
    if s[0] == x then 0 else 1 + IndexOf(s[1..], x)
  }

  /** The last position of `x`. */
  function LastIndexOf<T(==)>(s: seq<T>, x: T): (k: nat)
    requires x in s
    ensures k < |s| && s[k] == x
    ensures forall j :: k < j < |s| ==> s[j] != x
  {
    if s[|s| - 1] == x then |s| - 1
    else
      var i :| 0 <= i < |s| && s[i] == x;
      assert s[..|s| - 1][i] == x;
      LastIndexOf(s[..|s| - 1], x)
  }

  /** The first answer's character span is `[StartChar(a), EndChar(a))`. */
  function StartChar(a: Answer): int
    requires a.answerStart != []
  {
    a.answerStart[0]
  }

  function EndChar(a: Answer): int
    requires a.answerStart != [] && a.text != []
  {
    a.answerStart[0] + |a.text[0]|
  }

  /** The first and last context tokens cover the answer span. */
  predicate InWindow(f: Feature, a: Answer)
    requires |f.offsets| == |f.sequenceIds| && Some(1) in f.sequenceIds
    requires a.answerStart != [] && a.text != []
  {
    var first := IndexOf(f.sequenceIds, Some(1));
    var last := LastIndexOf(f.sequenceIds, Some(1));
    f.offsets[first].0 <= StartChar(a) && f.offsets[last].1 >= EndChar(a)
  }

  /** What the labelling code relies on without checking: aligned token lists,
      a classifier token, and for an answered example a first answer text, a
      context token, and a token left of the last context token that ends
      before the answer does (so the backward scan stops inside the list). */
  ghost predicate Labellable(f: Feature, a: Answer, cls: int) {
    |f.offsets| == |f.inputIds| && |f.sequenceIds| == |f.inputIds| &&
    cls in f.inputIds &&
    (a.answerStart != [] ==>
      a.text != [] && Some(1) in f.sequenceIds &&
      (InWindow(f, a) ==>
        exists k :: 0 <= k < LastIndexOf(f.sequenceIds, Some(1)) && f.offsets[k].1 < EndChar(a)))
  }

  /** How far the forward scan for the start token may run: to the end of the
      feature, as the labelling code does, or only to the last context token. */
  datatype ScanBound = ToEnd | ToWindowEnd

  function Limit(bound: ScanBound, size: int, last: int): int {
    match bound
    case ToEnd => size
    case ToWindowEnd => last + 1
  }

  /** `s` is where the forward scan from `first` stops: every token from `first`
      through `s` starts at or before `startChar`, and the next one starts after
      it or lies at `limit`. */
  predicate StartLabel(offsets: seq<(int, int)>, first: int, limit: int, startChar: int, s: int) {
    0 <= first <= s < limit <= |offsets| &&
    (forall j :: first <= j <= s ==> offsets[j].0 <= startChar) &&
    (s + 1 == limit || offsets[s + 1].0 > startChar)
  }

  /** `e` is where the backward scan from `last` stops: every token from `e`
      through `last` ends at or after `endChar`, and the one before `e` ends
      before it. */
  predicate EndLabel(offsets: seq<(int, int)>, last: int, endChar: int, e: int) {
    0 < e <= last < |offsets| &&
    (forall j :: e <= j <= last ==> offsets[j].1 >= endChar) &&
    offsets[e - 1].1 < endChar
  }

  /** The labels of one feature: the classifier position for an unanswered
      example or an answer outside the window, otherwise the scan results.
      Either way both labels are positions of the feature's tokens. */
  ghost predicate Labels(f: Feature, a: Answer, cls: int, bound: ScanBound, s: int, e: int)
    requires Labellable(f, a, cls)
    ensures Labels(f, a, cls, bound, s, e) ==> 0 <= s < |f.inputIds| && 0 <= e < |f.inputIds|
  {
    var clsIndex := IndexOf(f.inputIds, cls);
    if a.answerStart == [] || !InWindow(f, a) then
      s == clsIndex && e == clsIndex
    else
      var first := IndexOf(f.sequenceIds, Some(1));
      var last := LastIndexOf(f.sequenceIds, Some(1));
      StartLabel(f.offsets, first, Limit(bound, |f.offsets|, last), StartChar(a), s) &&
      EndLabel(f.offsets, last, EndChar(a), e)
  }

  /** The index of the first context token, found by scanning forward from 0. */
  method FirstContextToken(ids: seq<Option<int>>) returns (k: nat)
    requires Some(1) in ids
    ensures k == IndexOf(ids, Some(1))
  {
    k := 0;
    while ids[k] != Some(1)
      invariant k <= IndexOf(ids, Some(1))
      decreases IndexOf(ids, Some(1)) - k
    {
      k := k + 1;
    }
  }

  /** The index of the last context token, found by scanning back from the end. */
  method LastContextToken(ids: seq<Option<int>>) returns (k: nat)
    requires Some(1) in ids
    ensures k == LastIndexOf(ids, Some(1))
  {
    k := |ids| - 1;
    while ids[k] != Some(1)
      invariant LastIndexOf(ids, Some(1)) <= k < |ids|
      decreases k
    {
      k := k - 1;
    }
  }

  /** Scans forward from `first` while tokens start at or before `startChar`
      and answers the position before the stop. */
  method ScanStart(offsets: seq<(int, int)>, first: nat, limit: int, startChar: int) returns (s: int)
    requires first < limit <= |offsets| && offsets[first].0 <= startChar
    ensures StartLabel(offsets, first, limit, startChar, s)
  {
    var k := first;
    while k < limit && offsets[k].0 <= startChar
      invariant first <= k <= limit
      invariant forall j :: first <= j < k ==> offsets[j].0 <= startChar
    {
      k := k + 1;
    }
    s := k - 1;
  }

  /** Scans back from `last` while tokens end at or after `endChar` and answers
      the position after the stop. */
  method ScanEnd(offsets: seq<(int, int)>, last: nat, endChar: int) returns (e: int)
    requires last < |offsets| && offsets[last].1 >= endChar
    requires exists k :: 0 <= k < last && offsets[k].1 < endChar
    ensures EndLabel(offsets, last, endChar, e)
  {
    ghost var w :| 0 <= w < last && offsets[w].1 < endChar;
    var k := last;
    while offsets[k].1 >= endChar
      invariant w <= k <= last
      invariant forall j :: k < j <= last ==> offsets[j].1 >= endChar
      decreases k
    {
      k := k - 1;
    }
    e := k + 1;
  }

  /** The labels of one feature whose example has answers `a`. */
  method LabelFeature(f: Feature, a: Answer, cls: int, bound: ScanBound) returns (s: int, e: int)
    requires Labellable(f, a, cls)
    ensures Labels(f, a, cls, bound, s, e)
  {
    var clsIndex := IndexOf(f.inputIds, cls);
    if |a.answerStart| == 0 {
      s, e := clsIndex, clsIndex;
    } else {
      var startChar := a.answerStart[0];
      var endChar := startChar + |a.text[0]|;
      var first := FirstContextToken(f.sequenceIds);
      var last := LastContextToken(f.sequenceIds);
      if !(f.offsets[first].0 <= startChar && f.offsets[last].1 >= endChar) {
        s, e := clsIndex, clsIndex;
      } else {
        s := ScanStart(f.offsets, first, Limit(bound, |f.offsets|, last), startChar);
        e := ScanEnd(f.offsets, last, endChar);
      }
    }
  }

  /** The labelling loop: one start and one end label per feature, in order,
      each computed against the answers of the feature's own example. */
  method LabelFeatures(features: seq<Feature>, answers: seq<Answer>, cls: int, bound: ScanBound)
    returns (starts: seq<int>, ends: seq<int>)
    requires forall f :: f in features ==>
      0 <= f.sampleIndex < |answers| && Labellable(f, answers[f.sampleIndex], cls)
    ensures |starts| == |features| && |ends| == |features|
    ensures forall i :: 0 <= i < |features| ==>
      Labels(features[i], answers[features[i].sampleIndex], cls, bound, starts[i], ends[i])
  {
    starts, ends := [], [];
    for i := 0 to |features|
      invariant |starts| == i && |ends| == i
      invariant forall j :: 0 <= j < i ==>
        Labels(features[j], answers[features[j].sampleIndex], cls, bound, starts[j], ends[j])
    {
      var f := features[i];
      assert f in features;
      var s, e := LabelFeature(f, answers[f.sampleIndex], cls, bound);
      starts, ends := starts + [s], ends + [e];
    }
  }

  /** The labels are determined by the feature and the answers. */
  lemma LabelsUnique(f: Feature, a: Answer, cls: int, bound: ScanBound, s1: int, e1: int, s2: int, e2: int)
    requires Labellable(f, a, cls)
    requires Labels(f, a, cls, bound, s1, e1) && Labels(f, a, cls, bound, s2, e2)
    ensures s1 == s2 && e1 == e2
  {
    if a.answerStart != [] && InWindow(f, a) {
      var first := IndexOf(f.sequenceIds, Some(1));
      var last := LastIndexOf(f.sequenceIds, Some(1));
      var limit := Limit(bound, |f.offsets|, last);
      StartLabelUnique(f.offsets, first, limit, StartChar(a), s1, s2);
      EndLabelUnique(f.offsets, last, EndChar(a), e1, e2);
    }
  }

  lemma StartLabelUnique(offsets: seq<(int, int)>, first: int, limit: int, startChar: int, s1: int, s2: int)
    requires StartLabel(offsets, first, limit, startChar, s1)
    requires StartLabel(offsets, first, limit, startChar, s2)
    ensures s1 == s2
  {
  }

  lemma EndLabelUnique(offsets: seq<(int, int)>, last: int, endChar: int, e1: int, e2: int)
    requires EndLabel(offsets, last, endChar, e1)
    requires EndLabel(offsets, last, endChar, e2)
    ensures e1 == e2
  {
  }

  /** With the scan bounded by the window, an answer inside the window gets a
      start label on a context-window token at or before the answer's start,
      and an end label at or before the last context token. When the token
      just before the window (the separator after the question) ends before
      the answer does, as the tokenizer's (0, 0) offset for it guarantees for
      any non-empty answer, the end label lies inside the window too. */
  lemma StartLabelInWindow(f: Feature, a: Answer, cls: int, s: int, e: int)
    requires Labellable(f, a, cls)
    requires a.answerStart != [] && InWindow(f, a)
    requires Labels(f, a, cls, ToWindowEnd, s, e)
    ensures var first := IndexOf(f.sequenceIds, Some(1));
      var last := LastIndexOf(f.sequenceIds, Some(1));
      first <= s <= last && f.offsets[s].0 <= StartChar(a) &&
      0 < e <= last && f.offsets[e].1 >= EndChar(a)
    ensures var first := IndexOf(f.sequenceIds, Some(1));
      0 < first && f.offsets[first - 1].1 < EndChar(a) ==> first <= e
  {
  }

  /** A window whose only context token is followed by a separator and padding,
      all with the offset (0, 0) the tokenizer gives special tokens. */
  const ExampleFeature := Feature([101, 7, 102, 0], [(0, 0), (0, 5), (0, 0), (0, 0)], [None, Some(1), None, None], 0)
  const ExampleAnswer := Answer([2], ["abc"])

  /** The unbounded start scan runs over the separator and the padding: the
      start label is the last padding token, past the window and after the end
      label. The window-bounded scan stops on the context token. */
  lemma StartLabelPastWindow()
    ensures Labellable(ExampleFeature, ExampleAnswer, 101)
    ensures LastIndexOf(ExampleFeature.sequenceIds, Some(1)) == 1
    ensures forall s, e :: Labels(ExampleFeature, ExampleAnswer, 101, ToEnd, s, e) <==> s == 3 && e == 1
    ensures forall s, e :: Labels(ExampleFeature, ExampleAnswer, 101, ToWindowEnd, s, e) <==> s == 1 && e == 1
  {
    var f, a := ExampleFeature, ExampleAnswer;
    assert f.sequenceIds[1] == Some(1);
    assert IndexOf(f.sequenceIds, Some(1)) == 1;
    assert LastIndexOf(f.sequenceIds, Some(1)) == 1;
    assert IndexOf(f.inputIds, 101) == 0;
    assert InWindow(f, a);
    assert f.offsets[0].1 < EndChar(a);
    assert Labellable(f, a, 101);
    forall s, e ensures Labels(f, a, 101, ToEnd, s, e) <==> s == 3 && e == 1 {
      if Labels(f, a, 101, ToEnd, s, e) {
        StartLabelUnique(f.offsets, 1, 4, 2, s, 3);
        EndLabelUnique(f.offsets, 1, 5, e, 1);
      }
    }
    forall s, e ensures Labels(f, a, 101, ToWindowEnd, s, e) <==> s == 1 && e == 1 {
      if Labels(f, a, 101, ToWindowEnd, s, e) {
        EndLabelUnique(f.offsets, 1, 5, e, 1);
      }
    }
  }
}
