/**
  SQuAD answer scoring (distillation/utils/metrics.py): answer normalisation,
  exact match, token-level F1 and their aggregation over a reference set.
  Scores are exact `real`s rather than floating-point numbers.
 */
module Metrics {
  import opened Text

  /** Membership in Python's `string.punctuation`. */
  predicate IsPunct(c: char) {
    var k := c as int;
    33 <= k <= 47 || 58 <= k <= 64 || 91 <= k <= 96 || 123 <= k <= 126
  }

  const Articles: set<string> := {"a", "an", "the"}

  /** `remove_punc`: keep the characters that are not punctuation. */
  function RemovePunc(s: string): (r: string)
    ensures |r| <= |s|
    ensures forall c :: c in r <==> c in s && !IsPunct(c)
  {
    if s == [] then []
    else
      var r := (if IsPunct(s[0]) then [] else [s[0]]) + RemovePunc(s[1..]);
      assert forall c :: c in s <==> c == s[0] || c in s[1..];
      r
  }

  /** `remove_punc` works character by character: the kept characters of a
      concatenation are those of each part, in order. With the membership and
      length bounds of `RemovePunc` on a single character, this fixes it on
      every string. */
  lemma {:induction false} RemovePuncAppend(a: string, b: string)
    ensures RemovePunc(a + b) == RemovePunc(a) + RemovePunc(b)
  {
    if a != [] {
      assert (a + b)[0] == a[0];
      assert (a + b)[1..] == a[1..] + b;
      RemovePuncAppend(a[1..], b);
      var h := (if IsPunct(a[0]) then [] else [a[0]]);
      assert RemovePunc(a + b) == h + (RemovePunc(a[1..]) + RemovePunc(b));
      assert RemovePunc(a) == h + RemovePunc(a[1..]);
    } else {
      assert a + b == b;
    }
  }

  lemma RemovePuncIdentity(s: string)
    requires forall c :: c in s ==> !IsPunct(c)
    ensures RemovePunc(s) == s
  {
    if s != [] {
      assert s[0] in s;
      assert forall c :: c in s[1..] ==> c in s;
      RemovePuncIdentity(s[1..]);
      assert s == [s[0]] + s[1..];
    }
  }

  /** The word filter of `remove_articles`. */
  function DropArticles(ws: seq<string>): (r: seq<string>)
    ensures |r| <= |ws|
    ensures forall w :: w in r <==> w in ws && Lower(w) !in Articles
  {
    if ws == [] then []
    else
      var r := (if Lower(ws[0]) in Articles then [] else [ws[0]]) + DropArticles(ws[1..]);
      assert forall w :: w in ws <==> w == ws[0] || w in ws[1..];
      r
  }

  /** The article filter works word by word: the kept words of a concatenation
      are those of each part, in order. With the membership and length bounds
      of `DropArticles` on a single word, this fixes it on every list. */
  lemma {:induction false} DropArticlesAppend(a: seq<string>, b: seq<string>)
    ensures DropArticles(a + b) == DropArticles(a) + DropArticles(b)
  {
    if a != [] {
      assert (a + b)[0] == a[0];
      assert (a + b)[1..] == a[1..] + b;
      DropArticlesAppend(a[1..], b);
      var h := (if Lower(a[0]) in Articles then [] else [a[0]]);
      assert DropArticles(a + b) == h + (DropArticles(a[1..]) + DropArticles(b));
      assert DropArticles(a) == h + DropArticles(a[1..]);
    } else {
      assert a + b == b;
    }
  }

  lemma DropArticlesIdentity(ws: seq<string>)
    requires forall w :: w in ws ==> Lower(w) !in Articles
    ensures DropArticles(ws) == ws
  {
    if ws != [] {
      assert ws[0] in ws;
      DropArticlesIdentity(ws[1..]);
      assert ws == [ws[0]] + ws[1..];
    }
  }

  /** `remove_articles` */
  function RemoveArticles(text: string): (r: string)
    ensures Split(r) == DropArticles(Split(text))
  {
    SplitJoin(DropArticles(Split(text)));
    JoinWith(" ", DropArticles(Split(text)))
  }

  /** `white_space_fix` */
  function WhiteSpaceFix(text: string): (r: string)
    ensures Split(r) == Split(text)
    ensures |r| > 0 ==> !IsSpace(r[0]) && !IsSpace(r[|r| - 1])
    ensures forall i :: 0 <= i < |r| && IsSpace(r[i]) ==> r[i] == ' ' && 0 < i < |r| - 1 && !IsSpace(r[i + 1])
  {
    SplitJoin(Split(text));
    JoinedSpacing(Split(text));
    JoinWith(" ", Split(text))
  }

  /** `normalize_answer`: its kept words joined by single spaces, so that the
      final `white_space_fix` changes nothing. */
  function NormalizeAnswer(s: string): (r: string)
    ensures r == JoinWith(" ", NormalWords(s))
  {
    NormalWordsAreNormal(s);
    SplitJoin(NormalWords(s));
    WhiteSpaceFix(RemoveArticles(RemovePunc(Lower(s))))
  }

  /** A word as `normalize_answer` leaves it: a whitespace-free, non-empty run of
      characters that are neither upper-case nor punctuation, and not an article. */
  ghost predicate IsNormalWord(w: string) {
    && IsToken(w)
    && (forall c :: c in w ==> !IsUpper(c) && !IsPunct(c))
    && w !in Articles
  }

  /** The words `normalize_answer` keeps, in order. */
  function NormalWords(s: string): seq<string> {
    DropArticles(Split(RemovePunc(Lower(s))))
  }

  /** Each kept word is a lower-case, punctuation-free token that is not an article. */
  lemma NormalWordsAreNormal(s: string)
    ensures forall w :: w in NormalWords(s) ==> IsNormalWord(w)
  {
    var t := RemovePunc(Lower(s));
    LowerHasNoUpper(s);
    var ws := NormalWords(s);
    forall w | w in ws ensures IsNormalWord(w) {
      assert w in Split(t);
      LowerIdentity(w);
    }
  }

  /** No character of a normalised answer is punctuation or upper case, and its
      only whitespace character is the space. */
  lemma NormalizeAnswerCharacters(s: string)
    ensures forall c :: c in NormalizeAnswer(s) ==> !IsPunct(c) && !IsUpper(c) && (IsSpace(c) ==> c == ' ')
  {
    NormalWordsAreNormal(s);
    var P := (c: char) => !IsPunct(c) && !IsUpper(c) && (IsSpace(c) ==> c == ' ');
    forall w, c | w in NormalWords(s) && c in w ensures P(c) {
      assert IsNormalWord(w);
      var i :| 0 <= i < |w| && w[i] == c;
    }
    JoinWithKeeps(" ", NormalWords(s), P);
  }

  /** A normalised answer has no leading or trailing whitespace, and its words
      are separated by exactly one space. */
  lemma NormalizeAnswerSpacing(s: string)
    ensures var r := NormalizeAnswer(s);
      |r| > 0 ==> !IsSpace(r[0]) && !IsSpace(r[|r| - 1])
    ensures var r := NormalizeAnswer(s);
      forall i :: 0 <= i < |r| && IsSpace(r[i]) ==> r[i] == ' ' && 0 < i < |r| - 1 && !IsSpace(r[i + 1])
  {
    NormalWordsAreNormal(s);
    JoinedSpacing(NormalWords(s));
  }

  /** No word of a normalised answer is "a", "an" or "the". */
  lemma NormalizeAnswerNoArticles(s: string)
    ensures forall w :: w in Split(NormalizeAnswer(s)) ==> w !in Articles
  {
    NormalWordsAreNormal(s);
    SplitJoin(NormalWords(s));
  }

  /** Normalising a normalised answer changes nothing. */
  lemma NormalizeAnswerIdempotent(s: string)
    ensures NormalizeAnswer(NormalizeAnswer(s)) == NormalizeAnswer(s)
  {
    var ws := NormalWords(s);
    var r := NormalizeAnswer(s);
    NormalWordsAreNormal(s);
    NormalizeAnswerCharacters(s);
    LowerIdentity(r);
    RemovePuncIdentity(r);
    SplitJoin(ws);
    forall w | w in ws ensures Lower(w) !in Articles {
      assert IsNormalWord(w);
      LowerIdentity(w);
    }
    DropArticlesIdentity(ws);
  }

  /** `compute_exact`: 1 when the two answers normalise to the same text, else 0. */
  function ComputeExact(gold: string, pred: string): (r: int)
    ensures r == 0 || r == 1
    ensures r == 1 <==> NormalizeAnswer(gold) == NormalizeAnswer(pred)
  {
    if NormalizeAnswer(gold) == NormalizeAnswer(pred) then 1 else 0
  }

  /** The tokens `compute_f1` compares. */
  function Tokens(s: string): seq<string> {
    Split(NormalizeAnswer(s))
  }

  /** `sum(common.values())`: the size of the multiset intersection of the tokens. */
  function NumSame(goldToks: seq<string>, predToks: seq<string>): nat {
    |multiset(goldToks) * multiset(predToks)|
  }

  lemma NumSameBounds(goldToks: seq<string>, predToks: seq<string>)
    ensures NumSame(goldToks, predToks) <= |goldToks|
    ensures NumSame(goldToks, predToks) <= |predToks|
  {
    var a, b := multiset(goldToks), multiset(predToks);
    assert a == (a * b) + (a - b);
    assert b == (a * b) + (b - a);
  }

  /** `compute_f1`: a score in [0, 1] that is 1 for an exact match. */
  function ComputeF1(gold: string, pred: string): (r: real)
    ensures 0.0 <= r <= 1.0
    ensures ComputeExact(gold, pred) == 1 ==> r == 1.0
  {
    F1Cases(Tokens(gold), Tokens(pred));
    F1OfEqualTokens(Tokens(gold));
    F1OfTokens(Tokens(gold), Tokens(pred))
  }

  /** The score `compute_f1` computes from the two token lists. */
  function F1OfTokens(goldToks: seq<string>, predToks: seq<string>): real {
    var numSame := NumSame(goldToks, predToks);
    if |goldToks| == 0 || |predToks| == 0 then
      if goldToks == predToks then 1.0 else 0.0
    else if numSame == 0 then 0.0
    else HarmonicF1(numSame, |goldToks|, |predToks|)
  }

  /** The F1 arithmetic of `compute_f1` for `numSame` shared tokens. */
  function HarmonicF1(numSame: nat, goldLen: nat, predLen: nat): real
    requires numSame > 0 && goldLen > 0 && predLen > 0
  {
    var precision := numSame as real / predLen as real;
    var recall := numSame as real / goldLen as real;
    PositiveRatio(numSame, predLen);
    (2.0 * precision * recall) / (precision + recall)
  }

  lemma PositiveRatio(a: nat, b: nat)
    requires a > 0 && b > 0
    ensures a as real / b as real > 0.0
  {
  }

  /** The harmonic mean of precision and recall is 2c/(g + p) for c shared tokens. */
  lemma HarmonicF1Closed(numSame: nat, goldLen: nat, predLen: nat)
    requires numSame > 0 && goldLen > 0 && predLen > 0
    ensures HarmonicF1(numSame, goldLen, predLen) == 2.0 * numSame as real / (goldLen + predLen) as real
  {
    var c, g, p := numSame as real, goldLen as real, predLen as real;
    var prec, rec := c / p, c / g;
    PositiveRatio(numSame, predLen);
    assert prec * p == c && rec * g == c;
    assert 2.0 * prec * rec * (g + p) == 2.0 * c * (prec + rec) by {
      calc {
        2.0 * prec * rec * (g + p);
        2.0 * prec * (rec * g) + 2.0 * rec * (prec * p);
        2.0 * prec * c + 2.0 * rec * c;
        2.0 * c * (prec + rec);
      }
    }
  }

  lemma RatioAtMostOne(a: real, b: real)
    requires 0.0 <= a <= b && b > 0.0
    ensures 0.0 <= a / b <= 1.0
  {
    assert a / b * b == a;
  }

  /** What `compute_f1` returns for the two token lists, case by case, and that
      it lies in [0, 1]. */
  lemma F1Cases(goldToks: seq<string>, predToks: seq<string>)
    ensures var g, p, f := goldToks, predToks, F1OfTokens(goldToks, predToks);
      && (g == [] && p == [] ==> f == 1.0)
      && ((g == []) != (p == []) ==> f == 0.0)
      && (g != [] && p != [] ==> f == 2.0 * NumSame(g, p) as real / (|g| + |p|) as real)
      && (g != [] && p != [] && NumSame(g, p) == 0 ==> f == 0.0)
    ensures 0.0 <= F1OfTokens(goldToks, predToks) <= 1.0
  {
    var g, p := goldToks, predToks;
    var c := NumSame(g, p);
    NumSameBounds(g, p);
    if g != [] && p != [] && c > 0 {
      HarmonicF1Closed(c, |g|, |p|);
      RatioAtMostOne(2.0 * c as real, (|g| + |p|) as real);
    }
  }

  /** Identical token lists score a perfect F1. */
  lemma F1OfEqualTokens(toks: seq<string>)
    ensures F1OfTokens(toks, toks) == 1.0
  {
    assert multiset(toks) * multiset(toks) == multiset(toks);
    F1Cases(toks, toks);
  }

  // ---------------------------------------------------------------------------
  // squad_evaluate
  // ---------------------------------------------------------------------------

  /** A reference answer: a list of gold answers, or a bare string. */
  datatype Gold = Answers(texts: seq<string>) | Bare(text: string)

  /** The gold list, with a bare string read as a one-element list. */
  function GoldList(gold: Gold): seq<string> {
    match gold
    case Answers(ts) => ts
    case Bare(t) => [t]
  }

  /** A question with no gold answer, or only the empty answer. */
  predicate Unanswerable(golds: seq<string>) {
    golds == [] || golds == [""]
  }

  /** `max(score(g) for g in golds)` for a non-empty `golds`. */
  function MaxOver(golds: seq<string>, score: string -> real): (r: real)
    requires golds != []
    ensures forall g :: g in golds ==> score(g) <= r
    ensures exists g :: g in golds && score(g) == r
  {
    var s := score(golds[0]);
    if |golds| == 1 then s
    else
      var m := MaxOver(golds[1..], score);
      assert forall g :: g in golds <==> g == golds[0] || g in golds[1..];
      if s >= m then s else m
  }

  /** `max(compute_exact(g, pred) for g in golds)` */
  function MaxExact(golds: seq<string>, pred: string): (r: real)
    requires golds != []
    ensures r == 0.0 || r == 1.0
    ensures r == 1.0 <==> exists g :: g in golds && NormalizeAnswer(g) == NormalizeAnswer(pred)
  {
    var score := g => ComputeExact(g, pred) as real;
    var r := MaxOver(golds, score);
    var w :| w in golds && score(w) == r;
    assert ComputeExact(w, pred) == 0 || ComputeExact(w, pred) == 1;
    r
  }

  /** `max(compute_f1(g, pred) for g in golds)` */
  function MaxF1(golds: seq<string>, pred: string): (r: real)
    requires golds != []
    ensures forall g :: g in golds ==> ComputeF1(g, pred) <= r
    ensures exists g :: g in golds && ComputeF1(g, pred) == r
  {
    MaxOver(golds, g => ComputeF1(g, pred))
  }

  /** The exact-match credit `squad_evaluate` gives one answered question. */
  function ExactCredit(gold: Gold, pred: string): (r: real)
    ensures r == 0.0 || r == 1.0
    ensures Unanswerable(GoldList(gold)) ==> (r == 1.0 <==> Strip(pred) == "")
    ensures !Unanswerable(GoldList(gold)) ==>
      (r == 1.0 <==> exists g :: g in GoldList(gold) && NormalizeAnswer(g) == NormalizeAnswer(pred))
  {
    var golds := GoldList(gold);
    if Unanswerable(golds) then (if Strip(pred) == "" then 1.0 else 0.0)
    else MaxExact(golds, pred)
  }

  /** The F1 credit `squad_evaluate` gives one answered question. */
  function F1Credit(gold: Gold, pred: string): (r: real)
    ensures Unanswerable(GoldList(gold)) ==> r == (if Strip(pred) == "" then 1.0 else 0.0)
    ensures !Unanswerable(GoldList(gold)) ==>
      forall g :: g in GoldList(gold) ==> ComputeF1(g, pred) <= r
    ensures !Unanswerable(GoldList(gold)) ==>
      exists g :: g in GoldList(gold) && ComputeF1(g, pred) == r
  {
    var golds := GoldList(gold);
    if Unanswerable(golds) then (if Strip(pred) == "" then 1.0 else 0.0)
    else MaxF1(golds, pred)
  }

  /** Per question, the exact credit never exceeds the F1 credit, and both lie in [0, 1]. */
  lemma CreditBounds(gold: Gold, pred: string)
    ensures 0.0 <= ExactCredit(gold, pred) <= F1Credit(gold, pred) <= 1.0
  {
    var golds := GoldList(gold);
    if !Unanswerable(golds) {
      MaxCreditsOrdered(golds, pred);
    }
  }

  /** Over a non-empty gold list, 0 <= best exact <= best F1 <= 1. */
  lemma MaxCreditsOrdered(golds: seq<string>, pred: string)
    requires golds != []
    ensures 0.0 <= MaxExact(golds, pred) <= MaxF1(golds, pred) <= 1.0
  {
    var m := MaxF1(golds, pred);
    var g :| g in golds && ComputeF1(g, pred) == m;
    if MaxExact(golds, pred) == 1.0 {
      var h :| h in golds && NormalizeAnswer(h) == NormalizeAnswer(pred);
      assert ComputeF1(h, pred) == 1.0 by {
        assert ComputeExact(h, pred) == 1;
      }
    }
  }

  /** A bare-string gold scores as the one-element list holding it. */
  lemma BareGoldIsSingleton(text: string, pred: string)
    ensures ExactCredit(Bare(text), pred) == ExactCredit(Answers([text]), pred)
    ensures F1Credit(Bare(text), pred) == F1Credit(Answers([text]), pred)
  {
  }

  /** The credit of one reference: nothing when it has no prediction. */
  function QuestionExact(predictions: map<string, string>, reference: (string, Gold)): real {
    if reference.0 in predictions then ExactCredit(reference.1, predictions[reference.0]) else 0.0
  }

  function QuestionF1(predictions: map<string, string>, reference: (string, Gold)): (r: real)
    ensures 0.0 <= r <= 1.0
  {
    if reference.0 in predictions then
      CreditBounds(reference.1, predictions[reference.0]);
      F1Credit(reference.1, predictions[reference.0])
    else 0.0
  }

  /** The `exact` accumulator after the given references. */
  function TotalExact(predictions: map<string, string>, references: seq<(string, Gold)>): (r: real)
    ensures 0.0 <= r <= |references| as real
  {
    if references == [] then 0.0
    else TotalExact(predictions, references[..|references| - 1])
         + QuestionExact(predictions, references[|references| - 1])
  }

  /** The `f1` accumulator after the given references. */
  function TotalF1(predictions: map<string, string>, references: seq<(string, Gold)>): (r: real)
    ensures 0.0 <= r <= |references| as real
  {
    if references == [] then 0.0
    else TotalF1(predictions, references[..|references| - 1])
         + QuestionF1(predictions, references[|references| - 1])
  }

  /** One more reference adds its own credit to both totals. */
  lemma TotalsStep(predictions: map<string, string>, references: seq<(string, Gold)>, i: nat)
    requires i < |references|
    ensures TotalExact(predictions, references[..i + 1]) ==
      TotalExact(predictions, references[..i]) + QuestionExact(predictions, references[i])
    ensures TotalF1(predictions, references[..i + 1]) ==
      TotalF1(predictions, references[..i]) + QuestionF1(predictions, references[i])
  {
    assert references[..i + 1][..i] == references[..i];
  }

  /** The accumulated exact credit is at most the F1 credit, which is at most
      the number of references. */
  lemma {:induction false} TotalsBounded(predictions: map<string, string>, references: seq<(string, Gold)>)
    ensures 0.0 <= TotalExact(predictions, references) <= TotalF1(predictions, references) <= |references| as real
  {
    if references != [] {
      var last := references[|references| - 1];
      TotalsBounded(predictions, references[..|references| - 1]);
      if last.0 in predictions {
        CreditBounds(last.1, predictions[last.0]);
      }
    }
  }

  /** References without a prediction add no credit. */
  lemma {:induction false} UnpredictedAddNothing(predictions: map<string, string>, references: seq<(string, Gold)>)
    requires forall k :: 0 <= k < |references| ==> references[k].0 !in predictions
    ensures TotalExact(predictions, references) == 0.0
    ensures TotalF1(predictions, references) == 0.0
  {
    if references != [] {
      var init := references[..|references| - 1];
      assert forall k :: 0 <= k < |init| ==> init[k] == references[k];
      UnpredictedAddNothing(predictions, init);
    }
  }

  /** The result of `squad_evaluate`, or the division by zero it raises on an
      empty reference set. */
  datatype Evaluation = Scores(exactMatch: real, f1: real) | DivisionByZero

  /** `squad_evaluate`: percentages of exact and F1 credit over all references;
      a reference without a prediction counts in the denominator only. */
  method SquadEvaluate(predictions: map<string, string>, references: seq<(string, Gold)>)
    returns (r: Evaluation)
    ensures r.DivisionByZero? <==> references == []
    ensures r.Scores? ==> r.exactMatch == 100.0 * TotalExact(predictions, references) / |references| as real
    ensures r.Scores? ==> r.f1 == 100.0 * TotalF1(predictions, references) / |references| as real
    ensures r.Scores? ==> 0.0 <= r.exactMatch <= r.f1 <= 100.0
  {
    var total := |references|;
    var exact, f1 := 0.0, 0.0;
    for i := 0 to total
      invariant exact == TotalExact(predictions, references[..i])
      invariant f1 == TotalF1(predictions, references[..i])
    {
      TotalsStep(predictions, references, i);
      var (qid, gold) := references[i];
      if qid !in predictions {
        continue;
      }
      var pred := predictions[qid];
      var golds := GoldList(gold);
      if golds == [] || golds == [""] {
        exact := exact + (if Strip(pred) == "" then 1.0 else 0.0);
        f1 := f1 + (if Strip(pred) == "" then 1.0 else 0.0);
      } else {
        exact := exact + MaxExact(golds, pred);
        f1 := f1 + MaxF1(golds, pred);
      }
    }
    if total == 0 {
      return DivisionByZero;
    }
    assert references[..total] == references;
    TotalsBounded(predictions, references);
    var n := total as real;
    r := Scores(100.0 * exact / n, 100.0 * f1 / n);
    Percentages(exact, f1, n);
  }

  lemma Percentages(exact: real, f1: real, n: real)
    requires 0.0 <= exact <= f1 <= n && n > 0.0
    ensures 0.0 <= 100.0 * exact / n <= 100.0 * f1 / n <= 100.0
  {
    ScaleDiv(exact, n);
    ScaleDiv(f1, n);
    DivMonotone(0.0, exact, n);
    DivMonotone(exact, f1, n);
    DivMonotone(f1, n, n);
  }

  lemma ScaleDiv(x: real, n: real)
    requires n > 0.0
    ensures 100.0 * x / n == 100.0 * (x / n)
  {
  }

  lemma DivMonotone(x: real, y: real, n: real)
    requires x <= y && n > 0.0
    ensures x / n <= y / n
  {
    assert (y / n - x / n) * n == y - x;
  }

  /** With no prediction for any reference, both scores are zero. */
  lemma UnpredictedScoresZero(predictions: map<string, string>, references: seq<(string, Gold)>)
    requires references != []
    requires forall k :: 0 <= k < |references| ==> references[k].0 !in predictions
    ensures 100.0 * TotalExact(predictions, references) / |references| as real == 0.0
    ensures 100.0 * TotalF1(predictions, references) / |references| as real == 0.0
  {
    UnpredictedAddNothing(predictions, references);
  }
}
