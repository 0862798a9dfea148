/** The records a grading run accumulates for one student and the rule that
    reduces them to one final result (`GerenciadorAvaliacao.
    _consolidar_resultados_finais` in eval.py), together with the
    normalisation of the configured selection criterion. */
module Grading {

  import opened Maybe
  import opened Text
  import opened PyDict

  /** One entry of `historico_avaliacoes`: the total (`nota_final`), the raw
      model response (`feedback`), the per-question scores
      (`notas_questoes`), the round that produced it (`tentativa_num`) and
      the prompt sent, a key a record may lack (`prompt`). */
  datatype Attempt = Attempt(
    total: real,
    feedback: string,
    questionScores: Dict<real>,
    round: int,
    prompt: Option<string>)

  /** `selection_criteria`: "highest", "lowest" or "average". */
  datatype Policy = Highest | Lowest | Average

  function PolicyName(p: Policy): string {
    match p
    case Highest => "highest"
    case Lowest => "lowest"
    case Average => "average"
  }

  /** `assessment.get('selection_criteria', 'highest').lower()`, with every
      value that is not one of the three names replaced by "highest". */
  function NormalizePolicy(configured: Option<string>): (p: Policy)
    ensures p == Lowest <==> Lower(configured.GetOr("highest")) == "lowest"
    ensures p == Average <==> Lower(configured.GetOr("highest")) == "average"
    ensures p == Highest <==> Lower(configured.GetOr("highest")) !in {"lowest", "average"}
  {
    var v := Lower(configured.GetOr("highest"));
    if v == "lowest" then Lowest
    else if v == "average" then Average
    else Highest
  }

  /** Each policy's own name normalises to it, in any letter case, and an
      absent key means "highest". */
  lemma NormalizePolicyNames(p: Policy, spelled: string)
    requires Lower(spelled) == PolicyName(p)
    ensures NormalizePolicy(Some(spelled)) == p
    ensures NormalizePolicy(None) == Highest
  {
    assert Lower("highest") == "highest";
  }

  /** `submissao.status`: "pendente", "concluido", "erro_sem_feedback". */
  datatype Status = Pending | Completed | NoFeedback

  /** The fixed feedback of a student for whom no round succeeded. */
  const NoFeedbackMessage: string := "Nenhuma avaliação bem-sucedida foi recebida da LLM."

  /** The five fields consolidation writes. */
  datatype Outcome = Outcome(
    status: Status,
    grade: real,
    feedback: string,
    questionScores: Dict<real>,
    prompt: string)

  function Totals(h: seq<Attempt>): (ts: seq<real>)
    ensures |ts| == |h| && forall i :: 0 <= i < |h| ==> ts[i] == h[i].total
  {
    seq(|h|, i requires 0 <= i < |h| => h[i].total)
  }

  function Abs(x: real): real {
    if x < 0.0 then -x else x
  }

  /** `xs[k]` is a largest element and no earlier element equals it. */
  predicate IsFirstMax(xs: seq<real>, k: int) {
    0 <= k < |xs| &&
    (forall j :: 0 <= j < |xs| ==> xs[j] <= xs[k]) &&
    (forall j :: 0 <= j < k ==> xs[j] < xs[k])
  }

  /** `xs[k]` is a smallest element and no earlier element equals it. */
  predicate IsFirstMin(xs: seq<real>, k: int) {
    0 <= k < |xs| &&
    (forall j :: 0 <= j < |xs| ==> xs[k] <= xs[j]) &&
    (forall j :: 0 <= j < k ==> xs[k] < xs[j])
  }

  /** The position Python's `max` picks: it scans left to right and replaces
      its candidate only by a strictly larger element. */
  function FirstMaxIndex(xs: seq<real>): (k: nat)
    requires xs != []
    ensures IsFirstMax(xs, k)
  {
    if |xs| == 1 then 0
    else
      var b := FirstMaxIndex(xs[..|xs| - 1]);
      if xs[|xs| - 1] > xs[b] then |xs| - 1 else b
  }

  /** The position Python's `min` picks. */
  function FirstMinIndex(xs: seq<real>): (k: nat)
    requires xs != []
    ensures IsFirstMin(xs, k)
  {
    if |xs| == 1 then 0
    else
      var b := FirstMinIndex(xs[..|xs| - 1]);
      if xs[|xs| - 1] < xs[b] then |xs| - 1 else b
  }

  function Sum(xs: seq<real>): real {
    if xs == [] then 0.0 else Sum(xs[..|xs| - 1]) + xs[|xs| - 1]
  }

  /** `sum(notas) / len(notas)`. */
  function Mean(xs: seq<real>): real
    requires xs != []
  {
    Sum(xs) / (|xs| as real)
  }

  /** The sum of `n` values lies between `n` times the least and `n` times
      the largest of them. */
  lemma {:induction false} SumBounds(xs: seq<real>, lo: real, hi: real)
    requires forall i :: 0 <= i < |xs| ==> lo <= xs[i] <= hi
    ensures (|xs| as real) * lo <= Sum(xs) <= (|xs| as real) * hi
  {
    if xs != [] {
      SumBounds(xs[..|xs| - 1], lo, hi);
    }
  }

  lemma QuotientBounds(s: real, n: real, lo: real, hi: real)
    requires n > 0.0 && n * lo <= s <= n * hi
    ensures lo <= s / n <= hi
  {
    assert s / n * n == s;
  }

  /** The mean lies between the minimum and the maximum. */
  lemma MeanBounds(xs: seq<real>)
    requires xs != []
    ensures xs[FirstMinIndex(xs)] <= Mean(xs) <= xs[FirstMaxIndex(xs)]
  {
    var n := |xs| as real;
    SumBounds(xs, xs[FirstMinIndex(xs)], xs[FirstMaxIndex(xs)]);
    QuotientBounds(Sum(xs), n, xs[FirstMinIndex(xs)], xs[FirstMaxIndex(xs)]);
  }

  /** The record consolidation takes feedback, per-question scores and
      prompt from: the first when at most one round was configured, else the
      first with the highest total, the first with the lowest total, or the
      first whose total is nearest the mean. */
  function SelectedIndex(h: seq<Attempt>, attempts: int, policy: Policy): (k: nat)
    requires h != []
    ensures k < |h|
    ensures attempts <= 1 ==> k == 0
    ensures attempts > 1 && policy == Highest ==> IsFirstMax(Totals(h), k)
    ensures attempts > 1 && policy == Lowest ==> IsFirstMin(Totals(h), k)
    ensures attempts > 1 && policy == Average ==>
              var m := Mean(Totals(h));
              IsFirstMin(seq(|h|, i requires 0 <= i < |h| => Abs(h[i].total - m)), k)
  {
    if attempts <= 1 then 0
    else
      match policy
      case Highest => FirstMaxIndex(Totals(h))
      case Lowest => FirstMinIndex(Totals(h))
      case Average =>
        var m := Mean(Totals(h));
        FirstMinIndex(seq(|h|, i requires 0 <= i < |h| => Abs(h[i].total - m)))
  }

  /** The final grade: the mean of all totals under "average" with more
      than one configured round, otherwise the selected record's total. */
  function FinalGrade(h: seq<Attempt>, attempts: int, policy: Policy): real
    requires h != []
  {
    if attempts > 1 && policy == Average then Mean(Totals(h))
    else h[SelectedIndex(h, attempts, policy)].total
  }

  /** What `_consolidar_resultados_finais` leaves in one submission whose
      fields were `current` and whose history is `h`: for a non-empty
      history, feedback, scores and prompt come from the record
      `SelectedIndex` picks. */
  function Consolidated(h: seq<Attempt>, attempts: int, policy: Policy, current: Outcome): (r: Outcome)
    ensures h == [] ==>
              r.status == NoFeedback && r.grade == 0.0 && r.feedback == NoFeedbackMessage &&
              r.questionScores == current.questionScores && r.prompt == current.prompt
    ensures h != [] ==>
              var k := SelectedIndex(h, attempts, policy);
              r.status == Completed &&
              r.feedback == h[k].feedback &&
              r.questionScores == h[k].questionScores &&
              r.prompt == h[k].prompt.GetOr("") &&
              (attempts <= 1 || policy != Average ==> r.grade == h[k].total) &&
              (attempts > 1 && policy == Average ==> r.grade == Mean(Totals(h)))
  {
    if h == [] then
      current.(status := NoFeedback, feedback := NoFeedbackMessage, grade := 0.0)
    else
      var t := h[SelectedIndex(h, attempts, policy)];
      Outcome(Completed, FinalGrade(h, attempts, policy), t.feedback, t.questionScores, t.prompt.GetOr(""))
  }

  /** Whatever the policy, the final grade lies between the smallest and
      the largest total in the history; so it is non-negative when every
      total is. */
  lemma {:induction false} GradeWithinHistory(h: seq<Attempt>, attempts: int, policy: Policy, current: Outcome)
    requires h != []
    ensures var g := Consolidated(h, attempts, policy, current).grade;
            var ts := Totals(h);
            ts[FirstMinIndex(ts)] <= g <= ts[FirstMaxIndex(ts)] &&
            ((forall i :: 0 <= i < |h| ==> h[i].total >= 0.0) ==> g >= 0.0)
  {
    var ts := Totals(h);
    if attempts > 1 && policy == Average {
      MeanBounds(ts);
    } else {
      var k := SelectedIndex(h, attempts, policy);
      assert ts[k] == h[k].total;
    }
    assert ts[FirstMinIndex(ts)] == h[FirstMinIndex(ts)].total;
  }

  /** The selected record under "highest"/"lowest" carries the largest /
      smallest total, and the grade is that total. */
  lemma ExtremePolicies(h: seq<Attempt>, attempts: int, current: Outcome)
    requires h != [] && attempts > 1
    ensures forall i :: 0 <= i < |h| ==> h[i].total <= Consolidated(h, attempts, Highest, current).grade
    ensures forall i :: 0 <= i < |h| ==> Consolidated(h, attempts, Lowest, current).grade <= h[i].total
  {
    var ts := Totals(h);
    assert forall i :: 0 <= i < |h| ==> ts[i] == h[i].total;
  }

  /** Under "average" the grade is the exact mean of the recorded totals. */
  lemma AveragePolicy(h: seq<Attempt>, attempts: int, current: Outcome)
    requires h != [] && attempts > 1
    ensures Consolidated(h, attempts, Average, current).grade * (|h| as real) == Sum(Totals(h))
  {
    var ts := Totals(h);
    assert FinalGrade(h, attempts, Average) == Mean(ts);
    assert Consolidated(h, attempts, Average, current).grade == FinalGrade(h, attempts, Average);
    QuotientTimesDivisor(Sum(ts), |ts| as real);
  }

  lemma QuotientTimesDivisor(s: real, n: real)
    requires n > 0.0
    ensures s / n * n == s
  {
  }

  function Sample(total: real, feedback: string, round: int): Attempt {
    Attempt(total, feedback, [], round, Some("prompt"))
  }

  /** Three rounds scored 70, 85 and 40 under "highest": the grade is 85 and
      the feedback is the second round's. */
  lemma HighestScenario(current: Outcome)
    ensures var h := [Sample(70.0, "a", 1), Sample(85.0, "b", 2), Sample(40.0, "c", 3)];
            var r := Consolidated(h, 3, Highest, current);
            r.grade == 85.0 && r.feedback == h[1].feedback && r.status == Completed
  {
    var h := [Sample(70.0, "a", 1), Sample(85.0, "b", 2), Sample(40.0, "c", 3)];
    assert Totals(h) == [70.0, 85.0, 40.0];
    assert Totals(h)[..2] == [70.0, 85.0];
    assert [70.0, 85.0][..1] == [70.0];
  }

  /** Three rounds scored 60, 70 and 80 under "average": the grade is 70
      and the displayed record is the second round's, which equals it. */
  lemma AverageScenario(current: Outcome)
    ensures var h := [Sample(60.0, "a", 1), Sample(70.0, "b", 2), Sample(80.0, "c", 3)];
            var r := Consolidated(h, 3, Average, current);
            r.grade == 70.0 && r.feedback == h[1].feedback
  {
    var h := [Sample(60.0, "a", 1), Sample(70.0, "b", 2), Sample(80.0, "c", 3)];
    var ts := [60.0, 70.0, 80.0];
    assert Totals(h) == ts;
    assert ts[..2] == [60.0, 70.0] && ts[..2][..1] == [60.0] && [60.0][..0] == [];
    assert Sum(ts) == 210.0;
    assert Mean(ts) == 70.0;
    var m := Mean(Totals(h));
    var ds := seq(|h|, i requires 0 <= i < |h| => Abs(h[i].total - m));
    assert ds == [10.0, 0.0, 10.0];
    assert ds[..2] == [10.0, 0.0] && ds[..2][..1] == [10.0];
    assert FirstMinIndex(ds[..2]) == 1;
    assert FirstMinIndex(ds) == 1;
    assert SelectedIndex(h, 3, Average) == 1;
    assert FinalGrade(h, 3, Average) == 70.0;
  }
}
