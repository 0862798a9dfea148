/** Reading scores out of a model response (`_extrair_notas_questoes` and
    `_extrair_nota_final` in eval.py). The regular-expression search itself
    is not modelled: the functions here start from what the searches
    matched, in the order `re.findall` / `re.search` report it. */
module Extraction {

  import opened Maybe
  import opened PyDict

  /** A number as the groups `\d+(?:\.\d+)?` capture it and `float()` reads
      it: never negative. */
  type Decimal = r: real | r >= 0.0

  /** One match of `QUESTAO_(\w+):\s*(\d+(?:\.\d+)?)/(\d+(?:\.\d+)?)`: the
      question id, the score and the maximum written by the model. */
  datatype QuestionMatch = QuestionMatch(id: string, score: Decimal, maximum: Decimal)

  /** The range check a match must pass to be kept: `0 <= nota <= maximo`. */
  predicate InRange(m: QuestionMatch) {
    0.0 <= m.score <= m.maximum
  }

  /** The dictionary the loop of `_extrair_notas_questoes` has built after
      the matches `ms`. */
  function ScoresOf(ms: seq<QuestionMatch>): Dict<real> {
    if ms == [] then []
    else
      var d := ScoresOf(ms[..|ms| - 1]);
      var m := ms[|ms| - 1];
      if InRange(m) then Put(d, m.id, m.score) else d
  }

  /** `_extrair_notas_questoes`, from the matches on. */
  method ExtractQuestionScores(ms: seq<QuestionMatch>) returns (scores: Dict<real>)
    ensures scores == ScoresOf(ms)
  {
    scores := [];
    for i := 0 to |ms|
      invariant scores == ScoresOf(ms[..i])
    {
      var m := ms[i];
      if 0.0 <= m.score <= m.maximum {
        scores := Put(scores, m.id, m.score);
      }
      assert ms[..i + 1][..i] == ms[..i];
    }
    assert ms[..|ms|] == ms;
  }

  /** The last match at or after which nothing in range carries key `k`. */
  predicate IsLastInRange(ms: seq<QuestionMatch>, k: string, i: int) {
    0 <= i < |ms| && InRange(ms[i]) && ms[i].id == k &&
    forall j :: i < j < |ms| ==> !(InRange(ms[j]) && ms[j].id == k)
  }

  /** Keys are distinct, and a question id is a key exactly when some
      match for it passed the range check. */
  lemma {:induction false} ScoresOfKeys(ms: seq<QuestionMatch>)
    ensures UniqueKeys(ScoresOf(ms))
    ensures forall k :: k in Keys(ScoresOf(ms)) <==> exists i :: 0 <= i < |ms| && InRange(ms[i]) && ms[i].id == k
  {
    if ms != [] {
      var init := ms[..|ms| - 1];
      var m := ms[|ms| - 1];
      ScoresOfKeys(init);
      if InRange(m) {
        PutGet(ScoresOf(init), m.id, m.score);
      }
      forall k ensures k in Keys(ScoresOf(ms)) <==> exists i :: 0 <= i < |ms| && InRange(ms[i]) && ms[i].id == k {
        if k in Keys(ScoresOf(ms)) && !(InRange(m) && m.id == k) {
          var i :| 0 <= i < |init| && InRange(init[i]) && init[i].id == k;
          assert ms[i] == init[i];
        }
        if exists i :: 0 <= i < |ms| && InRange(ms[i]) && ms[i].id == k {
          var i :| 0 <= i < |ms| && InRange(ms[i]) && ms[i].id == k;
          if i < |init| {
            assert init[i] == ms[i];
          }
        }
      }
    }
  }

  /** The score of a key is that of the LAST in-range match for it: a later
      match for the same id overwrites an earlier one. */
  lemma {:induction false} ScoresOfLast(ms: seq<QuestionMatch>)
    ensures forall k :: k in Keys(ScoresOf(ms)) ==>
              exists i :: IsLastInRange(ms, k, i) && Get(ScoresOf(ms), k) == ms[i].score
  {
    if ms != [] {
      var init := ms[..|ms| - 1];
      var m := ms[|ms| - 1];
      ScoresOfLast(init);
      ScoresOfKeys(init);
      var d := ScoresOf(init);
      var r := ScoresOf(ms);
      if InRange(m) {
        PutGet(d, m.id, m.score);
        PutOthers(d, m.id, m.score);
        assert IsLastInRange(ms, m.id, |ms| - 1);
        forall k | k in Keys(r) && k != m.id
          ensures exists i :: IsLastInRange(ms, k, i) && Get(r, k) == ms[i].score
        {
          var i :| IsLastInRange(init, k, i) && Get(d, k) == init[i].score;
          LastInRangeExtend(ms, k, i);
        }
      } else {
        forall k | k in Keys(r)
          ensures exists i :: IsLastInRange(ms, k, i) && Get(r, k) == ms[i].score
        {
          var i :| IsLastInRange(init, k, i) && Get(d, k) == init[i].score;
          LastInRangeExtend(ms, k, i);
        }
      }
    }
  }

  /** A last in-range match stays the last one when a match that does not
      count for its key is appended. */
  lemma LastInRangeExtend(ms: seq<QuestionMatch>, k: string, i: int)
    requires ms != [] && IsLastInRange(ms[..|ms| - 1], k, i)
    requires !(InRange(ms[|ms| - 1]) && ms[|ms| - 1].id == k)
    ensures IsLastInRange(ms, k, i)
  {
    var init := ms[..|ms| - 1];
    assert ms[i] == init[i];
    forall j | i < j < |ms| ensures !(InRange(ms[j]) && ms[j].id == k) {
      if j < |init| {
        assert ms[j] == init[j];
      }
    }
  }

  /** Every kept score is a non-negative number. */
  lemma {:induction false} ScoresOfNonNegative(ms: seq<QuestionMatch>)
    ensures NonNegativeValues(ScoresOf(ms))
  {
    if ms != [] {
      var m := ms[|ms| - 1];
      ScoresOfNonNegative(ms[..|ms| - 1]);
      if InRange(m) {
        PutNonNegative(ScoresOf(ms[..|ms| - 1]), m.id, m.score);
      }
    }
  }

  /** A question id is in the result exactly when some match for it passed
      the range check, and its score is that of the LAST such match; keys
      are distinct and every score is non-negative. */
  lemma ScoresOfSpec(ms: seq<QuestionMatch>)
    ensures UniqueKeys(ScoresOf(ms))
    ensures forall k :: k in Keys(ScoresOf(ms)) <==> exists i :: 0 <= i < |ms| && InRange(ms[i]) && ms[i].id == k
    ensures forall k :: k in Keys(ScoresOf(ms)) ==>
              exists i :: IsLastInRange(ms, k, i) && Get(ScoresOf(ms), k) == ms[i].score
    ensures NonNegativeValues(ScoresOf(ms))
  {
    ScoresOfKeys(ms);
    ScoresOfLast(ms);
    ScoresOfNonNegative(ms);
  }

  /** `_extrair_nota_final`: `hits[p]` is what the search for the `p`-th
      pattern ("NOTA FINAL", "Total", "Pontuação", in that order) captured;
      the first pattern that matched gives the number, none gives 0. */
  function FallbackTotal(hits: seq<Option<Decimal>>): (r: Decimal)
    ensures (forall p :: 0 <= p < |hits| ==> hits[p].None?) ==> r == 0.0
    ensures forall p :: 0 <= p < |hits| && hits[p].Some? && (forall q :: 0 <= q < p ==> hits[q].None?) ==>
              r == hits[p].value
  {
    if hits == [] then 0.0
    else if hits[0].Some? then hits[0].value
    else FallbackTotal(hits[1..])
  }

  /** `sum(notas_q.values()) or self._extrair_nota_final(resposta)`. */
  function JobTotal(ms: seq<QuestionMatch>, hits: seq<Option<Decimal>>): real {
    var s := SumValues(ScoresOf(ms));
    if s != 0.0 then s else FallbackTotal(hits)
  }

  /** A recorded total is never negative; it is the fallback exactly when
      every kept score is 0 (in particular when none was kept), and the
      per-question sum otherwise. */
  lemma JobTotalSpec(ms: seq<QuestionMatch>, hits: seq<Option<Decimal>>)
    ensures JobTotal(ms, hits) >= 0.0
    ensures (forall i :: 0 <= i < |ScoresOf(ms)| ==> ScoresOf(ms)[i].1 == 0.0) ==>
              JobTotal(ms, hits) == FallbackTotal(hits)
    ensures (exists i :: 0 <= i < |ScoresOf(ms)| && ScoresOf(ms)[i].1 != 0.0) ==>
              JobTotal(ms, hits) == SumValues(ScoresOf(ms)) && JobTotal(ms, hits) > 0.0
  {
    ScoresOfSpec(ms);
    SumOfNonNegative(ScoresOf(ms));
  }

  /** Two matches for Q1, the second out of range, and one for Q2 scored 0:
      Q1 keeps the first score and the total is the per-question sum. */
  lemma ExtractionScenario()
    ensures var ms := [QuestionMatch("1", 2.5, 3.0), QuestionMatch("2", 0.0, 2.0), QuestionMatch("1", 4.0, 3.0)];
            ScoresOf(ms) == [("1", 2.5), ("2", 0.0)] && JobTotal(ms, [None, Some(9.0)]) == 2.5
  {
    var ms := [QuestionMatch("1", 2.5, 3.0), QuestionMatch("2", 0.0, 2.0), QuestionMatch("1", 4.0, 3.0)];
    assert ms[..2][..1] == [ms[0]] && [ms[0]][..0] == [];
    assert ScoresOf([ms[0]]) == [("1", 2.5)];
    assert Keys([("1", 2.5)]) == ["1"];
    assert ScoresOf(ms[..2]) == [("1", 2.5), ("2", 0.0)];
    var d: Dict<real> := [("1", 2.5), ("2", 0.0)];
    assert d[1..] == [("2", 0.0)];
    assert SumValues(d) == 2.5;
  }
}
