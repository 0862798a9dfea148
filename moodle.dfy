/** Reading the automatic grader's `execution.txt` of one student
    (`extrair_notas_moodle` in eval.py) and converting its percentages to
    points (`_converter_percentuais_para_pontos`). The three regular
    expressions are not modelled: each line arrives with what each of them
    found in it. */
module Moodle {

  import opened Maybe
  import opened PyDict
  import opened Extraction

  /** One stripped line of the file: the digits of `- Question N:`, the
      number of `(p%)` and the number of `Grade :=>> g`, where present. */
  datatype Line = Line(question: Option<string>, percent: Option<Decimal>, grade: Option<Decimal>)

  /** The loop's variables: `notas_percentuais`, `questao_atual` and
      `nota_final`. */
  datatype ParseState = ParseState(percents: Dict<real>, current: Option<string>, final: Option<Decimal>)

  const Start: ParseState := ParseState([], None, None)

  /** One turn of the loop. A question header names the current question
      and skips the rest; otherwise a percentage is recorded for a pending
      question (which it then clears) and a grade line overwrites the grade
      seen so far. */
  function Step(st: ParseState, l: Line): ParseState {
    if l.question.Some? then st.(current := Some("Q" + l.question.value))
    else
      var st' :=
        if st.current.Some? && l.percent.Some? then
          st.(percents := Put(st.percents, st.current.value, l.percent.value), current := None)
        else st;
      if l.grade.Some? then st'.(final := l.grade) else st'
  }

  /** The state after the lines `ls`. */
  function Scan(ls: seq<Line>): ParseState {
    if ls == [] then Start else Step(Scan(ls[..|ls| - 1]), ls[|ls| - 1])
  }

  /** The loop of `extrair_notas_moodle`. */
  method ScanLines(ls: seq<Line>) returns (percents: Dict<real>, current: Option<string>, final: Option<Decimal>)
    ensures ParseState(percents, current, final) == Scan(ls)
  {
    percents, current, final := [], None, None;
    for i := 0 to |ls|
      invariant ParseState(percents, current, final) == Scan(ls[..i])
    {
      var l := ls[i];
      assert ls[..i + 1][..i] == ls[..i];
      if l.question.Some? {
        current := Some("Q" + l.question.value);
        continue;
      }
      if current.Some? {
        if l.percent.Some? {
          percents := Put(percents, current.value, l.percent.value);
          current := None;
        }
      }
      if l.grade.Some? {
        final := l.grade;
      }
    }
    assert ls[..|ls|] == ls;
  }

  /** A question header sets the current question to `"Q" + N` and changes
      nothing else. */
  lemma HeaderStep(st: ParseState, l: Line)
    requires l.question.Some?
    ensures Step(st, l) == ParseState(st.percents, Some("Q" + l.question.value), st.final)
  {
  }

  /** A percentage is recorded only for a pending question, under that
      question's id, and the question stops being pending; with no pending
      question it is ignored. */
  lemma PercentStep(st: ParseState, l: Line)
    requires l.question.None? && l.percent.Some?
    ensures st.current.Some? ==>
              Step(st, l).percents == Put(st.percents, st.current.value, l.percent.value) && Step(st, l).current.None?
    ensures st.current.None? ==> Step(st, l).percents == st.percents && Step(st, l).current.None?
  {
  }

  /** A grade line not also a question header. */
  predicate GradeLine(l: Line) {
    l.question.None? && l.grade.Some?
  }

  /** Line `i` is the last grade line of `ls`. */
  predicate IsLastGrade(ls: seq<Line>, i: int) {
    0 <= i < |ls| && GradeLine(ls[i]) && forall j :: i < j < |ls| ==> !GradeLine(ls[j])
  }

  /** There is no grade exactly when no line is a grade line. */
  lemma {:induction false} ScanFinalNone(ls: seq<Line>)
    ensures Scan(ls).final.None? <==> forall i :: 0 <= i < |ls| ==> !GradeLine(ls[i])
  {
    if ls != [] {
      var init := ls[..|ls| - 1];
      ScanFinalNone(init);
      assert Scan(ls) == Step(Scan(init), ls[|ls| - 1]);
      assert forall i :: 0 <= i < |init| ==> init[i] == ls[i];
    }
  }

  /** The grade kept is that of the last grade line. */
  lemma {:induction false} ScanFinalLast(ls: seq<Line>)
    ensures Scan(ls).final.Some? ==> exists i :: IsLastGrade(ls, i) && ls[i].grade == Scan(ls).final
  {
    if ls != [] {
      var init := ls[..|ls| - 1];
      var l := ls[|ls| - 1];
      ScanFinalLast(init);
      var st := Scan(init);
      assert Scan(ls) == Step(st, l);
      if GradeLine(l) {
        assert IsLastGrade(ls, |ls| - 1);
      } else if st.final.Some? {
        assert Scan(ls).final == st.final;
        var i :| IsLastGrade(init, i) && init[i].grade == st.final;
        assert forall j :: i < j < |init| ==> init[j] == ls[j];
        assert IsLastGrade(ls, i);
      }
    }
  }

  /** The grade kept is that of the LAST grade line that is not also a
      question header, and there is none exactly when no such line exists. */
  lemma ScanFinal(ls: seq<Line>)
    ensures Scan(ls).final.None? <==> forall i :: 0 <= i < |ls| ==> !GradeLine(ls[i])
    ensures Scan(ls).final.Some? ==> exists i :: IsLastGrade(ls, i) && ls[i].grade == Scan(ls).final
  {
    ScanFinalNone(ls);
    ScanFinalLast(ls);
  }

  /** Every recorded id is a question id `"Q" + N`, and ids stay distinct. */
  lemma {:induction false} ScanKeys(ls: seq<Line>)
    ensures UniqueKeys(Scan(ls).percents)
    ensures forall k :: k in Keys(Scan(ls).percents) ==> |k| >= 1 && k[0] == 'Q'
    ensures Scan(ls).current.Some? ==> |Scan(ls).current.value| >= 1 && Scan(ls).current.value[0] == 'Q'
  {
    if ls != [] {
      var init := ls[..|ls| - 1];
      var l := ls[|ls| - 1];
      ScanKeys(init);
      var st := Scan(init);
      assert Scan(ls) == Step(st, l);
      if l.question.Some? {
        assert Scan(ls).percents == st.percents;
        assert Scan(ls).current == Some("Q" + l.question.value);
      } else if st.current.Some? && l.percent.Some? {
        PutGet(st.percents, st.current.value, l.percent.value);
        assert Scan(ls).percents == Put(st.percents, st.current.value, l.percent.value);
        assert Scan(ls).current == None;
      } else {
        assert Scan(ls).percents == st.percents;
        assert Scan(ls).current == st.current;
      }
    }
  }

  /** `{q['id']: q['max_points'] for q in questions}`: a later question with
      the same id overwrites an earlier one. */
  function Weights(questions: seq<(string, real)>): Dict<real> {
    if questions == [] then []
    else
      var q := questions[|questions| - 1];
      Put(Weights(questions[..|questions| - 1]), q.0, q.1)
  }

  /** `(percentual / 100.0) * peso`, exact. */
  function ToPoints(percent: real, weight: real): real {
    percent / 100.0 * weight
  }

  /** The points dictionary the loop has built after the percentages `ps`. */
  function PointsOf(ps: Dict<real>, weights: Dict<real>): Dict<real> {
    if ps == [] then []
    else
      var d := PointsOf(ps[..|ps| - 1], weights);
      var id := ps[|ps| - 1].0;
      if id in Keys(weights) then Put(d, id, ToPoints(ps[|ps| - 1].1, Get(weights, id))) else d
  }

  /** `_converter_percentuais_para_pontos`, without the rounding. */
  method ConvertToPoints(ps: Dict<real>, questions: seq<(string, real)>) returns (points: Dict<real>)
    ensures points == PointsOf(ps, Weights(questions))
  {
    var weights := Weights(questions);
    points := [];
    for i := 0 to |ps|
      invariant points == PointsOf(ps[..i], weights)
    {
      var id, pct := ps[i].0, ps[i].1;
      assert ps[..i + 1][..i] == ps[..i] && ps[..i + 1][i] == ps[i];
      if id in Keys(weights) {
        points := Put(points, id, ToPoints(pct, Get(weights, id)));
      }
    }
    assert ps[..|ps|] == ps;
  }

  /** The ids of a weights dictionary are the configured ids. */
  lemma {:induction false} WeightsKeys(questions: seq<(string, real)>)
    ensures UniqueKeys(Weights(questions))
    ensures forall k :: k in Keys(Weights(questions)) <==> exists i :: 0 <= i < |questions| && questions[i].0 == k
  {
    if questions != [] {
      var init := questions[..|questions| - 1];
      WeightsKeys(init);
      PutGet(Weights(init), questions[|questions| - 1].0, questions[|questions| - 1].1);
      assert forall i :: 0 <= i < |init| ==> init[i] == questions[i];
    }
  }

  /** A point entry exists exactly for the percentages whose id has a
      weight, in the order of the percentages, and it is the percentage of
      that weight. */
  lemma {:induction false} PointsOfSpec(ps: Dict<real>, weights: Dict<real>)
    requires UniqueKeys(ps)
    ensures UniqueKeys(PointsOf(ps, weights))
    ensures forall k :: k in Keys(PointsOf(ps, weights)) <==> k in Keys(ps) && k in Keys(weights)
    ensures forall k :: k in Keys(PointsOf(ps, weights)) ==>
              Get(PointsOf(ps, weights), k) == ToPoints(Get(ps, k), Get(weights, k))
  {
    if ps != [] {
      var init := ps[..|ps| - 1];
      var (id, pct) := ps[|ps| - 1];
      assert UniqueKeys(init);
      PointsOfSpec(init, weights);
      LastPair(ps);
      var d := PointsOf(init, weights);
      if id in Keys(weights) {
        PutGet(d, id, ToPoints(pct, Get(weights, id)));
      }
    }
  }

  /** Splitting off the last pair of a dictionary with distinct keys. */
  lemma LastPair(ps: Dict<real>)
    requires UniqueKeys(ps) && ps != []
    ensures var init, id := ps[..|ps| - 1], ps[|ps| - 1].0;
            && Keys(ps) == Keys(init) + [id]
            && id !in Keys(init)
            && (forall k :: k in Keys(init) ==> Get(ps, k) == Get(init, k))
            && Get(ps, id) == ps[|ps| - 1].1
  {
    var init, id := ps[..|ps| - 1], ps[|ps| - 1].0;
    assert Keys(ps) == Keys(init) + [id];
    forall k | k in Keys(init) ensures Get(ps, k) == Get(init, k) {
      assert IndexOf(ps, k) == IndexOf(init, k);
    }
    assert IndexOf(ps, id) == |ps| - 1;
  }

  /** What `extrair_notas_moodle` returns: `None` lines stand for a file
      that is missing or cannot be read, which give two empty
      dictionaries. */
  function MoodleScores(file: Option<seq<Line>>, questions: seq<(string, real)>): (Dict<real>, Dict<real>) {
    match file
    case None => ([], [])
    case Some(ls) =>
      var st := Scan(ls);
      var points := PointsOf(st.percents, Weights(questions));
      if st.final.Some? then (Put(st.percents, "Final", st.final.value), Put(points, "Final", st.final.value))
      else (st.percents, points)
  }

  /** `extrair_notas_moodle` from the file's lines on. */
  method ExtractMoodle(file: Option<seq<Line>>, questions: seq<(string, real)>) returns (percents: Dict<real>, points: Dict<real>)
    ensures (percents, points) == MoodleScores(file, questions)
  {
    if file.None? {
      return [], [];
    }
    var current, final;
    percents, current, final := ScanLines(file.value);
    points := ConvertToPoints(percents, questions);
    if final.Some? {
      percents := Put(percents, "Final", final.value);
      points := Put(points, "Final", final.value);
    }
  }

  /** `'Final'` is in both dictionaries exactly when the file has a grade
      line, with that line's grade. */
  lemma MoodleFinal(ls: seq<Line>, questions: seq<(string, real)>)
    ensures var (percents, points) := MoodleScores(Some(ls), questions);
            var st := Scan(ls);
            && ("Final" in Keys(percents) <==> st.final.Some?)
            && ("Final" in Keys(points) <==> st.final.Some?)
            && (st.final.Some? ==> Get(percents, "Final") == st.final.value && Get(points, "Final") == st.final.value)
  {
    var st := Scan(ls);
    ScanKeys(ls);
    var points := PointsOf(st.percents, Weights(questions));
    PointsOfSpec(st.percents, Weights(questions));
    assert "Final" !in Keys(st.percents);
    assert "Final" !in Keys(points);
    if st.final.Some? {
      PutGet(st.percents, "Final", st.final.value);
      PutGet(points, "Final", st.final.value);
    }
  }

  /** The converted points hold only configured ids that have a
      percentage, each the converted percentage of the same id. */
  lemma PointsConfigured(ps: Dict<real>, questions: seq<(string, real)>)
    requires UniqueKeys(ps)
    ensures var points := PointsOf(ps, Weights(questions));
            forall k :: k in Keys(points) ==>
              k in Keys(ps) && k in Keys(Weights(questions)) &&
              (exists i :: 0 <= i < |questions| && questions[i].0 == k) &&
              Get(points, k) == ToPoints(Get(ps, k), Get(Weights(questions), k))
  {
    WeightsKeys(questions);
    PointsOfSpec(ps, Weights(questions));
  }

  /** Besides `'Final'`, the points hold only configured ids that have a
      percentage, each the converted percentage of the same id. */
  lemma MoodlePoints(ls: seq<Line>, questions: seq<(string, real)>)
    ensures var points := MoodleScores(Some(ls), questions).1;
            var st := Scan(ls);
            forall k :: k in Keys(points) && k != "Final" ==>
              k in Keys(st.percents) && k in Keys(Weights(questions)) &&
              (exists i :: 0 <= i < |questions| && questions[i].0 == k) &&
              Get(points, k) == ToPoints(Get(st.percents, k), Get(Weights(questions), k))
  {
    var st := Scan(ls);
    ScanKeys(ls);
    PointsConfigured(st.percents, questions);
    var points := PointsOf(st.percents, Weights(questions));
    if st.final.Some? {
      PointsOfSpec(st.percents, Weights(questions));
      PutOthers(points, "Final", st.final.value);
    }
  }

  /** `'Final'` is in both dictionaries exactly when the file has a grade
      line, with that line's grade; the points hold only configured ids
      besides it, each the converted percentage of the same id. */
  lemma MoodleScoresSpec(file: Option<seq<Line>>, questions: seq<(string, real)>)
    ensures file.None? ==> MoodleScores(file, questions) == ([], [])
    ensures file.Some? ==>
              var (percents, points) := MoodleScores(file, questions);
              var st := Scan(file.value);
              && ("Final" in Keys(percents) <==> st.final.Some?)
              && ("Final" in Keys(points) <==> st.final.Some?)
              && (st.final.Some? ==> Get(percents, "Final") == st.final.value && Get(points, "Final") == st.final.value)
              && (forall k :: k in Keys(points) && k != "Final" ==>
                    k in Keys(st.percents) && k in Keys(Weights(questions)) &&
                    (exists i :: 0 <= i < |questions| && questions[i].0 == k) &&
                    Get(points, k) == ToPoints(Get(st.percents, k), Get(Weights(questions), k)))
  {
    if file.Some? {
      MoodleFinal(file.value, questions);
      MoodlePoints(file.value, questions);
    }
  }

  /** A question with a percent line, a grade line, a percent line without
      a pending question, and a second grade line: Q1 is 80 %, the later
      grade wins, and Q1's points come from its configured weight. */
  lemma MoodleScenario()
    ensures MoodleScores(Some(ScenarioLines()), [("Q1", 2.0), ("Q2", 3.0)]) ==
              ([("Q1", 80.0), ("Final", 7.5)], [("Q1", 1.6), ("Final", 7.5)])
  {
    ScenarioScan();
    ScenarioPoints();
    var ps: Dict<real> := [("Q1", 80.0)];
    var pts: Dict<real> := [("Q1", 1.6)];
    assert Keys(ps) == ["Q1"] && Keys(pts) == ["Q1"];
    assert Put(ps, "Final", 7.5) == [("Q1", 80.0), ("Final", 7.5)];
    assert Put(pts, "Final", 7.5) == [("Q1", 1.6), ("Final", 7.5)];
  }

  lemma ScenarioPoints()
    ensures PointsOf([("Q1", 80.0)], Weights([("Q1", 2.0), ("Q2", 3.0)])) == [("Q1", 1.6)]
  {
    ScenarioWeights();
    var ps: Dict<real> := [("Q1", 80.0)];
    var w: Dict<real> := [("Q1", 2.0), ("Q2", 3.0)];
    assert ps[..0] == [];
    assert Keys(w) == ["Q1", "Q2"];
    assert Get(w, "Q1") == 2.0;
    assert ToPoints(80.0, 2.0) == 1.6;
  }

  function ScenarioLines(): seq<Line> {
    [Line(Some("1"), None, None), Line(None, Some(80.0), None), Line(None, None, Some(5.0)),
     Line(None, Some(30.0), None), Line(None, None, Some(7.5))]
  }

  lemma ScenarioScan()
    ensures Scan(ScenarioLines()) == ParseState([("Q1", 80.0)], None, Some(7.5))
  {
    var ls := ScenarioLines();
    var a0: seq<Line> := [];
    var a1 := a0 + [ls[0]];
    var a2 := a1 + [ls[1]];
    var a3 := a2 + [ls[2]];
    var a4 := a3 + [ls[3]];
    var a5 := a4 + [ls[4]];
    assert a5 == ls;
    ScanSnoc(a0, ls[0]);
    assert "Q" + "1" == "Q1";
    var s1 := ParseState([], Some("Q1"), None);
    assert Scan(a1) == s1;
    ScanSnoc(a1, ls[1]);
    var s2 := ParseState([("Q1", 80.0)], None, None);
    assert Scan(a2) == s2;
    ScanSnoc(a2, ls[2]);
    var s3 := ParseState([("Q1", 80.0)], None, Some(5.0));
    assert Scan(a3) == s3;
    ScanSnoc(a3, ls[3]);
    assert Scan(a4) == s3;
    ScanSnoc(a4, ls[4]);
  }

  lemma ScanSnoc(ls: seq<Line>, l: Line)
    ensures Scan(ls + [l]) == Step(Scan(ls), l)
  {
    assert (ls + [l])[..|ls|] == ls;
  }

  lemma ScenarioWeights()
    ensures Weights([("Q1", 2.0), ("Q2", 3.0)]) == [("Q1", 2.0), ("Q2", 3.0)]
  {
    var qs: seq<(string, real)> := [("Q1", 2.0), ("Q2", 3.0)];
    assert qs[..1] == [qs[0]] && qs[..1][..0] == [];
    assert Keys([("Q1", 2.0)]) == ["Q1"];
  }
}
