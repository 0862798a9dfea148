/** The grading orchestrator (`SubmissaoAluno` and `GerenciadorAvaliacao`
    in eval.py): discovering the students' folders, running one grading job
    per student and round, the round loop, and the consolidation of each
    student's history into one final result. The completion API, the prompt
    template and the regular-expression scans are parameters: a `World`
    says what each of them yields. */
module Evaluator {

  import opened Maybe
  import opened PyDict
  import opened Text
  import opened Extraction
  import opened Grading
  import opened Transport
  import opened Pacing
  import opened Moodle
  import opened History

  /** What the three score searches of eval.py find in one response: the
      `QUESTAO_...` matches in order and, for each of the three fallback
      patterns, the number it captured. */
  datatype Scanned = Scanned(matches: seq<QuestionMatch>, hits: seq<Option<Decimal>>)

  /** Everything outside the model that a run depends on, per round and
      per position of the submission in the list: the rendered prompt
      (`None` when rendering the templates raised), the network and random
      draws of the API call, and the searches over a response text. */
  datatype World = World(
    prompt: (int, nat) -> Option<string>,
    draws: (int, nat) -> Draws,
    scan: string -> Scanned)

  /** The record one job appends, if any: it needs a rendered prompt and a
      response whose stripped length exceeds 50 characters. */
  function JobRecord(api: ApiConfig, prompt: Option<string>, d: Draws, scan: string -> Scanned, round: int): Option<Attempt> {
    if prompt.None? then None
    else
      var c := Call(api, d, prompt.value);
      if c.response.Some? && TrimmedLength(c.response.value) > 50 then
        var sc := scan(c.response.value);
        Some(Attempt(JobTotal(sc.matches, sc.hits), c.response.value, ScoresOf(sc.matches), round, Some(c.sentPrompt)))
      else None
  }

  /** For a reply whose content neither starts nor ends with whitespace,
      the length test on the stripped content is a test on the content
      itself. */
  lemma AcceptedUntrimmed(r: Reply)
    requires r.Http? && r.status == 200 && r.content.Some?
    requires r.content.value != [] && !IsSpace(r.content.value[0]) && !IsSpace(r.content.value[|r.content.value| - 1])
    ensures Accepted(r) <==> |r.content.value| > 50
  {
    StripUnchanged(r.content.value);
  }

  /** The records of rounds 1 to `n` have non-negative totals when every
      job's record does. */
  lemma {:induction false} RecordsNonNegative(jobs: JobTable, i: nat, n: int)
    requires forall r :: jobs(r, i).Some? ==> jobs(r, i).value.total >= 0.0
    ensures forall k :: 0 <= k < |Records(jobs, i, n)| ==> Records(jobs, i, n)[k].total >= 0.0
    decreases n
  {
    if n >= 1 {
      RecordsNonNegative(jobs, i, n - 1);
      assert Records(jobs, i, n) == Records(jobs, i, n - 1) + AsSeq(jobs(n, i));
    }
  }

  /** A job records exactly when a prompt was rendered and the API returned
      content; the record is tagged with the round, holds the response as
      its feedback and the prompt that was sent, and its total is the sum
      of the kept question scores, or the fallback total when that sum is
      0 -- never negative. */
  lemma JobRecordSpec(api: ApiConfig, prompt: Option<string>, d: Draws, scan: string -> Scanned, round: int)
    ensures JobRecord(api, prompt, d, scan, round).Some? <==>
              prompt.Some? && Call(api, d, prompt.value).response.Some?
    ensures JobRecord(api, prompt, d, scan, round).Some? ==>
              var t := JobRecord(api, prompt, d, scan, round).value;
              var resp := Call(api, d, prompt.value).response.value;
              var sc := scan(resp);
              && t.round == round
              && t.feedback == resp && TrimmedLength(t.feedback) > 50
              && t.prompt == prompt
              && t.questionScores == ScoresOf(sc.matches)
              && t.total >= 0.0
              && (SumValues(t.questionScores) != 0.0 ==> t.total == SumValues(t.questionScores))
              && (SumValues(t.questionScores) == 0.0 ==> t.total == FallbackTotal(sc.hits))
  {
    if prompt.Some? {
      CallSpec(api, d, prompt.value);
      var c := Call(api, d, prompt.value);
      if c.response.Some? {
        JobTotalSpec(scan(c.response.value).matches, scan(c.response.value).hits);
      }
    }
  }

  /** One entry of the base folder with what eval.py finds in it: whether
      it is a directory, the most recent submission folder inside it
      (`_encontrar_submissao_recente`), the question files mapped in that
      folder (`_mapear_arquivos_questoes`) and the lines of its
      `execution.txt`, if there is one. */
  datatype FolderEntry = FolderEntry(
    name: string,
    isDir: bool,
    latest: Option<string>,
    files: Dict<string>,
    execution: Option<seq<Line>>)

  /** The sort key of `descobrir_submissoes`: the lower-cased name. */
  function EntryKey(e: FolderEntry): string {
    Lower(e.name)
  }

  /** The name and login a folder yields, or `None` when discovery skips
      it. */
  function Admit(e: FolderEntry): Option<(string, string)> {
    if !e.isDir then None
    else
      match RSplitOnce(e.name, " - ")
      case None => None
      case Some(parts) => if e.latest.None? || e.files == [] then None else Some(parts)
  }

  /** A folder is kept exactly when it is a directory whose name contains
      `" - "`, that holds a submission folder with question files; its
      name is then the student's name and login around the last `" - "`,
      so the login never contains `" - "`. */
  lemma AdmitSpec(e: FolderEntry)
    ensures Admit(e).Some? <==>
              e.isDir && (exists j :: OccursAt(e.name, " - ", j)) && e.latest.Some? && e.files != []
    ensures Admit(e).Some? ==>
              var (name, login) := Admit(e).value;
              e.name == name + " - " + login && forall p :: !OccursAt(login, " - ", p)
  {
    RSplitOnceSpec(e.name, " - ");
    if Admit(e).Some? {
      var (name, login) := Admit(e).value;
      forall p | OccursAt(login, " - ", p) ensures false {
        var q := |name| + 3 + p;
        assert e.name[q..q + 3] == login[p..p + 3];
        assert OccursAt(e.name, " - ", q);
      }
    }
  }

  /** The entries discovery keeps, in the order given. */
  function Admitted(es: seq<FolderEntry>): (r: seq<FolderEntry>)
    ensures |r| <= |es|
  {
    if es == [] then []
    else Admitted(es[..|es| - 1]) + (if Admit(es[|es| - 1]).Some? then [es[|es| - 1]] else [])
  }

  /** Discovery keeps exactly the entries that qualify. */
  lemma {:induction false} AdmittedMembers(es: seq<FolderEntry>)
    ensures forall e :: e in Admitted(es) <==> e in es && Admit(e).Some?
  {
    if es != [] {
      var last := es[|es| - 1];
      assert es == es[..|es| - 1] + [last];
      AdmittedMembers(es[..|es| - 1]);
    }
  }

  lemma AdmittedSnoc(es: seq<FolderEntry>, e: FolderEntry)
    ensures Admitted(es + [e]) == Admitted(es) + (if Admit(e).Some? then [e] else [])
  {
    assert (es + [e])[..|es|] == es;
  }

  /** Keeping entries of a list sorted by key leaves it sorted. */
  lemma {:induction false} AdmittedSorted(es: seq<FolderEntry>)
    requires SortedBy(es, EntryKey)
    ensures SortedBy(Admitted(es), EntryKey)
  {
    if es != [] {
      var init, last := es[..|es| - 1], es[|es| - 1];
      assert SortedBy(init, EntryKey) by {
        forall i | 0 <= i < |init| - 1 ensures StrLe(EntryKey(init[i]), EntryKey(init[i + 1])) {
          assert init[i] == es[i] && init[i + 1] == es[i + 1];
        }
      }
      AdmittedSorted(init);
      var r0 := Admitted(init);
      if Admit(last).Some? && r0 != [] {
        var prev := r0[|r0| - 1];
        AdmittedMembers(init);
        assert prev in init;
        var k :| 0 <= k < |init| && init[k] == prev;
        SortedByPairs(es, EntryKey, k, |es| - 1);
        assert Admitted(es) == r0 + [last];
      }
    }
  }

  /** The student folders discovery keeps are exactly the folders that
      qualify, and they come in the order of their lower-cased names. */
  lemma DiscoveryOrder(entries: seq<FolderEntry>)
    ensures SortedBy(Admitted(SortBy(entries, EntryKey)), EntryKey)
    ensures forall e :: e in Admitted(SortBy(entries, EntryKey)) <==> e in entries && Admit(e).Some?
  {
    var sorted := SortBy(entries, EntryKey);
    AdmittedSorted(sorted);
    AdmittedMembers(sorted);
    assert forall e :: e in sorted <==> e in multiset(sorted);
    assert forall e :: e in entries <==> e in multiset(entries);
  }

  /** The histories of a list of records. */
  function HistoriesOf(subs: seq<Submission>): (hs: seq<seq<Attempt>>)
    reads set s | s in subs
    ensures |hs| == |subs| && forall i :: 0 <= i < |subs| ==> hs[i] == subs[i].history
  {
    if subs == [] then [] else HistoriesOf(subs[..|subs| - 1]) + [subs[|subs| - 1].history]
  }

  /** `concluidos` of `_relatorio_final`: the records whose status is
      `Completed`, in list order. */
  function Concluded(subs: seq<Submission>): (r: seq<Submission>)
    reads set s | s in subs
    ensures |r| <= |subs|
  {
    if subs == [] then []
    else
      var last := subs[|subs| - 1];
      Concluded(subs[..|subs| - 1]) + (if last.status == Completed then [last] else [])
  }

  /** The concluded list holds exactly the completed records. */
  lemma {:induction false} ConcludedSpec(subs: seq<Submission>)
    ensures forall i :: 0 <= i < |Concluded(subs)| ==> Concluded(subs)[i] in subs && Concluded(subs)[i].status == Completed
    ensures forall i :: 0 <= i < |subs| && subs[i].status == Completed ==> subs[i] in Concluded(subs)
  {
    if subs != [] {
      var init, last := subs[..|subs| - 1], subs[|subs| - 1];
      ConcludedSpec(init);
      assert subs == init + [last];
      assert forall i :: 0 <= i < |init| ==> subs[i] == init[i];
    }
  }

  /** `pendentes` of `_relatorio_final`: the other records, in list order. */
  function Unconcluded(subs: seq<Submission>): (r: seq<Submission>)
    reads set s | s in subs
    ensures |r| <= |subs|
  {
    if subs == [] then []
    else
      var last := subs[|subs| - 1];
      Unconcluded(subs[..|subs| - 1]) + (if last.status != Completed then [last] else [])
  }

  /** The pending list holds exactly the records that are not completed. */
  lemma {:induction false} UnconcludedSpec(subs: seq<Submission>)
    ensures forall i :: 0 <= i < |Unconcluded(subs)| ==> Unconcluded(subs)[i] in subs && Unconcluded(subs)[i].status != Completed
    ensures forall i :: 0 <= i < |subs| && subs[i].status != Completed ==> subs[i] in Unconcluded(subs)
  {
    if subs != [] {
      var init, last := subs[..|subs| - 1], subs[|subs| - 1];
      UnconcludedSpec(init);
      assert subs == init + [last];
      assert forall i :: 0 <= i < |init| ==> subs[i] == init[i];
    }
  }

  /** The two lists of the final report split the records between them:
      every record lands in exactly one. */
  lemma {:induction false} ReportPartition(subs: seq<Submission>)
    ensures multiset(Concluded(subs)) + multiset(Unconcluded(subs)) == multiset(subs)
  {
    if subs != [] {
      var init, last := subs[..|subs| - 1], subs[|subs| - 1];
      ReportPartition(init);
      var c, u := Concluded(init), Unconcluded(init);
      assert subs == init + [last];
      if last.status == Completed {
        assert Concluded(subs) == c + [last] && Unconcluded(subs) == u;
      } else {
        assert Concluded(subs) == c && Unconcluded(subs) == u + [last];
      }
    }
  }

  /** The counts of the final report add up to the number of records. */
  lemma ReportCounts(subs: seq<Submission>)
    ensures |Concluded(subs)| + |Unconcluded(subs)| == |subs|
  {
    ReportPartition(subs);
    assert |multiset(Concluded(subs)) + multiset(Unconcluded(subs))| == |multiset(subs)|;
  }

  /** `SubmissaoAluno`: one student's folder and the state grading keeps
      about it. */
  class Submission {
    const name: string
    const login: string
    const folder: string
    const files: Dict<string>
    var status: Status
    var grade: real
    var feedback: string
    var prompt: string
    var apiCalls: int
    var questionScores: Dict<real>
    const moodlePercent: Dict<real>
    const moodlePoints: Dict<real>
    var history: seq<Attempt>

    /** A new record with the dataclass defaults. */
    constructor (name: string, login: string, folder: string, files: Dict<string>, percents: Dict<real>, points: Dict<real>)
      ensures this.name == name && this.login == login && this.folder == folder && this.files == files
      ensures moodlePercent == percents && moodlePoints == points
      ensures Untouched()
    {
      this.name := name;
      this.login := login;
      this.folder := folder;
      this.files := files;
      status := Pending;
      grade := 0.0;
      feedback := "";
      prompt := "";
      apiCalls := 0;
      questionScores := [];
      this.moodlePercent := percents;
      this.moodlePoints := points;
      history := [];
    }

    /** The state of a record no job has touched yet. */
    predicate Untouched()
      reads this
    {
      status == Pending && grade == 0.0 && feedback == "" && prompt == "" && apiCalls == 0 &&
      questionScores == [] && history == []
    }

    /** The five fields consolidation writes. */
    function Current(): Outcome
      reads this
    {
      Outcome(status, grade, feedback, questionScores, prompt)
    }

    /** The body of the loop of `_consolidar_resultados_finais` for this
        submission. */
    method Consolidate(llmAttempts: int, policy: Policy)
      modifies this
      ensures Current() == Consolidated(old(history), llmAttempts, policy, old(Current()))
      ensures history == old(history) && apiCalls == old(apiCalls)
    {
      var h := history;
      if h == [] {
        status := NoFeedback;
        feedback := NoFeedbackMessage;
        grade := 0.0;
        return;
      }
      var selected: Attempt;
      var g := 0.0;
      if llmAttempts > 1 {
        if policy == Highest {
          selected := h[FirstMaxIndex(Totals(h))];
        } else if policy == Lowest {
          selected := h[FirstMinIndex(Totals(h))];
        } else {
          var totals := Totals(h);
          g := Sum(totals) / (|totals| as real);
          selected := h[FirstMinIndex(seq(|h|, j requires 0 <= j < |h| => Abs(h[j].total - g)))];
        }
        if policy != Average {
          g := selected.total;
        }
      } else {
        selected := h[0];
        g := selected.total;
      }
      assert selected == h[SelectedIndex(h, llmAttempts, policy)];
      grade := g;
      feedback := selected.feedback;
      questionScores := selected.questionScores;
      prompt := selected.prompt.GetOr("");
      status := Completed;
    }
  }

  /** `GerenciadorAvaliacao`, with the configuration values it reads. */
  class Manager {
    var submissions: seq<Submission>
    const llmAttempts: int
    const policy: Policy
    const threads: int
    const api: ApiConfig
    const questions: seq<(string, real)>

    /** Every submission object occurs once in the list. */
    predicate Valid()
      reads this
    {
      Distinct(submissions)
    }

    function Objects(): set<Submission>
      reads this
    {
      set s | s in submissions
    }

    /** `__init__`: `assessment.llm_attempts` (default 1), the normalised
      `assessment.selection_criteria`, `processing.parallel_threads`
      (default 4), the `api` section and the `(id, max_points)` of the
      configured questions. */
    constructor (attempts: Option<int>, criterion: Option<string>, parallel: Option<int>, api: ApiConfig, questions: seq<(string, real)>)
      ensures llmAttempts == attempts.GetOr(1)
      ensures policy == NormalizePolicy(criterion)
      ensures threads == parallel.GetOr(4)
      ensures this.api == api && this.questions == questions
      ensures submissions == [] && Valid()
    {
      llmAttempts := attempts.GetOr(1);
      policy := NormalizePolicy(criterion);
      threads := parallel.GetOr(4);
      this.api := api;
      this.questions := questions;
      submissions := [];
    }

    /** `s` is the record discovery makes for the kept folder `e`. */
    predicate Describes(s: Submission, e: FolderEntry)
      reads s
    {
      && Admit(e).Some?
      && s.name == Admit(e).value.0 && s.login == Admit(e).value.1
      && s.folder == e.latest.value && s.files == e.files
      && (s.moodlePercent, s.moodlePoints) == MoodleScores(e.execution, questions)
      && s.Untouched()
    }

    /** `descobrir_submissoes`: one new record per kept folder, visiting the
      folders in the order of their lower-cased names. */
    method Discover(entries: seq<FolderEntry>) returns (found: seq<Submission>)
      modifies this
      ensures found == submissions && Valid()
      ensures |submissions| == |Admitted(SortBy(entries, EntryKey))|
      ensures forall i :: 0 <= i < |submissions| ==>
                fresh(submissions[i]) && Describes(submissions[i], Admitted(SortBy(entries, EntryKey))[i])
    {
      found := Collect(SortBy(entries, EntryKey));
      submissions := found;
    }

    /** Each record of `found` is the one discovery makes for the folder at
      the same position of `kept`. */
    ghost predicate DescribesAll(found: seq<Submission>, kept: seq<FolderEntry>)
      reads set s | s in found
    {
      |found| == |kept| && forall i :: 0 <= i < |found| ==> Describes(found[i], kept[i])
    }

    lemma DescribesAllSnoc(found: seq<Submission>, kept: seq<FolderEntry>, s: Submission, e: FolderEntry)
      requires DescribesAll(found, kept) && Describes(s, e)
      ensures DescribesAll(found + [s], kept + [e])
    {
    }

    /** No record occurs twice in `xs`. */
    predicate Distinct(xs: seq<Submission>) {
      forall i, j :: 0 <= i < j < |xs| ==> xs[i] != xs[j]
    }

    lemma DistinctSnoc(xs: seq<Submission>, x: Submission)
      requires Distinct(xs) && x !in xs
      ensures Distinct(xs + [x])
    {
    }

    /** The loop of `descobrir_submissoes` over the folders in visiting
      order. */
    method Collect(folders: seq<FolderEntry>) returns (found: seq<Submission>)
      ensures |found| == |Admitted(folders)|
      ensures forall i :: 0 <= i < |found| ==> fresh(found[i]) && Describes(found[i], Admitted(folders)[i])
      ensures forall i, j :: 0 <= i < j < |found| ==> found[i] != found[j]
    {
      found := [];
      ghost var kept: seq<FolderEntry> := [];
      for k := 0 to |folders|
        invariant kept == Admitted(folders[..k])
        invariant DescribesAll(found, kept)
        invariant forall i :: 0 <= i < |found| ==> fresh(found[i])
        invariant Distinct(found)
      {
        AdmittedSnoc(folders[..k], folders[k]);
        assert folders[..k + 1] == folders[..k] + [folders[k]];
        var made := Visit(folders[k]);
        if made.Some? {
          DescribesAllSnoc(found, kept, made.value, folders[k]);
          DistinctSnoc(found, made.value);
          found := found + [made.value];
          kept := kept + [folders[k]];
        }
      }
      assert folders[..|folders|] == folders;
    }

    /** The body of the loop of `descobrir_submissoes` for one folder. */
    method Visit(e: FolderEntry) returns (made: Option<Submission>)
      ensures made.Some? <==> Admit(e).Some?
      ensures made.Some? ==> fresh(made.value) && Describes(made.value, e)
    {
      if !e.isDir {
        return None;
      }
      var parts := RSplitOnce(e.name, " - ");
      if parts.None? {
        return None;
      }
      var (name, login) := parts.value;
      if e.latest.None? || e.files == [] {
        return None;
      }
      var percents, points := ExtractMoodle(e.execution, questions);
      var s := new Submission(name, login, e.latest.value, e.files, percents, points);
      return Some(s);
    }

    /** The record the job of round `round` appends to the submission at
      position `i`, if any. */
    function RecordOf(w: World, round: int, i: nat): Option<Attempt> {
      JobRecord(api, w.prompt(round, i), w.draws(round, i), w.scan, round)
    }

    /** `jobs` is the table of what every job of a run in the world `w`
      records. */
    ghost predicate Outcomes(w: World, jobs: JobTable) {
      forall r, i {:trigger RecordOf(w, r, i)} :: jobs(r, i) == RecordOf(w, r, i)
    }

    /** The table of every job's record. */
    function Table(w: World): (jobs: JobTable)
      ensures Outcomes(w, jobs)
    {
      (r: int, i: nat) => RecordOf(w, r, i)
    }

    /** Every job tags its record with its round. */
    lemma OutcomesTagged(w: World, jobs: JobTable)
      requires Outcomes(w, jobs)
      ensures Tagged(jobs)
    {
      forall r, i ensures jobs(r, i).Some? ==> jobs(r, i).value.round == r {
        assert jobs(r, i) == RecordOf(w, r, i);
        JobRecordSpec(api, w.prompt(r, i), w.draws(r, i), w.scan, r);
      }
    }

    /** No job records a negative total. */
    lemma OutcomesNonNegative(w: World, jobs: JobTable, i: nat)
      requires Outcomes(w, jobs)
      ensures forall r :: jobs(r, i).Some? ==> jobs(r, i).value.total >= 0.0
    {
      forall r ensures jobs(r, i).Some? ==> jobs(r, i).value.total >= 0.0 {
        assert jobs(r, i) == RecordOf(w, r, i);
        JobRecordSpec(api, w.prompt(r, i), w.draws(r, i), w.scan, r);
      }
    }

    /** A student whose history holds only what the rounds recorded, and
      for whom some job recorded, is consolidated as concluded with a grade
      of at least 0, whatever the policy. */
    lemma RecordedGradeNonNegative(w: World, jobs: JobTable, i: nat, current: Outcome)
      requires Outcomes(w, jobs) && Records(jobs, i, llmAttempts) != []
      ensures var c := Consolidated(Records(jobs, i, llmAttempts), llmAttempts, policy, current);
              c.status == Completed && c.grade >= 0.0
    {
      OutcomesNonNegative(w, jobs, i);
      RecordsNonNegative(jobs, i, llmAttempts);
      GradeWithinHistory(Records(jobs, i, llmAttempts), llmAttempts, policy, current);
    }

    /** The job of `_processar_submissao_com_delay` once it holds the
      semaphore: count the API call, render the prompt, call the API and,
      when the response is long enough, append a record. An exception
      raised while rendering is caught at the job boundary after the call
      was counted. */
    method RunJob(s: Submission, round: int, i: nat, w: World, ghost jobs: JobTable)
      requires Outcomes(w, jobs)
      modifies s
      ensures s.apiCalls == old(s.apiCalls) + 1
      ensures s.history == old(s.history) + AsSeq(jobs(round, i))
      ensures s.Current() == old(s.Current())
    {
      assert jobs(round, i) == RecordOf(w, round, i);
      s.apiCalls := s.apiCalls + 1;
      var rendered := w.prompt(round, i);
      if rendered.None? {
        return;
      }
      var response, sent, _ := CallWithRetry(api, w.draws(round, i), rendered.value);
      if response.Some? && TrimmedLength(response.value) > 50 {
        var sc := w.scan(response.value);
        var scores := ExtractQuestionScores(sc.matches);
        var total := SumValues(scores);
        if total == 0.0 {
          total := FallbackTotal(sc.hits);
        }
        s.history := s.history + [Attempt(total, response.value, scores, round, Some(sent))];
      }
    }

    /** `_consolidar_resultados_finais`. */
    method Consolidate()
      requires Valid()
      modifies Objects()
      ensures forall i :: 0 <= i < |submissions| ==>
                submissions[i].Current() ==
                  Consolidated(old(submissions[i].history), llmAttempts, policy, old(submissions[i].Current()))
      ensures forall i :: 0 <= i < |submissions| ==>
                submissions[i].history == old(submissions[i].history) &&
                submissions[i].apiCalls == old(submissions[i].apiCalls)
    {
      for i := 0 to |submissions|
        invariant forall j :: 0 <= j < i ==>
                    submissions[j].Current() ==
                      Consolidated(old(submissions[j].history), llmAttempts, policy, old(submissions[j].Current()))
        invariant forall j :: i <= j < |submissions| ==> submissions[j].Current() == old(submissions[j].Current())
        invariant forall j :: 0 <= j < |submissions| ==>
                    submissions[j].history == old(submissions[j].history) &&
                    submissions[j].apiCalls == old(submissions[j].apiCalls)
      {
        submissions[i].Consolidate(llmAttempts, policy);
      }
    }

    /** `_processar_rodada_adaptativa` for round `round`: the task delays are
      computed first (building the round raises when they cannot be), then
      every submission's job runs. Each job touches only its own
      submission, so running them one after the other in list order leaves
      the same state as any interleaving; the semaphore and the sleeps are
      not modelled. */
    method ProcessRound(round: int, w: World, ghost jobs: JobTable) returns (delays: Option<seq<nat>>)
      requires Valid() && Outcomes(w, jobs)
      modifies Objects()
      ensures delays == WaveDelays(|submissions|, threads)
      ensures delays.None? ==> unchanged(Objects())
      ensures delays.Some? ==> forall i :: 0 <= i < |submissions| ==>
                submissions[i].apiCalls == old(submissions[i].apiCalls) + 1 &&
                submissions[i].history == old(submissions[i].history) + AsSeq(jobs(round, i))
      ensures forall i :: 0 <= i < |submissions| ==> submissions[i].Current() == old(submissions[i].Current())
    {
      delays := WaveDelays(|submissions|, threads);
      if delays.None? {
        return;
      }
      for i := 0 to |submissions|
        invariant forall j :: 0 <= j < i ==>
                    submissions[j].apiCalls == old(submissions[j].apiCalls) + 1 &&
                    submissions[j].history == old(submissions[j].history) + AsSeq(jobs(round, j))
        invariant forall j :: i <= j < |submissions| ==>
                    submissions[j].apiCalls == old(submissions[j].apiCalls) &&
                    submissions[j].history == old(submissions[j].history)
        invariant forall j :: 0 <= j < |submissions| ==> submissions[j].Current() == old(submissions[j].Current())
      {
        RunJob(submissions[i], round, i, w, jobs);
      }
    }

    /** The histories are those of a run of `n` rounds from `start`. */
    lemma HistoriesAfter(jobs: JobTable, start: seq<seq<Attempt>>, n: int)
      requires |start| == |submissions|
      requires forall j :: 0 <= j < |submissions| ==> submissions[j].history == start[j] + Records(jobs, j, n)
      ensures HistoriesOf(submissions) == AfterRuns(jobs, start, n)
    {
    }

    /** After round `n`, its report extends the reports of the earlier
      rounds. */
    lemma RoundReported(jobs: JobTable, start: seq<seq<Attempt>>, n: int)
      requires n >= 1 && |start| == |submissions|
      requires forall j :: 0 <= j < |submissions| ==> submissions[j].history == start[j] + Records(jobs, j, n)
      ensures Reported(jobs, start, n) == Reported(jobs, start, n - 1) + [Successes(HistoriesOf(submissions), n)]
    {
      HistoriesAfter(jobs, start, n);
    }

    /** `sucessos_rodada` of `_relatorio_rodada`. */
    function RoundSuccesses(r: int): (c: nat)
      reads this, Objects()
      ensures c <= |submissions|
    {
      Successes(HistoriesOf(submissions), r)
    }

    /** `_relatorio_rodada` after round `round` of a run that started from
      the histories `start`: the count of this round's report, the next
      entry of `Reported`. */
    method ReportRound(round: int, ghost jobs: JobTable, ghost start: seq<seq<Attempt>>) returns (count: nat)
      requires round >= 1 && |start| == |submissions|
      requires forall j :: 0 <= j < |submissions| ==> submissions[j].history == start[j] + Records(jobs, j, round)
      ensures Reported(jobs, start, round) == Reported(jobs, start, round - 1) + [count]
    {
      RoundReported(jobs, start, round);
      count := RoundSuccesses(round);
    }

    /** The API-call counters of a list of records. */
    function CallsOf(subs: seq<Submission>): (cs: seq<int>)
      reads set s | s in subs
      ensures |cs| == |subs| && forall i :: 0 <= i < |subs| ==> cs[i] == subs[i].apiCalls
    {
      if subs == [] then [] else CallsOf(subs[..|subs| - 1]) + [subs[|subs| - 1].apiCalls]
    }

    /** The consolidated fields of a list of records. */
    function CurrentsOf(subs: seq<Submission>): (os: seq<Outcome>)
      reads set s | s in subs
      ensures |os| == |subs| && forall i :: 0 <= i < |subs| ==> os[i] == subs[i].Current()
    {
      if subs == [] then [] else CurrentsOf(subs[..|subs| - 1]) + [subs[|subs| - 1].Current()]
    }

    /** The records stand where `k` rounds leave them when the run started
      from the histories `start`, the counters `calls` and the consolidated
      fields `cur`. */
    ghost predicate After(k: int, jobs: JobTable, start: seq<seq<Attempt>>, calls: seq<int>, cur: seq<Outcome>)
      reads this, Objects()
    {
      && |start| == |submissions| && |calls| == |submissions| && |cur| == |submissions|
      && forall j :: 0 <= j < |submissions| ==>
           && submissions[j].apiCalls == calls[j] + (if k >= 1 then k else 0)
           && submissions[j].history == start[j] + Records(jobs, j, k)
           && submissions[j].Current() == cur[j]
    }

    /** One pass of the round loop of `processar_submissoes`: the round,
      then the count its report prints. A round that cannot be built
      changes nothing. */
    method NextRound(round: int, w: World, ghost jobs: JobTable, ghost start: seq<seq<Attempt>>,
                     ghost calls: seq<int>, ghost cur: seq<Outcome>)
      returns (delays: Option<seq<nat>>, count: nat)
      requires Valid() && Outcomes(w, jobs) && round >= 1
      requires After(round - 1, jobs, start, calls, cur)
      modifies Objects()
      ensures delays == WaveDelays(|submissions|, threads)
      ensures delays.None? ==> unchanged(Objects())
      ensures delays.Some? ==> After(round, jobs, start, calls, cur)
      ensures delays.Some? ==> Reported(jobs, start, round) == Reported(jobs, start, round - 1) + [count]
    {
      delays := ProcessRound(round, w, jobs);
      if delays.None? {
        return delays, 0;
      }
      forall j | 0 <= j < |submissions|
        ensures submissions[j].history == start[j] + Records(jobs, j, round)
        ensures submissions[j].apiCalls == calls[j] + round
      {
        assert Records(jobs, j, round) == Records(jobs, j, round - 1) + AsSeq(jobs(round, j));
      }
      count := ReportRound(round, jobs, start);
    }

    /** The round loop of `processar_submissoes`, started before any round
      has run: `After(0, …)` says every record still has history `start`,
      call count `calls` and fields `cur`. It runs rounds 1 to
      `llm_attempts` with their cool-downs, `successes` holding what each
      round's report counts, and stops, changing nothing, when the first
      round cannot be built. */
    method RoundLoop(w: World, ghost jobs: JobTable, ghost start: seq<seq<Attempt>>,
                     ghost calls: seq<int>, ghost cur: seq<Outcome>)
      returns (trace: seq<Phase>, successes: seq<nat>, aborted: bool)
      requires Valid() && Outcomes(w, jobs) && After(0, jobs, start, calls, cur)
      modifies Objects()
      ensures aborted <==> llmAttempts >= 1 && WaveDelays(|submissions|, threads).None?
      ensures aborted ==> trace == [] && successes == [] && After(0, jobs, start, calls, cur)
      ensures !aborted ==> trace == Rounds(llmAttempts, llmAttempts)
      ensures !aborted ==> successes == Reported(jobs, start, llmAttempts)
      ensures !aborted ==> After(llmAttempts, jobs, start, calls, cur)
    {
      trace, successes := [], [];
      var n := if llmAttempts >= 1 then llmAttempts else 0;
      for k := 0 to n
        invariant trace == Rounds(k, llmAttempts)
        invariant k > 0 ==> WaveDelays(|submissions|, threads).Some?
        invariant After(k, jobs, start, calls, cur)
        invariant successes == Reported(jobs, start, k)
      {
        var round := k + 1;
        var delays, count := NextRound(round, w, jobs, start, calls, cur);
        if delays.None? {
          assert k == 0;
          return [], [], true;
        }
        successes := successes + [count];
        trace := trace + [RoundRun(round)];
        if round < llmAttempts {
          trace := trace + [Pause(CoolDown(round))];
        }
      }
      aborted := false;
    }

    /** The round loop of `processar_submissoes`: rounds 1 to
      `llm_attempts` with their cool-downs; `successes` holds what each
      round's report counts. It stops, changing nothing, when the first
      round cannot be built. */
    method RunRounds(w: World, ghost jobs: JobTable) returns (trace: seq<Phase>, successes: seq<nat>, aborted: bool)
      requires Valid() && Outcomes(w, jobs)
      modifies Objects()
      ensures aborted <==> llmAttempts >= 1 && WaveDelays(|submissions|, threads).None?
      ensures aborted ==> trace == [] && successes == [] && forall i :: 0 <= i < |submissions| ==>
                submissions[i].apiCalls == old(submissions[i].apiCalls) &&
                submissions[i].history == old(submissions[i].history)
      ensures !aborted ==> trace == Rounds(llmAttempts, llmAttempts)
      ensures !aborted ==> forall i :: 0 <= i < |submissions| ==>
                submissions[i].history == old(submissions[i].history) + Records(jobs, i, llmAttempts) &&
                submissions[i].apiCalls == old(submissions[i].apiCalls) + (if llmAttempts >= 1 then llmAttempts else 0)
      ensures !aborted ==> successes == Reported(jobs, old(HistoriesOf(submissions)), llmAttempts)
      ensures forall i :: 0 <= i < |submissions| ==> submissions[i].Current() == old(submissions[i].Current())
    {
      ghost var start, calls, cur := HistoriesOf(submissions), CallsOf(submissions), CurrentsOf(submissions);
      trace, successes, aborted := RoundLoop(w, jobs, start, calls, cur);
    }

    /** `processar_submissoes`: the rounds, then consolidation once. After
      it, the final report counts a student as concluded exactly when their
      history is non-empty. */
    method ProcessAll(w: World, ghost jobs: JobTable) returns (trace: seq<Phase>, successes: seq<nat>, aborted: bool)
      requires Valid() && Outcomes(w, jobs)
      modifies Objects()
      ensures aborted <==> llmAttempts >= 1 && WaveDelays(|submissions|, threads).None?
      ensures aborted ==> trace == [] && successes == [] && forall i :: 0 <= i < |submissions| ==>
                submissions[i].apiCalls == old(submissions[i].apiCalls) &&
                submissions[i].history == old(submissions[i].history) &&
                submissions[i].Current() == old(submissions[i].Current())
      ensures !aborted ==> trace == Schedule(llmAttempts)
      ensures !aborted ==> forall i :: 0 <= i < |submissions| ==>
                var h := old(submissions[i].history) + Records(jobs, i, llmAttempts);
                && submissions[i].history == h
                && submissions[i].apiCalls == old(submissions[i].apiCalls) + (if llmAttempts >= 1 then llmAttempts else 0)
                && submissions[i].Current() == Consolidated(h, llmAttempts, policy, old(submissions[i].Current()))
      ensures !aborted ==> successes == Reported(jobs, old(HistoriesOf(submissions)), llmAttempts)
      ensures !aborted ==> forall i :: 0 <= i < |submissions| ==>
                (submissions[i] in Concluded(submissions) <==> submissions[i].history != [])
    {
      trace, successes, aborted := RunRounds(w, jobs);
      if aborted {
        return;
      }
      Consolidate();
      ConcludedSpec(submissions);
      trace := trace + [Consolidation];
    }
  }
}
