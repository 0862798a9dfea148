/** The histories a run builds, round after round, and what the report of
    each round counts (`_relatorio_rodada` in eval.py). The job outcomes
    are a table: for each round and each position in the list of
    submissions, the record that job appends, if any. */
module History {

  import opened Maybe
  import opened Grading

  /** The record the job of a round (first index) for the submission at a
      position (second index) appends, if any. */
  type JobTable = (int, nat) -> Option<Attempt>

  /** Every record is tagged with the round whose job made it. */
  ghost predicate Tagged(jobs: JobTable) {
    forall r, i :: jobs(r, i).Some? ==> jobs(r, i).value.round == r
  }

  function AsSeq(r: Option<Attempt>): seq<Attempt> {
    if r.Some? then [r.value] else []
  }

  /** Some record of the history comes from round `r`. */
  predicate HasRound(h: seq<Attempt>, r: int) {
    exists t :: t in h && t.round == r
  }

  /** `sucessos_rodada`: how many histories hold a record of round `r`. */
  function Successes(hs: seq<seq<Attempt>>, r: int): (c: nat)
    ensures c <= |hs|
  {
    if hs == [] then 0
    else Successes(hs[..|hs| - 1], r) + (if HasRound(hs[|hs| - 1], r) then 1 else 0)
  }

  /** No success exactly when no history holds a record of the round, and
      full success exactly when every history does. */
  lemma {:induction false} SuccessesSpec(hs: seq<seq<Attempt>>, r: int)
    ensures Successes(hs, r) == 0 <==> forall i :: 0 <= i < |hs| ==> !HasRound(hs[i], r)
    ensures Successes(hs, r) == |hs| <==> forall i :: 0 <= i < |hs| ==> HasRound(hs[i], r)
  {
    if hs != [] {
      var init := hs[..|hs| - 1];
      SuccessesSpec(init, r);
      assert forall i :: 0 <= i < |init| ==> init[i] == hs[i];
    }
  }

  /** The records the jobs of the submission at position `i` appended in
      rounds 1 to `n`. */
  function Records(jobs: JobTable, i: nat, n: int): seq<Attempt>
    decreases n
  {
    if n < 1 then [] else Records(jobs, i, n - 1) + AsSeq(jobs(n, i))
  }

  /** The records of rounds 1 to `n` come from those rounds, and contain a
      record of round `r` exactly when `r` is one of them and its job
      recorded. */
  lemma {:induction false} RecordsRounds(jobs: JobTable, i: nat, n: int)
    requires Tagged(jobs)
    ensures forall t :: t in Records(jobs, i, n) ==> 1 <= t.round <= n
    ensures forall r :: HasRound(Records(jobs, i, n), r) <==> 1 <= r <= n && jobs(r, i).Some?
    decreases n
  {
    if n >= 1 {
      RecordsRounds(jobs, i, n - 1);
      var prefix, extra := Records(jobs, i, n - 1), AsSeq(jobs(n, i));
      assert Records(jobs, i, n) == prefix + extra;
      forall r ensures HasRound(Records(jobs, i, n), r) <==> 1 <= r <= n && jobs(r, i).Some? {
        if HasRound(extra, r) {
          var t :| t in extra && t.round == r;
          assert t in Records(jobs, i, n);
        }
        if HasRound(prefix, r) {
          var t :| t in prefix && t.round == r;
          assert t in Records(jobs, i, n);
        }
        if HasRound(Records(jobs, i, n), r) {
          var t :| t in Records(jobs, i, n) && t.round == r;
          assert t in prefix || t in extra;
        }
      }
    }
  }

  /** How many of the jobs of round `r` for the first `m` positions
      recorded. */
  function Recorded(jobs: JobTable, r: int, m: nat): (c: nat)
    ensures c <= m
  {
    if m == 0 then 0 else Recorded(jobs, r, m - 1) + (if jobs(r, m - 1).Some? then 1 else 0)
  }

  /** The histories after rounds 1 to `n`, from the histories `hs`. */
  function AfterRuns(jobs: JobTable, hs: seq<seq<Attempt>>, n: int): (r: seq<seq<Attempt>>)
    ensures |r| == |hs| && forall i :: 0 <= i < |hs| ==> r[i] == hs[i] + Records(jobs, i, n)
  {
    if hs == [] then []
    else AfterRuns(jobs, hs[..|hs| - 1], n) + [hs[|hs| - 1] + Records(jobs, |hs| - 1, n)]
  }

  /** After round `k`, over histories that held no record of that round,
      the round's success count is the number of its jobs that recorded. */
  lemma RoundSuccessesAfterRuns(jobs: JobTable, hs: seq<seq<Attempt>>, k: int)
    requires Tagged(jobs)
    requires forall i :: 0 <= i < |hs| ==> !HasRound(hs[i], k)
    ensures Successes(AfterRuns(jobs, hs, k), k) == (if k >= 1 then Recorded(jobs, k, |hs|) else 0)
  {
    var after := AfterRuns(jobs, hs, k);
    forall i | 0 <= i < |after| ensures HasRound(after[i], k) <==> k >= 1 && jobs(k, i).Some? {
      HasRoundAppended(jobs, hs[i], i, k);
    }
    if k >= 1 {
      SuccessesCount(jobs, after, k);
    } else {
      SuccessesSpec(after, k);
    }
  }

  /** When the histories hold a record of round `k` exactly where the job
      of round `k` recorded, the success count is the number of those
      jobs. */
  lemma {:induction false} SuccessesCount(jobs: JobTable, xs: seq<seq<Attempt>>, k: int)
    requires forall i :: 0 <= i < |xs| ==> (HasRound(xs[i], k) <==> jobs(k, i).Some?)
    ensures Successes(xs, k) == Recorded(jobs, k, |xs|)
  {
    if xs != [] {
      var init := xs[..|xs| - 1];
      assert forall i :: 0 <= i < |init| ==> init[i] == xs[i];
      SuccessesCount(jobs, init, k);
    }
  }

  /** A history with no record of round `k` gains one from the records of
      rounds 1 to `k` exactly when the job of round `k` recorded. */
  lemma HasRoundAppended(jobs: JobTable, h: seq<Attempt>, i: nat, k: int)
    requires Tagged(jobs) && !HasRound(h, k)
    ensures HasRound(h + Records(jobs, i, k), k) <==> k >= 1 && jobs(k, i).Some?
  {
    RecordsRounds(jobs, i, k);
    var rs := Records(jobs, i, k);
    if HasRound(h + rs, k) {
      var t :| t in h + rs && t.round == k;
      assert t in h || t in rs;
    }
    if k >= 1 && jobs(k, i).Some? {
      var t :| t in rs && t.round == k;
      assert t in h + rs;
    }
  }

  /** What the reports of rounds 1 to `n` count, from the histories `hs`. */
  function Reported(jobs: JobTable, hs: seq<seq<Attempt>>, n: int): (r: seq<nat>)
    ensures |r| == (if n >= 1 then n else 0)
    decreases n
  {
    if n < 1 then [] else Reported(jobs, hs, n - 1) + [Successes(AfterRuns(jobs, hs, n), n)]
  }

  /** Over histories that start with no record of rounds 1 to `n`, the
      report of round `k` counts the jobs of round `k` that recorded. */
  lemma {:induction false} ReportedSpec(jobs: JobTable, hs: seq<seq<Attempt>>, n: int)
    requires Tagged(jobs)
    requires forall i, r :: 0 <= i < |hs| && 1 <= r <= n ==> !HasRound(hs[i], r)
    ensures forall k :: 0 <= k < |Reported(jobs, hs, n)| ==> Reported(jobs, hs, n)[k] == Recorded(jobs, k + 1, |hs|)
    decreases n
  {
    if n >= 1 {
      ReportedSpec(jobs, hs, n - 1);
      RoundSuccessesAfterRuns(jobs, hs, n);
      var r0, c := Reported(jobs, hs, n - 1), Successes(AfterRuns(jobs, hs, n), n);
      assert Reported(jobs, hs, n) == r0 + [c];
      forall k | 0 <= k < n ensures Reported(jobs, hs, n)[k] == Recorded(jobs, k + 1, |hs|) {
        if k < n - 1 {
          assert Reported(jobs, hs, n)[k] == r0[k];
        }
      }
    }
  }
}
