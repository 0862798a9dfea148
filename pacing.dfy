/** The arithmetic that paces a grading run: the start delay of each task in
    a round (`_processar_rodada_adaptativa` in eval.py), the cool-down
    between rounds and the order of rounds, cool-downs and consolidation
    (`processar_submissoes`). */
module Pacing {

  import opened Maybe

  /** `delay_base` of a round. */
  const DelayBase: nat := 2

  /** `i // threads` for a positive divisor (Python's floor division; the
      dividend is never negative here), by repeated subtraction. */
  function Wave(i: nat, threads: int): (w: nat)
    requires threads >= 1
    ensures w * threads <= i < w * threads + threads
    decreases i
  {
    if i < threads then 0
    else
      var w := Wave(i - threads, threads);
      assert (w + 1) * threads == w * threads + threads;
      w + 1
  }

  /** The subtraction above computes the quotient of Dafny's (Euclidean)
      division, which is Python's floor division for a positive divisor. */
  lemma {:induction false} WaveIsQuotient(i: nat, threads: int)
    requires threads >= 1
    ensures Wave(i, threads) == i / threads
    decreases i
  {
    if i >= threads {
      WaveIsQuotient(i - threads, threads);
      DivStep(i, threads);
    }
  }

  lemma DivStep(i: int, t: int)
    requires t >= 1 && i >= t
    ensures i / t == (i - t) / t + 1
  {
    var q, r := (i - t) / t, (i - t) % t;
    assert i == (q + 1) * t + r && 0 <= r < t;
    DivUnique(i, t, q + 1, r);
  }

  /** A quotient and remainder pair is unique. */
  lemma DivUnique(i: int, t: int, q: int, r: int)
    requires t >= 1 && i == q * t + r && 0 <= r < t
    ensures q == i / t
  {
    var q0, r0 := i / t, i % t;
    assert (q - q0) * t == r0 - r;
    MulSign(q - q0, t);
  }

  lemma MulSign(x: int, t: int)
    requires t >= 1
    ensures x >= 1 ==> x * t >= t
    ensures x <= -1 ==> x * t <= -t
  {
    if x >= 1 {
      MulAtLeast(x, t);
    } else if x <= -1 {
      MulAtLeast(-x, t);
      assert x * t == -((-x) * t);
    }
  }

  lemma {:induction false} MulAtLeast(x: int, t: int)
    requires x >= 1 && t >= 1
    ensures x * t >= t
    decreases x
  {
    if x > 1 {
      MulAtLeast(x - 1, t);
      assert x * t == (x - 1) * t + t;
    }
  }

  /** The delays `delay_base * (i // threads)` of the tasks of a round with
      `count` submissions, or `None` when building the round raises before
      any task runs: `asyncio.Semaphore(threads)` rejects a negative value,
      and with no threads the first floor division by zero raises unless
      there is no task at all. */
  function WaveDelays(count: nat, threads: int): (r: Option<seq<nat>>)
    ensures r.None? <==> threads < 0 || (threads == 0 && count > 0)
    ensures r.Some? ==> |r.value| == count
    ensures r.Some? && count > 0 ==> forall i :: 0 <= i < count ==> r.value[i] == DelayBase * Wave(i, threads)
  {
    if threads < 0 || (threads == 0 && count > 0) then None
    else if count == 0 then Some([])
    else Some(seq(count, i requires 0 <= i < count => DelayBase * Wave(i, threads)))
  }

  /** The first `threads` tasks start at once, delays never decrease along
      the list, every wave holds at most `threads` tasks, and task `i`
      waits `2 * k` seconds exactly when it is in wave `k`. */
  lemma WaveDelaysSpec(count: nat, threads: int)
    requires threads >= 1
    ensures WaveDelays(count, threads).Some?
    ensures var ds := WaveDelays(count, threads).value;
            && (forall i :: 0 <= i < count && i < threads ==> ds[i] == 0)
            && (forall i, j :: 0 <= i <= j < count ==> ds[i] <= ds[j])
            && (forall i :: 0 <= i < count ==> (ds[i] == 0 <==> i < threads))
            && (forall k: nat :: |set i | 0 <= i < count && ds[i] == DelayBase * k| <= threads)
  {
    var ds := WaveDelays(count, threads).value;
    forall i, j | 0 <= i <= j < count ensures ds[i] <= ds[j] {
      WaveMonotone(i, j, threads);
    }
    forall k: nat ensures |set i | 0 <= i < count && ds[i] == DelayBase * k| <= threads {
      var s := set i | 0 <= i < count && ds[i] == DelayBase * k;
      assert s <= Range(k * threads, k * threads + threads);
      SubsetSize(s, Range(k * threads, k * threads + threads));
    }
  }

  lemma {:induction false} WaveMonotone(i: nat, j: nat, threads: int)
    requires threads >= 1 && i <= j
    ensures Wave(i, threads) <= Wave(j, threads)
    decreases i
  {
    if i >= threads {
      WaveMonotone(i - threads, j - threads, threads);
    }
  }

  /** The integers `lo <= i < hi`. */
  function Range(lo: int, hi: int): (r: set<int>)
    ensures forall i :: i in r <==> lo <= i < hi
    ensures lo <= hi ==> |r| == hi - lo
    decreases hi - lo
  {
    if hi <= lo then {} else {lo} + Range(lo + 1, hi)
  }

  lemma SubsetSize(a: set<int>, b: set<int>)
    requires a <= b
    ensures |a| <= |b|
  {
    assert b == a + (b - a);
  }

  /** `min(60, 10 * tentativa_num)`: the pause after round `r`. */
  function CoolDown(r: int): (w: int)
    ensures r >= 1 ==> 10 <= w <= 60
    ensures w <= 60
  {
    if 60 <= 10 * r then 60 else 10 * r
  }

  /** What happens at the top level of a run, in order. */
  datatype Phase = RoundRun(round: nat) | Pause(seconds: int) | Consolidation

  /** The first `k` rounds of a run of `n`: each round followed by its
      cool-down unless it is the last round of the run. */
  function Rounds(k: int, n: int): seq<Phase>
    decreases k
  {
    if k < 1 then []
    else Rounds(k - 1, n) + [RoundRun(k)] + (if k < n then [Pause(CoolDown(k))] else [])
  }

  /** `processar_submissoes` with `llm_attempts = n` when no round aborts:
      rounds 1 to `n` in order, then consolidation once. */
  function Schedule(n: int): seq<Phase> {
    Rounds(n, n) + [Consolidation]
  }

  function CountRounds(t: seq<Phase>): nat {
    if t == [] then 0 else (if t[0].RoundRun? then 1 else 0) + CountRounds(t[1..])
  }

  lemma {:induction false} CountRoundsAppend(a: seq<Phase>, b: seq<Phase>)
    ensures CountRounds(a + b) == CountRounds(a) + CountRounds(b)
  {
    if a == [] {
      assert a + b == b;
    } else {
      assert (a + b)[1..] == a[1..] + b;
      CountRoundsAppend(a[1..], b);
    }
  }

  /** The first `k` rounds run `k` rounds and never consolidate. */
  lemma {:induction false} RoundsCount(k: int, n: int)
    ensures CountRounds(Rounds(k, n)) == (if k >= 1 then k else 0)
    ensures Consolidation !in Rounds(k, n)
    decreases k
  {
    if k >= 1 {
      var tail := [RoundRun(k)] + (if k < n then [Pause(CoolDown(k))] else []);
      RoundsCount(k - 1, n);
      assert Rounds(k, n) == Rounds(k - 1, n) + tail;
      CountRoundsAppend(Rounds(k - 1, n), tail);
      CountRoundsAppend([RoundRun(k)], if k < n then [Pause(CoolDown(k))] else []);
      assert CountRounds([Pause(CoolDown(k))]) == 0 by {
        assert [Pause(CoolDown(k))][1..] == [];
      }
      assert CountRounds([RoundRun(k)]) == 1 by {
        assert [RoundRun(k)][1..] == [];
      }
    }
  }

  /** Every pause comes right after a round that is not the last one of
      the run, and lasts that round's cool-down. */
  lemma {:induction false} RoundsPauses(k: int, n: int)
    ensures forall i :: 0 <= i < |Rounds(k, n)| && Rounds(k, n)[i].Pause? ==>
              i > 0 && Rounds(k, n)[i - 1].RoundRun? && Rounds(k, n)[i - 1].round < n &&
              Rounds(k, n)[i].seconds == CoolDown(Rounds(k, n)[i - 1].round)
    decreases k
  {
    if k >= 1 {
      var prefix := Rounds(k - 1, n);
      var tail := [RoundRun(k)] + (if k < n then [Pause(CoolDown(k))] else []);
      RoundsPauses(k - 1, n);
      var t := Rounds(k, n);
      assert t == prefix + tail;
      forall i | 0 <= i < |t| && t[i].Pause?
        ensures i > 0 && t[i - 1].RoundRun? && t[i - 1].round < n && t[i].seconds == CoolDown(t[i - 1].round)
      {
        if i < |prefix| {
          assert t[i] == prefix[i] && t[i - 1] == prefix[i - 1];
        } else {
          assert i - |prefix| == 1 && t[i - 1] == tail[0];
        }
      }
    }
  }

  /** The rounds run are 1 to `k`, in increasing order. */
  lemma {:induction false} RoundsOrder(k: int, n: int)
    ensures forall i :: 0 <= i < |Rounds(k, n)| && Rounds(k, n)[i].RoundRun? ==> 1 <= Rounds(k, n)[i].round <= k
    ensures forall i, j :: 0 <= i < j < |Rounds(k, n)| && Rounds(k, n)[i].RoundRun? && Rounds(k, n)[j].RoundRun? ==>
              Rounds(k, n)[i].round < Rounds(k, n)[j].round
    decreases k
  {
    if k >= 1 {
      var prefix := Rounds(k - 1, n);
      var tail := [RoundRun(k)] + (if k < n then [Pause(CoolDown(k))] else []);
      RoundsOrder(k - 1, n);
      var t := Rounds(k, n);
      assert t == prefix + tail;
      forall i | 0 <= i < |t| && t[i].RoundRun? ensures 1 <= t[i].round <= k {
        if i < |prefix| {
          assert t[i] == prefix[i];
        } else {
          assert t[i] == tail[i - |prefix|];
        }
      }
      forall i, j | 0 <= i < j < |t| && t[i].RoundRun? && t[j].RoundRun? ensures t[i].round < t[j].round {
        if j < |prefix| {
          assert t[i] == prefix[i] && t[j] == prefix[j];
        } else {
          assert t[j] == tail[j - |prefix|];
          if i < |prefix| {
            assert t[i] == prefix[i];
          }
        }
      }
    }
  }

  /** Consolidation happens exactly once, after the last round; a run makes
      `max(n, 0)` rounds. */
  lemma ScheduleSpec(n: int)
    ensures Schedule(n)[|Schedule(n)| - 1] == Consolidation
    ensures forall i :: 0 <= i < |Schedule(n)| - 1 ==> Schedule(n)[i] != Consolidation
    ensures CountRounds(Schedule(n)) == (if n >= 1 then n else 0)
  {
    RoundsCount(n, n);
    CountRoundsAppend(Rounds(n, n), [Consolidation]);
    assert forall i :: 0 <= i < |Schedule(n)| - 1 ==> Schedule(n)[i] == Rounds(n, n)[i];
  }
}
