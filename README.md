# TestCode.ai grading orchestrator — a Dafny model

This project models the decision logic of TestCode.ai's grading orchestrator
(`eval.py`) and its feedback mailer (`send_email.py`), and proves properties
of it.

The orchestrator, `GerenciadorAvaliacao`, does four things:

- It discovers one folder per student (`Name - login`) and reads the
  automatic grader's `execution.txt` there.
- It runs `llm_attempts` rounds. In each round one grading job per student
  calls a completion API with an adaptive retry loop and appends a tagged
  record to the student's history when the response is long enough.
- It prints a success count after every round.
- It consolidates every history into one final result: the highest or
  lowest total, or the mean, under the configured selection criterion.

The mailer groups the generated feedback files by login. It then sends each
student their files, trying `login@ufabc.edu.br` and then
`login@aluno.ufabc.edu.br`, and collects the students no address accepted.

Modules, one per file:

| file | module | what it models |
|---|---|---|
| maybe.dfy | `Maybe` | an `Option` type |
| pydict.dfy | `PyDict` | Python's insertion-ordered `dict` as a sequence of pairs with distinct keys |
| text.dfy | `Text` | `str.strip()`, `str.rsplit(sep, 1)`, ASCII `str.lower()`, string order and `sorted(key=...)` |
| extraction.dfy | `Extraction` | `_extrair_notas_questoes`, `_extrair_nota_final` and the job's `sum(...) or fallback` total |
| grading.dfy | `Grading` | history records, criterion normalisation and the consolidation rule |
| transport.dfy | `Transport` | `_chamar_api_com_retry_adaptativo` as a loop over scripted replies |
| pacing.dfy | `Pacing` | wave delays, cool-downs and the order of rounds and consolidation |
| moodle.dfy | `Moodle` | the `execution.txt` line parser and the percent-to-points conversion |
| history.dfy | `History` | histories after each round and the per-round success counts |
| evaluator.dfy | `Evaluator` | `SubmissaoAluno` and `GerenciadorAvaliacao` as classes: discovery, jobs, rounds, consolidation, the final partition |
| mailer.dfy | `Mailer` | `agrupar_arquivos_por_aluno` and the sending loop of `main` |

Outside effects become parameters:

- The network, `random.choice` and `random.uniform` of one API call are a
  `Transport.Draws` value. It gives, for each iteration of the retry loop,
  the reply, the index of the model drawn and the jitter.
- The rendered prompt, the draws of every job and the regex scans of a
  response text are an `Evaluator.World`.
- A folder listing is a sequence of `Evaluator.FolderEntry`. Each entry
  carries what `_encontrar_submissao_recente` and `_mapear_arquivos_questoes`
  found in it.
- The SMTP exchange is an `accepts: string -> bool` oracle over addresses.
- The missing-folder case of `os.listdir` is `listing == None`.

Sleeping is not performed. The computed timeouts, waits and delays are
returned as values or as traces of events.

Scores are `real`, so sums and means are exact. Jobs run one after the other
in list order. Each job touches only its own submission, so this leaves the
same state as the interleavings `asyncio.gather` allows.

## Model

| member | source | states |
|---|---|---|
| PyDict.PutGet | eval.py:456-458 | assigning a key keeps keys distinct, makes the key read back the new value and leaves every other key's value alone |
| PyDict.PutIsMapUpdate | eval.py:458 | on distinct keys, assigning a dict entry is a map update |
| PyDict.SumOfNonNegative | eval.py:321 | a sum of non-negative values is non-negative, and it is 0 exactly when every value is 0 |
| Text.StripSpec | eval.py:319 | the result is a slice of the input with only whitespace around it, and it neither starts nor ends with whitespace |
| Text.StripLeftSpec | eval.py:319 | stripping the left end keeps a suffix that does not start with whitespace, and everything dropped was whitespace |
| Text.StripRightSpec | eval.py:319 | stripping the right end keeps a prefix that does not end with whitespace, and everything dropped was whitespace |
| Text.StripUnchanged | eval.py:375 | a text that neither starts nor ends with whitespace strips to itself |
| Evaluator.AcceptedUntrimmed | eval.py:371-376 | a 200 reply whose content neither starts nor ends with whitespace is accepted exactly when the content itself is longer than 50 |
| Text.RSplitOnceSpec | eval.py:165-169 | the split fails exactly when `" - "` does not occur; otherwise the parts glue back around the separator and no later occurrence exists |
| Text.RSplitOnceUnique | send_email.py:66 | when the separator occurs after `left` and nowhere later, the split returns `left` and the rest |
| Text.Lower | eval.py:56 | same length, and each letter lower-cased position by position |
| Text.SortBy | eval.py:160 | the result is ordered by the key and is a permutation of the input |
| Text.SortByStable | eval.py:160 | the sort is stable: for every key, the elements with that key appear in the result in their input order, as Python's `sorted` keeps them (this matters for folder names that differ only in case) |
| Text.SortedByPairs | eval.py:160 | a list sorted by neighbours is sorted for every pair of positions |
| Extraction.ExtractQuestionScores | eval.py:450-463 | the loop builds the dictionary `ScoresOf` defines |
| Extraction.ScoresOfSpec | eval.py:452-462 | an id is kept exactly when one of its matches passes `0 <= nota <= maximo`; its score is the last such match's; keys are distinct; scores are non-negative |
| Extraction.ScoresOfLast | eval.py:456-458 | a later in-range match for an id overwrites an earlier one: the kept score is the last in-range match's |
| Extraction.FallbackTotal | eval.py:619-627 | the number of the first pattern that matched, or 0 when none did |
| Extraction.JobTotalSpec | eval.py:321 | the total is non-negative; it is the fallback when every kept score is 0 (including when none is kept), otherwise the positive per-question sum |
| Extraction.ExtractionScenario | eval.py:450-463 | an out-of-range match is dropped and does not overwrite; a zero score still counts as a key |
| Grading.NormalizePolicy | eval.py:56-60 | `lowest`/`average` exactly when the lower-cased value is that name; `highest` for that name, a missing key or any invalid value |
| Grading.NormalizePolicyNames | eval.py:56-60 | every spelling of a criterion's name in any letter case selects it; a missing key selects `highest` |
| Grading.FirstMaxIndex | eval.py:266 | the index of a largest total with no equal total before it, as Python's `max` picks |
| Grading.FirstMinIndex | eval.py:268 | the index of a smallest value with no equal value before it, as Python's `min` picks |
| Grading.MeanBounds | eval.py:270-271 | the mean lies between the smallest and the largest total |
| Grading.SelectedIndex | eval.py:264-279 | record 0 when at most one round is configured; otherwise the first highest, first lowest, or first nearest-to-mean record |
| Grading.Consolidated | eval.py:254-285 | an empty history gives `erro_sem_feedback`, grade 0 and the fixed message, and keeps the scores and prompt; otherwise `concluido`, with feedback, scores and prompt (default `''`) all from the record `SelectedIndex` picks for the criterion, whose total is the grade, except that under `average` with more than one attempt the grade is the mean of the totals |
| Grading.GradeWithinHistory | eval.py:264-281 | under every criterion the grade lies between the history's smallest and largest total, so it is non-negative when every total is |
| Grading.ExtremePolicies | eval.py:265-276 | under `highest` no total exceeds the grade; under `lowest` none is below it |
| Grading.AveragePolicy | eval.py:269-271 | under `average` the grade times the history length is the sum of the totals |
| Grading.HighestScenario | eval.py:265-266 | totals 70, 85, 40 under `highest` give 85 with the second record's feedback |
| Grading.AverageScenario | eval.py:269-273 | totals 60, 70, 80 under `average` give 70 with the second record's feedback |
| Transport.RateLimitWaitOf | eval.py:380 | the wait after a 429 is between 15 and 60 seconds |
| Transport.BackoffOf | eval.py:390 | the back-off is between 1 and 30 seconds |
| Transport.Iteration | eval.py:354-390 | one loop body returns exactly when the model list is non-empty and the reply is an accepted 200; then its content and events are those of the whole loop from this iteration on; otherwise the loop from here is this body's events followed by the next iteration's |
| Transport.CallWithRetry | eval.py:339-392 | the method returns what `Call` specifies: the response, the prompt and the event trace |
| Transport.RetryLoop | eval.py:353-392 | the `for` loop over iterations returns the content and the events `RetryFrom` gives from iteration 0 |
| Transport.RetryStep | eval.py:353-390 | an iteration either returns or prepends its failure events to the rest of the loop |
| Transport.RetryResult | eval.py:353-392 | the loop returns the content of the first accepted iteration, or nothing |
| Transport.RetryPosts | eval.py:353-371 | one POST per iteration run, none when the model list is empty |
| Transport.RetryTimeouts | eval.py:343-369 | the POST of iteration `r` has timeout `timeout_base + 20*r`, with a default base of 120 |
| Transport.RetryBackoffs | eval.py:389-390 | a back-off follows every failed iteration except the last |
| Transport.RetryWaitsBounded | eval.py:380-390 | every 429 wait is at most 60 s and every back-off at most 30 s |
| Transport.CallSpec | eval.py:346-392 | the prompt returned is the prompt given; without a key nothing is sent; with one, a response comes back exactly when one of the 3 iterations succeeds, and it is the first success's content, longer than 50 after stripping; at most 3 POSTs |
| Transport.RateLimitedThenSuccessScenario | eval.py:353-392 | 429, 500, then 200: timeouts 120, 140, 160; a 15 s wait and two back-offs; a 429 uses up an iteration |
| Transport.ServerErrorsScenario | eval.py:353-392 | three 500s: three POSTs and no response |
| Pacing.Wave | eval.py:299 | the wave number `w` satisfies `w*threads <= i < (w+1)*threads` |
| Pacing.WaveIsQuotient | eval.py:299 | the wave is `i // threads` |
| Pacing.WaveDelays | eval.py:297-300 | building a round fails exactly for negative threads or for 0 threads with tasks; otherwise one delay `2*(i // threads)` per task |
| Pacing.WaveDelaysSpec | eval.py:293-307 | with `threads >= 1`: exactly the first `threads` tasks start undelayed, delays never decrease, and no wave holds more than `threads` tasks |
| Pacing.WaveMonotone | eval.py:299 | a later task is never in an earlier wave |
| Pacing.CoolDown | eval.py:237 | after round `r >= 1` the pause is between 10 and 60 seconds |
| Pacing.RoundsCount | eval.py:227-239 | `k` rounds run, and the loop never consolidates |
| Pacing.RoundsPauses | eval.py:236-239 | every pause follows a round other than the last and lasts that round's cool-down |
| Pacing.RoundsOrder | eval.py:227-231 | the rounds run are 1 to `k` in increasing order |
| Pacing.ScheduleSpec | eval.py:227-244 | consolidation happens once, last, after `max(n, 0)` rounds |
| Moodle.ScanLines | eval.py:476-496 | the loop leaves the state `Scan` defines |
| Moodle.HeaderStep | eval.py:481-484 | a `- Question N:` line sets the current question to `"QN"` and changes nothing else |
| Moodle.PercentStep | eval.py:487-491 | a percentage is recorded only for a pending question, which it then clears |
| Moodle.ScanFinal | eval.py:494-496 | the final grade is the last grade line's; there is none exactly when no such line exists |
| Moodle.ScanKeys | eval.py:483-490 | recorded ids are distinct and all start with `Q` |
| Moodle.ConvertToPoints | eval.py:513-520 | the loop builds the dictionary `PointsOf` defines from the configured weights |
| Moodle.WeightsKeys | eval.py:516 | the weights hold exactly the configured ids, once each |
| Moodle.PointsOfSpec | eval.py:517-519 | a point entry exists exactly for a recorded id that has a weight, and it is that percentage of the weight |
| Moodle.ExtractMoodle | eval.py:465-509 | the method returns what `MoodleScores` specifies |
| Moodle.MoodleScoresSpec | eval.py:498-505 | a missing file gives two empty dicts; `'Final'` is in both dicts exactly when a grade line exists, with its value; other point ids are recorded and configured |
| Moodle.MoodleScenario | eval.py:472-505 | a worked file: an orphan percentage is ignored, the later grade wins, Q1 gets 1.6 points |
| History.Successes | eval.py:534 | the count never exceeds the number of submissions |
| History.SuccessesSpec | eval.py:534 | the count is 0 exactly when no history holds a record of the round, and full exactly when every history does |
| History.RecordsRounds | eval.py:327-330 | records of rounds 1..n carry such rounds, and carry round `r` exactly when that round's job recorded |
| History.RoundSuccessesAfterRuns | eval.py:534 | after round `k`, the count is the number of round-`k` jobs that recorded |
| History.SuccessesCount | eval.py:534 | when the histories hold a record of round `k` exactly where that round's job recorded, the count is the number of those jobs |
| History.ReportedSpec | eval.py:233-234 | the report of every round counts exactly the jobs of that round that recorded |
| Evaluator.JobRecordSpec | eval.py:314-330 | a job records exactly when a prompt was rendered and the API returned content; the record carries the round, the response, the sent prompt, the kept scores, and a non-negative total, which is the sum or the fallback when the sum is 0 |
| Evaluator.AdmitSpec | eval.py:160-179 | a folder is kept exactly when it is a directory whose name holds `" - "`, with a submission and question files; name and login glue back around the last `" - "` |
| Evaluator.AdmittedMembers | eval.py:160-191 | the kept folders are exactly the listed ones that qualify |
| Evaluator.AdmittedSorted | eval.py:160 | dropping folders from a sorted listing keeps it sorted |
| Evaluator.DiscoveryOrder | eval.py:160-191 | discovery keeps exactly the qualifying folders, ordered by lower-cased name |
| Evaluator.ConcludedSpec | eval.py:541 | the concluded list holds only `concluido` records of the list, and every one of them |
| Evaluator.UnconcludedSpec | eval.py:542 | the pending list holds only records of the list that are not `concluido`, and every one of them |
| Evaluator.ReportPartition | eval.py:541-542 | the two lists split the submissions: their multisets sum to the list's |
| Evaluator.ReportCounts | eval.py:541-548 | the two counts of the final report add up to the number of submissions |
| Evaluator.Submission.constructor | eval.py:29-43 | a new record holds the given fields and the dataclass defaults |
| Evaluator.Submission.Consolidate | eval.py:254-285 | the five written fields become `Consolidated` of the history and the old fields; history and API count stay |
| Evaluator.Manager.constructor | eval.py:54-60 | `llm_attempts` defaults to 1 and the criterion is normalised; a new manager has no submissions |
| Evaluator.Manager.Discover | eval.py:154-195 | the submission list is replaced by one fresh, untouched record per kept folder, in visiting order, with its name, login, folder, files and Moodle scores |
| Evaluator.Manager.Visit | eval.py:161-191 | a record is made exactly for a kept folder, and it describes that folder |
| Evaluator.Manager.OutcomesTagged | eval.py:327 | every job tags its record with its round |
| Evaluator.Manager.OutcomesNonNegative | eval.py:319-321 | no job records a negative total |
| Evaluator.RecordsNonNegative | eval.py:321-330 | the records of rounds 1 to `n` all have non-negative totals when every job's record does |
| Evaluator.Manager.RecordedGradeNonNegative | eval.py:223-244 | a student whose history is exactly what the rounds recorded, and who has at least one record, is consolidated as `concluido` with a grade of at least 0, under every criterion |
| Evaluator.Manager.RunJob | eval.py:311-337 | the API count rises by exactly 1; the history gains that job's record, if any; the consolidated fields are untouched |
| Evaluator.Manager.Consolidate | eval.py:246-289 | every submission's fields become `Consolidated` of its history; histories and counts stay |
| Evaluator.Manager.ProcessRound | eval.py:291-301 | the delays are those of `WaveDelays`; if the round cannot be built nothing changes; otherwise every submission gets one more call and its round record |
| Evaluator.Manager.RoundSuccesses | eval.py:534 | the round's success count is at most the number of submissions |
| Evaluator.Manager.ReportRound | eval.py:533-538 | the count printed is the next entry of `Reported` |
| Evaluator.Manager.NextRound | eval.py:231-234 | a round and its report: the delays are `WaveDelays`; a round that cannot be built changes nothing; otherwise every submission gains one call and the round's record, and the count extends `Reported` |
| Evaluator.Manager.RoundLoop | eval.py:227-239 | the round loop aborts, changing nothing, exactly when the first round cannot be built; otherwise it runs rounds 1..n with their cool-downs, every submission gains n calls and the records of rounds 1..n, and the counts are `Reported` |
| Evaluator.Manager.RunRounds | eval.py:227-239 | rounds 1..n with their cool-downs; histories gain their records in round order; each count is that round's; a round that cannot be built aborts with nothing changed |
| Evaluator.Manager.ProcessAll | eval.py:223-244 | the schedule ends with one consolidation; every field is `Consolidated` of the full history; the counts are the per-round ones; a student is concluded exactly when their history is non-empty |
| Mailer.ParseFileNameSpec | send_email.py:66-72 | the parse returns the groups exactly when the file name matches the pattern with them |
| Mailer.ParseSound | send_email.py:66-72 | a parsed name matches the pattern with its groups |
| Mailer.ParseComplete | send_email.py:66-72 | a name that matches the pattern parses to those groups |
| Mailer.DisplayName | send_email.py:73 | same length, every `_` becomes a space, and everything else is kept |
| Mailer.Join | send_email.py:75 | the path starts with the folder and ends with the file name |
| Mailer.Grouped | send_email.py:69-76 | the logins of the grouping are distinct |
| Mailer.GroupedSpec | send_email.py:69-76 | one entry per login that some matching file has; it lists all of that login's files in visiting order and takes its name from the last of them; unmatched names are ignored |
| Mailer.GroupByLogin | send_email.py:64-81 | a missing folder gives `{}`; otherwise it gives the grouping of the sorted listing |
| Mailer.GroupNames | send_email.py:69-76 | the loop builds the grouping `Grouped` defines |
| Mailer.AttemptedSpec | send_email.py:140-158 | the addresses tried are a prefix of the list and all but the last were refused; delivery happens exactly when some address accepts; with no acceptance every address is tried |
| Mailer.TryInOrder | send_email.py:139-158 | the loop tries the addresses `Attempted` defines, and it reports success exactly when some address accepts |
| Mailer.TriedAllBounds | send_email.py:130-158 | each student gets one or two attempts, and the first is to `@ufabc.edu.br` |
| Mailer.Failures | send_email.py:160-161 | there is at most one failure line per student |
| Mailer.FailuresSpec | send_email.py:130-162 | the line of every student no address accepted is listed, every listed line names such a student, and the list is empty exactly when all were reached |
| Mailer.SendInOrder | send_email.py:130-162 | the loop tries the addresses `TriedAll` defines and collects the lines `Failures` defines |
| Mailer.SendAll | send_email.py:128-162 | students are processed in login order |
| Mailer.SendFeedback | send_email.py:122-162 | group, then send to the grouped students in login order |
| Mailer.FailedStudentsListed | send_email.py:130-161 | sorting does not change who is listed: exactly the students no address accepted |

## Left out

- Concurrency: `asyncio.Semaphore`, `asyncio.gather`, the start delays' real sleeps, and the cool-down and retry sleeps. Jobs run in list order, which gives the same final state because each job touches only its own submission. The delays and waits are values.
- An exception raised inside a job (eval.py:336-337) is modelled only for a prompt that cannot be rendered. The extraction and API call code the model covers cannot raise.
- The network and JSON decoding: the reply of each POST is given. It is either a status code with the extracted `choices[0].message.content`, or an exception. `random.choice(models)` and `random.uniform(0, 5)` are given draws.
- The regular-expression engine in eval.py: the question-score matches, the three fallback searches and the three `execution.txt` searches arrive already matched. The file-name pattern of send_email.py is parsed by hand.
- The filesystem and the environment: directory walking, `glob`, `st_mtime`, `_encontrar_submissao_recente`, `_mapear_arquivos_questoes`, `_encontrar_arquivo_execution` and file reads are inputs of `FolderEntry`. The same holds for `os.listdir`, dotenv and `os.getenv`, a YAML configuration with missing sections (`KeyError`) and `sys.exit`.
- `_montar_prompt`, its templates and `datetime.now()`: the rendered prompt is an input.
- Logging, pickle state saving and loading, the retry-queue file, `salvar_feedbacks_finais`, the pandas/scipy statistics and the Excel and console reports.
- `Moodle.ConvertToPoints`: it does not model `round(…, 2)`, because that is floating-point; the points are exact.
- `Text.Lower`: it lower-cases ASCII letters only. A folder name with non-ASCII capitals may therefore sort differently than under Python's full Unicode `lower()`. Criterion normalisation is unaffected, because the three valid names are ASCII.
- `Mailer.Join`: it matches `os.path.join` only for a name without `/` that is not absolute, which holds for every name `os.listdir` returns.
- `Mailer.SendFeedback`: it leaves out the SMTP/TLS session, MIME building, attachments, the message text, the check of the `EMAIL_*` variables and the writing of `falhas_envio.txt`.
- monitor.py is not part of this model.
- `History.Reported`: its own contract states only the number of counts. The meaning of each count is stated by `History.ReportedSpec`.
- `Mailer.Grouped`: its own contract states only that logins are distinct. Its contents are stated by `Mailer.GroupedSpec`.
- `Text.Strip`: its own contract states only a length bound. The slice and whitespace properties are stated by `Text.StripSpec`.
- `Text.StripLeft`: its own contract states only a length bound. Its meaning is stated by `Text.StripLeftSpec`.
- `Text.StripRight`: its own contract states only a length bound. Its meaning is stated by `Text.StripRightSpec`.
- `Text.LastOccurrenceBefore`: its own contract states only that a found position is an occurrence below the bound. That it is the right-most one is stated by `Text.LastOccurrenceBeforeSpec`.
- `Evaluator.Admitted`: its own contract states only a length bound. Which folders are kept is stated by `Evaluator.AdmittedMembers`.
- `Evaluator.Concluded`: its own contract states only a length bound. Its contents are stated by `Evaluator.ConcludedSpec`.
- `Evaluator.Unconcluded`: its own contract states only a length bound. Its contents are stated by `Evaluator.UnconcludedSpec`.
