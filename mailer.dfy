/** The feedback mailer (send_email.py): grouping the feedback files of
    `output/feedbacks` by student login, and sending each student one
    message, trying the two institutional addresses in order. The SMTP
    exchange is a parameter: `accepts` says whether sending to an address
    succeeded. */
module Mailer {

  import opened Maybe
  import opened PyDict
  import opened Text

  /** The three groups of the file-name pattern: the raw student name, the
      login and the file kind (`feedback`, `prompt`, ...). */
  datatype Parsed = Parsed(rawName: string, login: string, kind: string)

  predicate IsLetter(c: char) {
    'a' <= c <= 'z' || 'A' <= c <= 'Z'
  }

  /** `[a-zA-Z0-9\.]`. */
  predicate IsLoginChar(c: char) {
    IsLetter(c) || '0' <= c <= '9' || c == '.'
  }

  predicate AllLetters(s: string) {
    forall i :: 0 <= i < |s| ==> IsLetter(s[i])
  }

  predicate AllLoginChars(s: string) {
    forall i :: 0 <= i < |s| ==> IsLoginChar(s[i])
  }

  predicate NoNewline(s: string) {
    forall i :: 0 <= i < |s| ==> s[i] != '\n'
  }

  /** The name the pattern's groups spell, without the extension. */
  function Stem(p: Parsed): string {
    p.rawName + "_" + p.login + "_" + p.kind
  }

  /** The groups' own character classes: the name holds no line break,
      the login is a non-empty run of `[a-zA-Z0-9\.]` and the kind a
      non-empty run of letters. */
  predicate GroupsWellFormed(p: Parsed) {
    NoNewline(p.rawName) && p.login != [] && AllLoginChars(p.login) && p.kind != [] && AllLetters(p.kind)
  }

  /** What `^(.*?)_([a-zA-Z0-9\.]+)_([a-zA-Z]+)\.txt$` accepts under
      `re.match`, with the groups `p`: `.` does not match a line break and
      `$` also matches before one final line break. */
  predicate Matches(f: string, p: Parsed) {
    (f == Stem(p) + ".txt" || f == Stem(p) + ".txt\n") && GroupsWellFormed(p)
  }

  /** The name without the one final line break `$` lets through. */
  function DropFinalNewline(f: string): (r: string)
    ensures f == r || f == r + "\n"
  {
    if f != [] && f[|f| - 1] == '\n' then f[..|f| - 1] else f
  }

  /** The groups read off a name without its `.txt`: the kind lies after
      the last `_`, the login between the last two, the name before
      them. */
  function ParseStem(stem: string): Option<Parsed> {
    match RSplitOnce(stem, "_")
    case None => None
    case Some((front, kind)) =>
      match RSplitOnce(front, "_")
      case None => None
      case Some((raw, login)) =>
        var p := Parsed(raw, login, kind);
        if GroupsWellFormed(p) then Some(p) else None
  }

  /** The file-name parse, by hand. */
  function ParseFileName(f: string): Option<Parsed> {
    var core := DropFinalNewline(f);
    if |core| < 4 || core[|core| - 4..] != ".txt" then None
    else ParseStem(core[..|core| - 4])
  }

  /** The parse finds the groups exactly when the pattern matches with
      them; as the login and the kind hold no `_`, the groups of a match
      are unique. */
  lemma ParseFileNameSpec(f: string, p: Parsed)
    ensures ParseFileName(f) == Some(p) <==> Matches(f, p)
  {
    if ParseFileName(f) == Some(p) {
      ParseSound(f);
    }
    if Matches(f, p) {
      ParseComplete(f, p);
    }
  }

  lemma ParseSound(f: string)
    requires ParseFileName(f).Some?
    ensures Matches(f, ParseFileName(f).value)
  {
    var core := DropFinalNewline(f);
    var stem := core[..|core| - 4];
    assert core == stem + ".txt";
    StemSound(stem);
  }

  /** What the stem parse finds spells the stem and is well formed. */
  lemma StemSound(stem: string)
    requires ParseStem(stem).Some?
    ensures Stem(ParseStem(stem).value) == stem && GroupsWellFormed(ParseStem(stem).value)
  {
    RSplitOnceSpec(stem, "_");
    var (front, kind) := RSplitOnce(stem, "_").value;
    RSplitOnceSpec(front, "_");
  }

  lemma ParseComplete(f: string, p: Parsed)
    requires Matches(f, p)
    ensures ParseFileName(f) == Some(p)
  {
    var core := DropFinalNewline(f);
    var stem := Stem(p);
    assert core == stem + ".txt" by {
      if f == stem + ".txt\n" {
        assert f[..|f| - 1] == stem + ".txt";
      } else {
        assert f[|f| - 1] == 't';
      }
    }
    assert core[|core| - 4..] == ".txt" && core[..|core| - 4] == stem;
    StemComplete(p);
  }

  /** The stem the groups of a match spell parses back to them. */
  lemma StemComplete(p: Parsed)
    requires GroupsWellFormed(p)
    ensures ParseStem(Stem(p)) == Some(p)
  {
    var front := p.rawName + "_" + p.login;
    assert Stem(p) == front + "_" + p.kind;
    assert forall i :: 0 <= i < |p.kind| ==> p.kind[i] != '_';
    NoUnderscoreAfter(Stem(p), front, p.kind);
    RSplitOnceUnique(Stem(p), "_", front, p.kind);
    assert forall i :: 0 <= i < |p.login| ==> p.login[i] != '_';
    NoUnderscoreAfter(front, p.rawName, p.login);
    RSplitOnceUnique(front, "_", p.rawName, p.login);
  }

  /** No `_` starts after the one that follows `left` when `right` holds
      none. */
  lemma NoUnderscoreAfter(s: string, left: string, right: string)
    requires s == left + "_" + right
    requires forall i :: 0 <= i < |right| ==> right[i] != '_'
    ensures forall j :: |left| < j < |s| ==> !OccursAt(s, "_", j)
  {
    forall j | |left| < j < |s| ensures !OccursAt(s, "_", j) {
      assert s[j] == right[j - |left| - 1];
      assert j + 1 <= |s| ==> s[j..j + 1] == [s[j]];
    }
  }

  /** `nome_aluno_bruto.replace('_', ' ')`: the same text with every `_`
      turned into a space. */
  function DisplayName(raw: string): (r: string)
    ensures |r| == |raw|
    ensures forall i :: 0 <= i < |r| ==> r[i] != '_'
    ensures forall i :: 0 <= i < |raw| && raw[i] != '_' ==> r[i] == raw[i]
    ensures forall i :: 0 <= i < |raw| && raw[i] == '_' ==> r[i] == ' '
  {
    seq(|raw|, i requires 0 <= i < |raw| => if raw[i] == '_' then ' ' else raw[i])
  }

  /** `os.path.join(base, name)` for a name taken from a directory listing,
      which never holds a `/`. */
  function Join(base: string, name: string): (r: string)
    ensures |r| >= |name| && r[|r| - |name|..] == name
    ensures |r| >= |base| && r[..|base|] == base
  {
    if base == [] then name
    else if base[|base| - 1] == '/' then base + name
    else base + "/" + name
  }

  /** One entry of the grouping: `{"nome": ..., "arquivos": [...]}`. */
  datatype Student = Student(name: string, files: seq<string>)

  /** The files grouped so far under `login`. */
  function FilesIn(g: Dict<Student>, login: string): seq<string> {
    if login in Keys(g) then Get(g, login).files else []
  }

  /** The grouping `agrupar_arquivos_por_aluno` builds from the file
      names, in the order it visits them. */
  function Grouped(base: string, names: seq<string>): (g: Dict<Student>)
    ensures UniqueKeys(g)
  {
    if names == [] then []
    else
      var g0 := Grouped(base, names[..|names| - 1]);
      var f := names[|names| - 1];
      match ParseFileName(f)
      case None => g0
      case Some(p) =>
        var entry := Student(DisplayName(p.rawName), FilesIn(g0, p.login) + [Join(base, f)]);
        PutGet(g0, p.login, entry);
        Put(g0, p.login, entry)
  }

  /** Independent of the grouping: the names with login `login`, joined to
      `base`, in order. */
  function FilesOf(base: string, names: seq<string>, login: string): seq<string> {
    if names == [] then []
    else
      var f := names[|names| - 1];
      var m := ParseFileName(f);
      FilesOf(base, names[..|names| - 1], login) + (if m.Some? && m.value.login == login then [Join(base, f)] else [])
  }

  /** The raw name in the last name with login `login`. */
  function LastRawName(names: seq<string>, login: string): Option<string> {
    if names == [] then None
    else
      var m := ParseFileName(names[|names| - 1]);
      if m.Some? && m.value.login == login then Some(m.value.rawName)
      else LastRawName(names[..|names| - 1], login)
  }

  /** The grouping has an entry for a login exactly when some name
      matches with it. */
  lemma {:induction false} GroupedKeys(base: string, names: seq<string>)
    ensures forall l :: l in Keys(Grouped(base, names)) <==> LastRawName(names, l).Some?
  {
    if names != [] {
      var init, f := names[..|names| - 1], names[|names| - 1];
      GroupedKeys(base, init);
      var g0 := Grouped(base, init);
      var m := ParseFileName(f);
      if m.Some? {
        var p := m.value;
        var entry := Student(DisplayName(p.rawName), FilesIn(g0, p.login) + [Join(base, f)]);
        assert Grouped(base, names) == Put(g0, p.login, entry);
      }
    }
  }

  /** Each entry lists all of its login's files in visiting order and
      takes its display name from the last of them. */
  lemma {:induction false} GroupedEntries(base: string, names: seq<string>)
    ensures forall l :: l in Keys(Grouped(base, names)) ==>
              Get(Grouped(base, names), l).files == FilesOf(base, names, l) &&
              LastRawName(names, l).Some? &&
              Get(Grouped(base, names), l).name == DisplayName(LastRawName(names, l).value)
  {
    GroupedKeys(base, names);
    if names != [] {
      var init, f := names[..|names| - 1], names[|names| - 1];
      GroupedEntries(base, init);
      GroupedKeys(base, init);
      var g0 := Grouped(base, init);
      var m := ParseFileName(f);
      if m.Some? {
        var p := m.value;
        var entry := Student(DisplayName(p.rawName), FilesIn(g0, p.login) + [Join(base, f)]);
        PutGet(g0, p.login, entry);
        assert Grouped(base, names) == Put(g0, p.login, entry);
        if p.login !in Keys(g0) {
          FilesOfEmpty(base, init, p.login);
        }
      }
    }
  }

  /** A login has no files exactly when no name matches with it. */
  lemma {:induction false} FilesOfEmpty(base: string, names: seq<string>, l: string)
    ensures FilesOf(base, names, l) == [] <==> LastRawName(names, l).None?
  {
    if names != [] {
      FilesOfEmpty(base, names[..|names| - 1], l);
    }
  }

  /** The grouping has one entry per login some name matches with; the
      entry lists all of that login's files in visiting order and takes
      its display name from the last of them. */
  lemma GroupedSpec(base: string, names: seq<string>)
    ensures forall l :: l in Keys(Grouped(base, names)) <==> LastRawName(names, l).Some?
    ensures forall l :: l in Keys(Grouped(base, names)) ==>
              Get(Grouped(base, names), l).files == FilesOf(base, names, l) &&
              Get(Grouped(base, names), l).name == DisplayName(LastRawName(names, l).value)
    ensures forall l :: l !in Keys(Grouped(base, names)) ==> FilesOf(base, names, l) == []
  {
    GroupedKeys(base, names);
    GroupedEntries(base, names);
    forall l | l !in Keys(Grouped(base, names)) ensures FilesOf(base, names, l) == [] {
      FilesOfEmpty(base, names, l);
    }
  }

  /** The sort key of `sorted(os.listdir(...))`: the name itself. */
  function NameKey(f: string): string {
    f
  }

  /** `agrupar_arquivos_por_aluno(pasta_base)`, with the directory listing
      given: `None` when the folder does not exist, which yields `{}`. */
  method GroupByLogin(base: string, listing: Option<seq<string>>) returns (students: Dict<Student>)
    ensures listing.None? ==> students == []
    ensures listing.Some? ==> students == Grouped(base, SortBy(listing.value, NameKey))
  {
    if listing.None? {
      return [];
    }
    students := GroupNames(base, SortBy(listing.value, NameKey));
  }

  /** The loop of `agrupar_arquivos_por_aluno` over the names in visiting
      order. */
  method GroupNames(base: string, names: seq<string>) returns (students: Dict<Student>)
    ensures students == Grouped(base, names)
  {
    students := [];
    for k := 0 to |names|
      invariant students == Grouped(base, names[..k])
    {
      assert names[..k + 1][..k] == names[..k];
      var f := names[k];
      var m := ParseFileName(f);
      if m.Some? {
        var p := m.value;
        var files := if p.login in Keys(students) then Get(students, p.login).files else [];
        students := Put(students, p.login, Student(DisplayName(p.rawName), files + [Join(base, f)]));
      }
    }
    assert names[..|names|] == names;
  }

  /** `[f"{login}@ufabc.edu.br", f"{login}@aluno.ufabc.edu.br"]`. */
  function Addresses(login: string): seq<string> {
    [login + "@ufabc.edu.br", login + "@aluno.ufabc.edu.br"]
  }

  /** The addresses tried when trying `targets` in order and stopping at
      the first that accepts. */
  function Attempted(targets: seq<string>, accepts: string -> bool): seq<string> {
    if targets == [] then []
    else [targets[0]] + (if accepts(targets[0]) then [] else Attempted(targets[1..], accepts))
  }

  /** Tried addresses form a prefix of the list, at least one when there
      is any, and every one but the last was refused. */
  lemma {:induction false} AttemptedPrefix(targets: seq<string>, accepts: string -> bool)
    ensures var a := Attempted(targets, accepts);
            && |a| <= |targets| && a == targets[..|a|]
            && (targets != [] ==> a != [])
            && (forall i :: 0 <= i < |a| - 1 ==> !accepts(a[i]))
  {
    if targets != [] && !accepts(targets[0]) {
      AttemptedPrefix(targets[1..], accepts);
      var a, rest := Attempted(targets, accepts), Attempted(targets[1..], accepts);
      assert a == [targets[0]] + rest;
      assert forall i :: 0 <= i < |a| - 1 ==> a[i] == targets[0] || a[i] == rest[i - 1];
    }
  }

  /** The last address tried was accepted exactly when some address
      accepts. */
  lemma {:induction false} AttemptedOutcome(targets: seq<string>, accepts: string -> bool)
    ensures var a := Attempted(targets, accepts);
            (exists i :: 0 <= i < |targets| && accepts(targets[i])) <==> a != [] && accepts(a[|a| - 1])
  {
    if targets != [] && !accepts(targets[0]) {
      AttemptedOutcome(targets[1..], accepts);
      var rest := Attempted(targets[1..], accepts);
      assert Attempted(targets, accepts) == [targets[0]] + rest;
      if exists i :: 0 <= i < |targets| && accepts(targets[i]) {
        var i :| 0 <= i < |targets| && accepts(targets[i]);
        assert targets[1..][i - 1] == targets[i];
      }
      if exists i :: 0 <= i < |targets[1..]| && accepts(targets[1..][i]) {
        var i :| 0 <= i < |targets[1..]| && accepts(targets[1..][i]);
        assert targets[i + 1] == targets[1..][i];
      }
    }
  }

  /** When no address accepts, every address is tried. */
  lemma {:induction false} AttemptedAll(targets: seq<string>, accepts: string -> bool)
    requires forall i :: 0 <= i < |targets| ==> !accepts(targets[i])
    ensures Attempted(targets, accepts) == targets
  {
    if targets != [] {
      assert forall i :: 0 <= i < |targets[1..]| ==> targets[1..][i] == targets[i + 1];
      AttemptedAll(targets[1..], accepts);
      assert targets == [targets[0]] + targets[1..];
    }
  }

  /** Tried addresses form a prefix of the list; every one but the last was
      refused; the last was accepted exactly when some address accepts,
      and otherwise every address was tried. */
  lemma AttemptedSpec(targets: seq<string>, accepts: string -> bool)
    ensures var a := Attempted(targets, accepts);
            && |a| <= |targets| && a == targets[..|a|]
            && (targets != [] ==> a != [])
            && (forall i :: 0 <= i < |a| - 1 ==> !accepts(a[i]))
            && ((exists i :: 0 <= i < |targets| && accepts(targets[i])) <==> a != [] && accepts(a[|a| - 1]))
            && ((forall i :: 0 <= i < |targets| ==> !accepts(targets[i])) ==> a == targets)
  {
    AttemptedPrefix(targets, accepts);
    AttemptedOutcome(targets, accepts);
    if forall i :: 0 <= i < |targets| ==> !accepts(targets[i]) {
      AttemptedAll(targets, accepts);
    }
  }

  /** The inner loop of `main`: send to each address in order until the
      server accepts one. */
  method TryInOrder(targets: seq<string>, accepts: string -> bool) returns (tried: seq<string>, sent: bool)
    ensures tried == Attempted(targets, accepts)
    ensures sent <==> exists i :: 0 <= i < |targets| && accepts(targets[i])
  {
    tried, sent := [], false;
    var i := 0;
    while i < |targets|
      invariant 0 <= i <= |targets|
      invariant tried + Attempted(targets[i..], accepts) == Attempted(targets, accepts)
      invariant forall j :: 0 <= j < i ==> !accepts(targets[j])
      decreases |targets| - i
    {
      tried := tried + [targets[i]];
      if accepts(targets[i]) {
        sent := true;
        assert Attempted(targets[i..], accepts) == [targets[i]];
        return;
      }
      assert Attempted(targets[i..], accepts) == [targets[i]] + Attempted(targets[i + 1..], accepts);
      i := i + 1;
    }
  }

  /** The line `falhas_gerais` keeps for a student nothing reached. */
  function FailureLine(name: string, login: string): string {
    name + " (" + login + ")"
  }

  /** Some address of the login accepts. */
  predicate Delivered(login: string, accepts: string -> bool) {
    exists i :: 0 <= i < 2 && accepts(Addresses(login)[i])
  }

  /** Every address tried for the students, in order. */
  function TriedAll(order: Dict<Student>, accepts: string -> bool): seq<string> {
    if order == [] then []
    else TriedAll(order[..|order| - 1], accepts) + Attempted(Addresses(order[|order| - 1].0), accepts)
  }

  /** Every student is tried at least once and at most twice, and the
      first address tried for each is the `@ufabc.edu.br` one. */
  lemma {:induction false} TriedAllBounds(order: Dict<Student>, accepts: string -> bool)
    ensures |order| <= |TriedAll(order, accepts)| <= 2 * |order|
    ensures order != [] ==> TriedAll(order, accepts)[0] == order[0].0 + "@ufabc.edu.br"
  {
    if order != [] {
      var init, last := order[..|order| - 1], order[|order| - 1];
      TriedAllBounds(init, accepts);
      AttemptedSpec(Addresses(last.0), accepts);
      if init != [] {
        assert init[0] == order[0];
      } else {
        assert TriedAll(init, accepts) == [];
      }
    }
  }

  /** `falhas_gerais` after the students of `order`. */
  function Failures(order: Dict<Student>, accepts: string -> bool): (r: seq<string>)
    ensures |r| <= |order|
  {
    if order == [] then []
    else
      var (login, data) := order[|order| - 1];
      Failures(order[..|order| - 1], accepts) + (if Delivered(login, accepts) then [] else [FailureLine(data.name, login)])
  }

  /** Every student neither of whose addresses accepts is listed. */
  lemma {:induction false} FailuresComplete(order: Dict<Student>, accepts: string -> bool)
    ensures forall k :: 0 <= k < |order| && !Delivered(order[k].0, accepts) ==>
              FailureLine(order[k].1.name, order[k].0) in Failures(order, accepts)
  {
    if order != [] {
      var init := order[..|order| - 1];
      FailuresComplete(init, accepts);
      var (login, data) := order[|order| - 1];
      var f0, f := Failures(init, accepts), Failures(order, accepts);
      assert f == f0 + (if Delivered(login, accepts) then [] else [FailureLine(data.name, login)]);
      forall k | 0 <= k < |order| && !Delivered(order[k].0, accepts)
        ensures FailureLine(order[k].1.name, order[k].0) in f
      {
        if k < |init| {
          assert order[k] == init[k];
          assert FailureLine(order[k].1.name, order[k].0) in f0;
        }
      }
    }
  }

  /** Every listed line names a student neither of whose addresses
      accepts. */
  lemma {:induction false} FailuresSound(order: Dict<Student>, accepts: string -> bool)
    ensures forall j :: 0 <= j < |Failures(order, accepts)| ==>
              exists k :: 0 <= k < |order| && !Delivered(order[k].0, accepts) &&
                Failures(order, accepts)[j] == FailureLine(order[k].1.name, order[k].0)
  {
    if order != [] {
      var init := order[..|order| - 1];
      FailuresSound(init, accepts);
      var (login, data) := order[|order| - 1];
      var f0, f := Failures(init, accepts), Failures(order, accepts);
      assert f == f0 + (if Delivered(login, accepts) then [] else [FailureLine(data.name, login)]);
      forall j | 0 <= j < |f|
        ensures exists k :: 0 <= k < |order| && !Delivered(order[k].0, accepts) &&
                  f[j] == FailureLine(order[k].1.name, order[k].0)
      {
        if j < |f0| {
          var k :| 0 <= k < |init| && !Delivered(init[k].0, accepts) && f0[j] == FailureLine(init[k].1.name, init[k].0);
          assert order[k] == init[k] && f[j] == f0[j];
        } else {
          var k := |order| - 1;
          assert !Delivered(order[k].0, accepts);
          assert f[j] == FailureLine(order[k].1.name, order[k].0);
        }
      }
    } else {
      assert Failures(order, accepts) == [];
    }
  }

  /** A student is listed as a failure exactly when neither address
      accepts, every listed line names such a student, and the list is
      empty exactly when every student was reached. */
  lemma FailuresSpec(order: Dict<Student>, accepts: string -> bool)
    ensures forall k :: 0 <= k < |order| && !Delivered(order[k].0, accepts) ==>
              FailureLine(order[k].1.name, order[k].0) in Failures(order, accepts)
    ensures forall j :: 0 <= j < |Failures(order, accepts)| ==>
              exists k :: 0 <= k < |order| && !Delivered(order[k].0, accepts) &&
                Failures(order, accepts)[j] == FailureLine(order[k].1.name, order[k].0)
    ensures Failures(order, accepts) == [] <==> forall k :: 0 <= k < |order| ==> Delivered(order[k].0, accepts)
  {
    FailuresComplete(order, accepts);
    FailuresSound(order, accepts);
    if Failures(order, accepts) != [] {
      var line := Failures(order, accepts)[0];
      var k :| 0 <= k < |order| && !Delivered(order[k].0, accepts) && line == FailureLine(order[k].1.name, order[k].0);
    }
  }

  /** The order of `sorted(alunos_para_enviar.items())`: logins are unique,
      so comparing the pairs compares the logins. */
  function LoginKey(entry: (string, Student)): string {
    entry.0
  }

  /** The sending loop of `main`, students in login order. */
  method SendAll(students: Dict<Student>, accepts: string -> bool) returns (tried: seq<string>, failures: seq<string>)
    ensures tried == TriedAll(SortBy(students, LoginKey), accepts)
    ensures failures == Failures(SortBy(students, LoginKey), accepts)
  {
    tried, failures := SendInOrder(SortBy(students, LoginKey), accepts);
  }

  method SendInOrder(order: Dict<Student>, accepts: string -> bool) returns (tried: seq<string>, failures: seq<string>)
    ensures tried == TriedAll(order, accepts)
    ensures failures == Failures(order, accepts)
  {
    tried, failures := [], [];
    for k := 0 to |order|
      invariant tried == TriedAll(order[..k], accepts)
      invariant failures == Failures(order[..k], accepts)
    {
      assert order[..k + 1][..k] == order[..k];
      var (login, data) := order[k];
      var targets := Addresses(login);
      var attempts, sent := TryInOrder(targets, accepts);
      tried := tried + attempts;
      if !sent {
        failures := failures + [FailureLine(data.name, login)];
      }
    }
    assert order[..|order|] == order;
  }

  /** `main` once its settings are present: group the files, stop when no
      student has any, and otherwise send to every student in login order,
      returning the addresses tried and the failure lines. */
  method SendFeedback(base: string, listing: Option<seq<string>>, accepts: string -> bool)
    returns (tried: seq<string>, failures: seq<string>)
    ensures var students := if listing.None? then [] else Grouped(base, SortBy(listing.value, NameKey));
            && tried == TriedAll(SortBy(students, LoginKey), accepts)
            && failures == Failures(SortBy(students, LoginKey), accepts)
  {
    var students := GroupByLogin(base, listing);
    if students == [] {
      return [], [];
    }
    tried, failures := SendAll(students, accepts);
  }

  /** Sorting the students does not change who ends up in the failure
      list: a student's line is listed exactly when neither of their
      addresses accepts, and every line names such a student. */
  lemma FailedStudentsListed(students: Dict<Student>, accepts: string -> bool)
    ensures forall k :: 0 <= k < |students| && !Delivered(students[k].0, accepts) ==>
              FailureLine(students[k].1.name, students[k].0) in Failures(SortBy(students, LoginKey), accepts)
    ensures forall line :: line in Failures(SortBy(students, LoginKey), accepts) ==>
              exists k :: 0 <= k < |students| && !Delivered(students[k].0, accepts) &&
                line == FailureLine(students[k].1.name, students[k].0)
    ensures |Failures(SortBy(students, LoginKey), accepts)| <= |students|
  {
    var order := SortBy(students, LoginKey);
    var f := Failures(order, accepts);
    FailuresSpec(order, accepts);
    assert multiset(order) == multiset(students);
    forall k | 0 <= k < |students| && !Delivered(students[k].0, accepts)
      ensures FailureLine(students[k].1.name, students[k].0) in f
    {
      assert students[k] in multiset(order);
      var m :| 0 <= m < |order| && order[m] == students[k];
    }
    forall line | line in f
      ensures exists k :: 0 <= k < |students| && !Delivered(students[k].0, accepts) &&
                line == FailureLine(students[k].1.name, students[k].0)
    {
      var j :| 0 <= j < |f| && f[j] == line;
      var m :| 0 <= m < |order| && !Delivered(order[m].0, accepts) && f[j] == FailureLine(order[m].1.name, order[m].0);
      assert order[m] in multiset(students);
      var k :| 0 <= k < |students| && students[k] == order[m];
    }
    assert |order| == |multiset(order)| == |students|;
  }
}
