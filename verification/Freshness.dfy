/** Which (entry key, data counter) pairs are bound into ciphertexts, and when one can be bound twice. */
module Freshness {
  import opened Binary
  import opened Constants
  import opened Externals
  import opened IndexCodec
  import opened Invariants
  import opened Rekeying
  import opened Results
  import opened RoundTrip
  import opened Runs
  import opened VaultHeaders
  import opened VaultIndexes
  import opened VaultModel

  /** A pair handed out under one generation of keys. */
  datatype Issue = Issue(generation: nat, key: Bytes, counter: u64)

  /** Whether a `store` gets as far as taking a counter; it may still fail after that. */
  predicate Consumes(lib: Library, s: VaultState, name: Bytes, data: Bytes) {
    && |name| <= MAX_ENTRY_NAME_LEN && |data| <= MAX_ENTRY_DATA_SIZE
    && KeyForName(lib, s.index.hmacKey, name).Ok?
    && s.index.dataNonceCounter < U64_MAX
  }

  /** The keys a re-keying from `s` to `t` stores under, in the order of the walk. */
  function RekeyedKeys(lib: Library, s: VaultState, t: VaultState, d: RekeyDraws): seq<Bytes> {
    var order := d.walk(s.index.files.Keys);
    seq(|order|, i requires 0 <= i < |order| => KeyText(lib, t.index, NameAt(lib, s.index, order[i])))
  }

  /**
   * The pairs one call issues under the generation in force, or under the next one when it re-keys: then one pair for
   * each step of the walk. A re-keying that succeeds takes no more steps than there are counters.
   */
  function Issues(lib: Library, s: VaultState, generation: nat, next: nat, op: Op): seq<Issue> {
    match op
    case StoreOp(name, data, _) =>
      if Consumes(lib, s, name, data) then [Issue(generation, KeyText(lib, s.index, name), s.index.dataNonceCounter)] else []
    case ChangePasswordOp(_, _, d) =>
      var (t, a) := Step(lib, s, op);
      var keys := RekeyedKeys(lib, s, t, d);
      if a == Done && |keys| <= U64_MAX then seq(|keys|, i requires 0 <= i < |keys| => Issue(next, keys[i], i)) else []
    case _ => []
  }

  /**
   * What a history remembers: the generation and the password in force, the pairs issued, for each generation its mark
   * (one past the highest counter issued), the generation of each export, and the latest export nothing was stored after.
   */
  datatype Journal = Journal(
    generation: nat,
    password: Bytes,
    log: seq<Issue>,
    marks: seq<nat>,
    saved: map<(Bytes, Bytes), nat>,
    latest: Option<(Bytes, Bytes)>)

  function NewJournal(password: Bytes): Journal {
    Journal(0, password, [], [0], map[], None)
  }

  function Raised(marks: seq<nat>, generation: nat, mark: nat): seq<nat> {
    if generation < |marks| && marks[generation] < mark then marks[generation := mark] else marks
  }

  function JournalStep(lib: Library, s: VaultState, j: Journal, op: Op): Journal {
    var a := Step(lib, s, op).1;
    var issued := Issues(lib, s, j.generation, |j.marks|, op);
    match op
    case StoreOp(_, _, _) =>
      if issued == [] then j
      else j.(log := j.log + issued, marks := Raised(j.marks, j.generation, s.index.dataNonceCounter + 1), latest := None)
    case ChangePasswordOp(_, newPassword, _) =>
      if a == Done then Journal(|j.marks|, newPassword, j.log + issued, j.marks + [|issued|], j.saved, None) else j
    case ExportOp(_, _) =>
      if a.Exported? then
        var f := (j.password, a.file);
        j.(saved := j.saved[f := j.generation], latest := Some(f))
      else j
    case OpenOp(password, file, _) =>
      if a == Done && (password, file) in j.saved then j.(generation := j.saved[(password, file)], password := password) else j
    case _ => j
  }

  function FinalJournal(lib: Library, s: VaultState, j: Journal, ops: seq<Op>): Journal
    decreases |ops|
  {
    if ops == [] then j else FinalJournal(lib, Step(lib, s, ops[0]).0, JournalStep(lib, s, j, ops[0]), ops[1..])
  }

  /** A history may go back to any of its own exports, as often as it likes. */
  ghost predicate HistoryOp(lib: Library, j: Journal, op: Op) {
    && (op.ExportOp? ==> IsWalk(op.walk))
    && (op.OpenOp? && Open(lib, op.password, op.file, op.openDraws).Ok? ==> (op.password, op.file) in j.saved)
  }

  ghost predicate HistoryRun(lib: Library, s: VaultState, j: Journal, ops: seq<Op>)
    decreases |ops|
  {
    ops == [] ||
    (HistoryOp(lib, j, ops[0]) && HistoryRun(lib, Step(lib, s, ops[0]).0, JournalStep(lib, s, j, ops[0]), ops[1..]))
  }

  /** A linear history: the only file it opens is its latest export, with nothing stored since. */
  ghost predicate LinearOp(lib: Library, j: Journal, op: Op) {
    && (op.ExportOp? ==> IsWalk(op.walk))
    && (op.OpenOp? && Open(lib, op.password, op.file, op.openDraws).Ok? ==> j.latest == Some((op.password, op.file)))
  }

  ghost predicate LinearRun(lib: Library, s: VaultState, j: Journal, ops: seq<Op>)
    decreases |ops|
  {
    ops == [] ||
    (LinearOp(lib, j, ops[0]) && LinearRun(lib, Step(lib, s, ops[0]).0, JournalStep(lib, s, j, ops[0]), ops[1..]))
  }

  /** No counter, let alone a (key, counter) pair, is issued twice under one generation. */
  predicate NoReuse(log: seq<Issue>) {
    forall i, k :: 0 <= i < k < |log| && log[i].generation == log[k].generation ==> log[i].counter != log[k].counter
  }

  predicate AtMark(s: VaultState, j: Journal) {
    j.generation < |j.marks| && s.index.dataNonceCounter == j.marks[j.generation]
  }

  /** A call that takes a counter finds the vault's counter at the mark of its generation. */
  predicate OpAtMark(lib: Library, s: VaultState, j: Journal, op: Op) {
    op.StoreOp? && Consumes(lib, s, op.name, op.data) ==> AtMark(s, j)
  }

  predicate StoresAtMark(lib: Library, s: VaultState, j: Journal, ops: seq<Op>)
    decreases |ops|
  {
    ops == [] ||
    (OpAtMark(lib, s, j, ops[0]) && StoresAtMark(lib, Step(lib, s, ops[0]).0, JournalStep(lib, s, j, ops[0]), ops[1..]))
  }

  // ---------------------------------------------------------------- logs and marks

  predicate Taken(log: seq<Issue>, generation: nat, counter: nat) {
    exists i :: 0 <= i < |log| && log[i].generation == generation && log[i].counter == counter
  }

  /** Under each generation exactly the counters below its mark have been issued. */
  ghost predicate MarksExact(log: seq<Issue>, marks: seq<nat>) {
    && (forall i :: 0 <= i < |log| ==> log[i].generation < |marks| && log[i].counter < marks[log[i].generation])
    && (forall g: nat, c: nat :: g < |marks| && c < marks[g] ==> Taken(log, g, c))
  }

  ghost predicate Grows(log: seq<Issue>, marks: seq<nat>, log': seq<Issue>, marks': seq<nat>) {
    log <= log' && |marks| <= |marks'| && forall g :: 0 <= g < |marks| ==> marks[g] <= marks'[g]
  }

  lemma TakenGrows(log: seq<Issue>, more: seq<Issue>, generation: nat, counter: nat)
    requires Taken(log, generation, counter)
    ensures Taken(log + more, generation, counter)
  {
    var i :| 0 <= i < |log| && log[i].generation == generation && log[i].counter == counter;
    assert (log + more)[i] == log[i];
  }

  lemma AppendReuse(log: seq<Issue>, issue: Issue)
    ensures NoReuse(log + [issue]) <==> NoReuse(log) && !Taken(log, issue.generation, issue.counter)
  {
    var all := log + [issue];
    assert all[|log|] == issue && forall i :: 0 <= i < |log| ==> all[i] == log[i];
    if NoReuse(all) {
      forall i, k | 0 <= i < k < |log| && log[i].generation == log[k].generation ensures log[i].counter != log[k].counter {
        assert all[i] == log[i] && all[k] == log[k];
      }
    }
  }

  /** Issuing a counter up to the mark keeps the marks exact, and reuses one exactly when it is below the mark. */
  lemma MarkStore(log: seq<Issue>, marks: seq<nat>, issue: Issue)
    requires MarksExact(log, marks) && issue.generation < |marks| && issue.counter <= marks[issue.generation]
    ensures var log', marks' := log + [issue], Raised(marks, issue.generation, issue.counter + 1);
      && MarksExact(log', marks') && Grows(log, marks, log', marks')
      && (NoReuse(log') <==> NoReuse(log) && issue.counter == marks[issue.generation])
  {
    hide NoReuse;
    var log', marks' := log + [issue], Raised(marks, issue.generation, issue.counter + 1);
    assert log'[|log|] == issue;
    AppendReuse(log, issue);
    forall g: nat, c: nat | g < |marks'| && c < marks'[g] ensures Taken(log', g, c) {
      if c < marks[g] {
        TakenGrows(log, [issue], g, c);
      }
    }
  }

  /** A new generation that issues the counters from 0 on reuses none. */
  lemma MarkGeneration(log: seq<Issue>, marks: seq<nat>, issued: seq<Issue>)
    requires MarksExact(log, marks)
    requires forall i :: 0 <= i < |issued| ==> issued[i].generation == |marks| && issued[i].counter == i
    ensures MarksExact(log + issued, marks + [|issued|]) && Grows(log, marks, log + issued, marks + [|issued|])
    ensures NoReuse(log + issued) <==> NoReuse(log)
  {
    var log', marks' := log + issued, marks + [|issued|];
    forall g: nat, c: nat | g < |marks'| && c < marks'[g] ensures Taken(log', g, c) {
      if g < |marks| {
        TakenGrows(log, issued, g, c);
      } else {
        assert log'[|log| + c] == issued[c];
      }
    }
    if NoReuse(log') {
      forall i, k | 0 <= i < k < |log| && log[i].generation == log[k].generation ensures log[i].counter != log[k].counter {
        assert log'[i] == log[i] && log'[k] == log[k];
      }
    }
  }

  // ---------------------------------------------------------------- the invariant of a history

  /** Every stored entry carries a pair issued under the generation. */
  ghost predicate AllIssued(s: VaultState, generation: nat, log: seq<Issue>) {
    forall key :: key in s.index.files ==> Issue(generation, key, s.index.files[key].dataCounter) in log
  }

  /** The vault's counter is not past the mark, and its entries carry issued pairs. */
  ghost predicate Accounted(s: VaultState, generation: nat, log: seq<Issue>, marks: seq<nat>) {
    generation < |marks| && s.index.dataNonceCounter <= marks[generation] && AllIssued(s, generation, log)
  }

  /** The file holds this vault. */
  ghost predicate Holds(lib: Library, f: (Bytes, Bytes), t: VaultState) {
    OpensTo(lib, f.0, f.1, t) && Sound(t) && KeyedBy(lib, t, f.0)
  }

  ghost predicate SavedAccounted(lib: Library, f: (Bytes, Bytes), generation: nat, log: seq<Issue>, marks: seq<nat>) {
    exists t :: Holds(lib, f, t) && Accounted(t, generation, log, marks)
  }

  ghost predicate Traced(lib: Library, s: VaultState, j: Journal) {
    && Sound(s) && KeyedBy(lib, s, j.password)
    && MarksExact(j.log, j.marks) && Accounted(s, j.generation, j.log, j.marks)
    && forall f :: f in j.saved ==> SavedAccounted(lib, f, j.saved[f], j.log, j.marks)
  }

  lemma AccountedGrows(t: VaultState, generation: nat, log: seq<Issue>, marks: seq<nat>, log': seq<Issue>, marks': seq<nat>)
    requires Accounted(t, generation, log, marks) && Grows(log, marks, log', marks')
    ensures Accounted(t, generation, log', marks')
  {
    forall key | key in t.index.files ensures Issue(generation, key, t.index.files[key].dataCounter) in log' {
      var i :| 0 <= i < |log| && log[i] == Issue(generation, key, t.index.files[key].dataCounter);
      assert log'[i] == log[i];
    }
  }

  lemma SavedGrows(lib: Library, j: Journal, log': seq<Issue>, marks': seq<nat>)
    requires forall f :: f in j.saved ==> SavedAccounted(lib, f, j.saved[f], j.log, j.marks)
    requires Grows(j.log, j.marks, log', marks')
    ensures forall f :: f in j.saved ==> SavedAccounted(lib, f, j.saved[f], log', marks')
  {
    hide Holds, Accounted, Grows;
    forall f | f in j.saved ensures SavedAccounted(lib, f, j.saved[f], log', marks') {
      assert SavedAccounted(lib, f, j.saved[f], j.log, j.marks);
      var t :| Holds(lib, f, t) && Accounted(t, j.saved[f], j.log, j.marks);
      AccountedGrows(t, j.saved[f], j.log, j.marks, log', marks');
    }
  }

  lemma StoreCounter(lib: Library, s: VaultState, name: Bytes, data: Bytes, d: StoreDraws)
    requires lib.Lawful()
    ensures Store(lib, s, name, data, d).0.index.dataNonceCounter ==
            s.index.dataNonceCounter + (if Consumes(lib, s, name, data) then 1 else 0)
    ensures Store(lib, s, name, data, d).1.Ok? ==> Consumes(lib, s, name, data)
  {
  }

  lemma {:induction false} ReencryptCounter(lib: Library, from: IndexState, order: seq<Bytes>, d: RekeyDraws, i: nat, acc: VaultState)
    requires lib.Lawful() && i <= |order|
    ensures var r := ReencryptFrom(lib, from, order, d, i, acc);
      r.Ok? ==> r.value.index.dataNonceCounter == acc.index.dataNonceCounter + |order| - i
    decreases |order| - i
  {
    hide Store, DecryptEntry, Consumes;
    if i < |order| && DecryptEntry(lib, from, order[i]).Ok? {
      var (name, data) := DecryptEntry(lib, from, order[i]).value;
      StoreCounter(lib, acc, name, data, d.At(i));
      var (next, r) := Store(lib, acc, name, data, d.At(i));
      if r.Ok? {
        ReencryptCounter(lib, from, order, d, i + 1, next);
      }
    }
  }

  /** Each entry under construction was stored under the name and counter of one step of the walk. */
  ghost predicate FromSteps(lib: Library, from: IndexState, order: seq<Bytes>, i: nat, acc: IndexState)
    requires i <= |order|
  {
    forall key :: key in acc.files ==>
      acc.files[key].dataCounter < i && key == KeyText(lib, acc, NameAt(lib, from, order[acc.files[key].dataCounter]))
  }

  lemma {:induction false} ReencryptIssued(lib: Library, from: IndexState, order: seq<Bytes>, d: RekeyDraws, i: nat, acc: VaultState)
    requires lib.Lawful() && i <= |order| && acc.index.dataNonceCounter == i && FromSteps(lib, from, order, i, acc.index)
    ensures var r := ReencryptFrom(lib, from, order, d, i, acc);
      r.Ok? ==> FromSteps(lib, from, order, |order|, r.value.index)
    decreases |order| - i
  {
    hide Store, DecryptEntry, CanStore, SizesInWindow;
    if i < |order| && DecryptEntry(lib, from, order[i]).Ok? {
      var (name, data) := DecryptEntry(lib, from, order[i]).value;
      StoreEffect(lib, acc, name, data, d.At(i));
      SameKeyText(lib, acc.index, Store(lib, acc, name, data, d.At(i)).0.index);
      var (next, r) := Store(lib, acc, name, data, d.At(i));
      if r.Ok? {
        ReencryptIssued(lib, from, order, d, i + 1, next);
      }
    }
  }

  lemma RekeyIssued(lib: Library, s: VaultState, password: Bytes, d: RekeyDraws)
    requires lib.Lawful() && Rekeyed(lib, s, password, d).Ok?
    ensures var order := d.walk(s.index.files.Keys);
      FromSteps(lib, s.index, order, |order|, Rekeyed(lib, s, password, d).value.index)
  {
    hide ReencryptFrom, NewVault;
    NewVaultReady(lib, password, d.salt, d.keys);
    ReencryptIssued(lib, s.index, d.walk(s.index.files.Keys), d, 0, NewVault(lib, password, d.salt, d.keys).value);
  }

  lemma RekeyCounter(lib: Library, s: VaultState, password: Bytes, d: RekeyDraws)
    requires lib.Lawful() && Rekeyed(lib, s, password, d).Ok?
    ensures Rekeyed(lib, s, password, d).value.index.dataNonceCounter == |d.walk(s.index.files.Keys)|
  {
    hide ReencryptFrom, NewVault;
    NewVaultReady(lib, password, d.salt, d.keys);
    ReencryptCounter(lib, s.index, d.walk(s.index.files.Keys), d, 0, NewVault(lib, password, d.salt, d.keys).value);
  }

  /** What one call does to the invariant and to reuse. */
  ghost predicate StepTraced(lib: Library, s: VaultState, j: Journal, op: Op) {
    var t, k := Step(lib, s, op).0, JournalStep(lib, s, j, op);
    Traced(lib, t, k) && (NoReuse(k.log) <==> NoReuse(j.log) && OpAtMark(lib, s, j, op))
  }

  lemma StoreTraced(lib: Library, s: VaultState, j: Journal, op: Op)
    requires lib.Lawful() && Traced(lib, s, j) && op.StoreOp?
    ensures StepTraced(lib, s, j, op)
  {
    hide Store, Sound, KeyedBy, Consumes, KeyText, CanStore, DecryptEntry, NoReuse, MarksExact, Grows, SavedAccounted, Raised;
    StepSound(lib, s, j.password, op);
    StoreCounter(lib, s, op.name, op.data, op.storeDraws);
    StoreEffect(lib, s, op.name, op.data, op.storeDraws);
    if Consumes(lib, s, op.name, op.data) {
      var issue := Issue(j.generation, KeyText(lib, s.index, op.name), s.index.dataNonceCounter);
      var k := JournalStep(lib, s, j, op);
      MarkStore(j.log, j.marks, issue);
      SavedGrows(lib, j, k.log, k.marks);
      AccountedGrows(s, j.generation, j.log, j.marks, k.log, k.marks);
      StoreAccounted(lib, s, j, op);
    }
  }

  lemma StoreAccounted(lib: Library, s: VaultState, j: Journal, op: Op)
    requires lib.Lawful() && op.StoreOp? && Consumes(lib, s, op.name, op.data)
    requires Accounted(s, j.generation, j.log, j.marks)
    ensures var t, k := Step(lib, s, op).0, JournalStep(lib, s, j, op); Accounted(t, k.generation, k.log, k.marks)
  {
    hide Store, Consumes, KeyText, CanStore, DecryptEntry;
    StoreCounter(lib, s, op.name, op.data, op.storeDraws);
    StoreEffect(lib, s, op.name, op.data, op.storeDraws);
    var t, k := Step(lib, s, op).0, JournalStep(lib, s, j, op);
    forall key | key in t.index.files ensures Issue(k.generation, key, t.index.files[key].dataCounter) in k.log {
      if key in s.index.files && t.index.files[key] == s.index.files[key] {
        assert Issue(j.generation, key, s.index.files[key].dataCounter) in j.log;
      }
    }
  }

  lemma RekeyTraced(lib: Library, s: VaultState, j: Journal, op: Op)
    requires lib.Lawful() && Traced(lib, s, j) && op.ChangePasswordOp?
    ensures StepTraced(lib, s, j, op)
  {
    hide Rekeyed, Sound, KeyedBy, VerifyPassword, KeyText, NameAt, NoReuse, MarksExact, Grows, SavedAccounted;
    StepSound(lib, s, j.password, op);
    if Step(lib, s, op).1 == Done {
      RekeyCounter(lib, s, op.newPassword, op.rekeyDraws);
      RekeyIssued(lib, s, op.newPassword, op.rekeyDraws);
      var t := Step(lib, s, op).0;
      var issued := Issues(lib, s, j.generation, |j.marks|, op);
      assert |issued| == t.index.dataNonceCounter;
      MarkGeneration(j.log, j.marks, issued);
      SavedGrows(lib, j, j.log + issued, j.marks + [|issued|]);
      forall key | key in t.index.files ensures Issue(|j.marks|, key, t.index.files[key].dataCounter) in issued {
        assert issued[t.index.files[key].dataCounter].key == key;
      }
    }
  }

  lemma ExportTraced(lib: Library, s: VaultState, j: Journal, op: Op)
    requires lib.Lawful() && Traced(lib, s, j) && HistoryOp(lib, j, op) && op.ExportOp?
    ensures StepTraced(lib, s, j, op)
  {
    hide Sound, KeyedBy, OpensTo, Export, NoReuse, IsWalk, MarksExact;
    StepSound(lib, s, j.password, op);
    ExportEffect(lib, s, op.nonce, op.walk);
    var t := Step(lib, s, op).0;
    assert Accounted(t, j.generation, j.log, j.marks);
    if Export(lib, s, op.nonce, op.walk).1.Ok? {
      ExportOpens(lib, s, j.password, op.nonce, op.walk);
      var f := (j.password, Export(lib, s, op.nonce, op.walk).1.value);
      assert Holds(lib, f, t);
      assert SavedAccounted(lib, f, j.generation, j.log, j.marks);
    }
  }

  lemma ReadTraced(lib: Library, s: VaultState, j: Journal, op: Op)
    requires lib.Lawful() && Traced(lib, s, j) && (op.RetrieveOp? || op.RemoveOp?)
    ensures StepTraced(lib, s, j, op)
  {
    hide Sound, KeyedBy, Remove, Retrieve, NoReuse, KeyText, MarksExact, SavedAccounted;
    StepSound(lib, s, j.password, op);
    var t := Step(lib, s, op).0;
    if op.RemoveOp? {
      Access.RemoveEffect(lib, s, op.name);
      assert t == Remove(lib, s, op.name).0;
    } else {
      assert t == s;
    }
    forall key | key in t.index.files ensures Issue(j.generation, key, t.index.files[key].dataCounter) in j.log {
      assert key in s.index.files && t.index.files[key] == s.index.files[key];
    }
  }

  lemma OpenTraced(lib: Library, s: VaultState, j: Journal, op: Op)
    requires lib.Lawful() && Traced(lib, s, j) && HistoryOp(lib, j, op) && op.OpenOp?
    ensures StepTraced(lib, s, j, op)
  {
    hide Sound, KeyedBy, OpensTo, Open, NoReuse, MarksExact, Accounted;
    if Open(lib, op.password, op.file, op.openDraws).Ok? {
      var f := (op.password, op.file);
      assert SavedAccounted(lib, f, j.saved[f], j.log, j.marks);
      var t :| Holds(lib, f, t) && Accounted(t, j.saved[f], j.log, j.marks);
      OpenedState(lib, op.password, op.file, op.openDraws, t);
    }
  }

  lemma OpenedState(lib: Library, password: Bytes, file: Bytes, d: OpenDraws, t: VaultState)
    requires OpensTo(lib, password, file, t) && Open(lib, password, file, d).Ok?
    ensures Open(lib, password, file, d) == Ok(t)
  {
  }

  lemma HistoryStep(lib: Library, s: VaultState, j: Journal, op: Op)
    requires lib.Lawful() && Traced(lib, s, j) && HistoryOp(lib, j, op)
    ensures StepTraced(lib, s, j, op)
  {
    hide StepTraced, Traced, HistoryOp;
    match op
    case StoreOp(_, _, _) => StoreTraced(lib, s, j, op);
    case ChangePasswordOp(_, _, _) => RekeyTraced(lib, s, j, op);
    case RetrieveOp(_) => ReadTraced(lib, s, j, op);
    case RemoveOp(_) => ReadTraced(lib, s, j, op);
    case ExportOp(_, _) => ExportTraced(lib, s, j, op);
    case OpenOp(_, _, _) => OpenTraced(lib, s, j, op);
  }

  // ---------------------------------------------------------------- whole histories

  /**
   * Over any history, however it goes back to its own exports, no counter is issued twice under one generation if and
   * only if every store that takes a counter finds the vault's counter at the mark of its generation.
   */
  lemma {:induction false} HistoryExact(lib: Library, s: VaultState, j: Journal, ops: seq<Op>)
    requires lib.Lawful() && Traced(lib, s, j) && HistoryRun(lib, s, j, ops)
    ensures Traced(lib, FinalState(lib, s, ops), FinalJournal(lib, s, j, ops))
    ensures NoReuse(FinalJournal(lib, s, j, ops).log) <==> NoReuse(j.log) && StoresAtMark(lib, s, j, ops)
    decreases |ops|
  {
    hide Step, JournalStep, HistoryOp, Traced, NoReuse, OpAtMark;
    if ops != [] {
      HistoryStep(lib, s, j, ops[0]);
      HistoryExact(lib, Step(lib, s, ops[0]).0, JournalStep(lib, s, j, ops[0]), ops[1..]);
    }
  }

  lemma NewTraced(lib: Library, password: Bytes, salt: Option<Salt>, d: KeyDraws)
    requires lib.Lawful() && Create(lib, password, salt, d).Ok?
    ensures Traced(lib, Create(lib, password, salt, d).value, NewJournal(password))
    ensures Current(lib, Create(lib, password, salt, d).value, NewJournal(password)) && NoReuse(NewJournal(password).log)
  {
    hide NewVault, Sound, KeyedBy;
    NewVaultReady(lib, password, salt, d);
  }

  /** The same from `create`, where nothing has been issued yet. */
  lemma CreatedHistoryExact(lib: Library, password: Bytes, salt: Option<Salt>, d: KeyDraws, ops: seq<Op>)
    requires lib.Lawful() && Create(lib, password, salt, d).Ok?
    requires HistoryRun(lib, Create(lib, password, salt, d).value, NewJournal(password), ops)
    ensures var s, j := Create(lib, password, salt, d).value, NewJournal(password);
      NoReuse(FinalJournal(lib, s, j, ops).log) <==> StoresAtMark(lib, s, j, ops)
  {
    hide Create, HistoryRun, FinalJournal, StoresAtMark, Traced, Current, NoReuse;
    NewTraced(lib, password, salt, d);
    HistoryExact(lib, Create(lib, password, salt, d).value, NewJournal(password), ops);
  }

  /** The vault's counter is at the mark, and so is the counter in the latest export. */
  ghost predicate Current(lib: Library, s: VaultState, j: Journal) {
    && AtMark(s, j)
    && (j.latest.Some? ==>
         && j.latest.value in j.saved && j.saved[j.latest.value] == j.generation
         && exists t :: Holds(lib, j.latest.value, t) && t.index.dataNonceCounter == s.index.dataNonceCounter)
  }

  lemma LinearStep(lib: Library, s: VaultState, j: Journal, op: Op)
    requires lib.Lawful() && Traced(lib, s, j) && Current(lib, s, j) && LinearOp(lib, j, op)
    ensures HistoryOp(lib, j, op) && OpAtMark(lib, s, j, op)
    ensures Current(lib, Step(lib, s, op).0, JournalStep(lib, s, j, op))
  {
    hide Store, Retrieve, Remove, Export, Open, Rekeyed, VerifyPassword;
    hide Sound, KeyedBy, OpensTo, IsWalk, Consumes, MarksExact, SavedAccounted, AllIssued;
    match op
    case StoreOp(_, _, _) => StoreCounter(lib, s, op.name, op.data, op.storeDraws);
    case ChangePasswordOp(_, _, _) =>
      if Step(lib, s, op).1 == Done {
        RekeyCounter(lib, s, op.newPassword, op.rekeyDraws);
      }
    case RetrieveOp(_) =>
    case RemoveOp(_) => Access.RemoveEffect(lib, s, op.name);
    case ExportOp(_, _) =>
      ExportEffect(lib, s, op.nonce, op.walk);
      StepSound(lib, s, j.password, op);
      if Export(lib, s, op.nonce, op.walk).1.Ok? {
        ExportOpens(lib, s, j.password, op.nonce, op.walk);
        assert Holds(lib, (j.password, Export(lib, s, op.nonce, op.walk).1.value), Step(lib, s, op).0);
      }
    case OpenOp(_, _, _) =>
      if Open(lib, op.password, op.file, op.openDraws).Ok? {
        var t :| Holds(lib, j.latest.value, t) && t.index.dataNonceCounter == s.index.dataNonceCounter;
        OpenedState(lib, op.password, op.file, op.openDraws, t);
      }
  }

  /**
   * Along any linear history no data counter is issued twice under one generation of keys: not after a removal,
   * an overwrite, a store that failed at the cap or for lack of randomness, nor across export, open and re-keying.
   * Every entry the vault holds carries a pair that was issued.
   */
  lemma {:induction false} LinearFresh(lib: Library, s: VaultState, j: Journal, ops: seq<Op>)
    requires lib.Lawful() && Traced(lib, s, j) && Current(lib, s, j) && NoReuse(j.log) && LinearRun(lib, s, j, ops)
    ensures var t, k := FinalState(lib, s, ops), FinalJournal(lib, s, j, ops);
      NoReuse(k.log) && AllIssued(t, k.generation, k.log) && AtMark(t, k)
    decreases |ops|
  {
    hide Step, JournalStep, LinearOp, HistoryOp, NoReuse, OpAtMark, AllIssued;
    if ops != [] {
      LinearStep(lib, s, j, ops[0]);
      HistoryStep(lib, s, j, ops[0]);
      LinearFresh(lib, Step(lib, s, ops[0]).0, JournalStep(lib, s, j, ops[0]), ops[1..]);
    }
  }

  lemma CreatedFresh(lib: Library, password: Bytes, salt: Option<Salt>, d: KeyDraws, ops: seq<Op>)
    requires lib.Lawful() && Create(lib, password, salt, d).Ok?
    requires LinearRun(lib, Create(lib, password, salt, d).value, NewJournal(password), ops)
    ensures var s, j := Create(lib, password, salt, d).value, NewJournal(password);
      var t, k := FinalState(lib, s, ops), FinalJournal(lib, s, j, ops);
      NoReuse(k.log) && AllIssued(t, k.generation, k.log)
  {
    hide Create, LinearRun, FinalJournal, FinalState, Traced, Current, NoReuse, AllIssued;
    NewTraced(lib, password, salt, d);
    LinearFresh(lib, Create(lib, password, salt, d).value, NewJournal(password), ops);
  }

  // ---------------------------------------------------------------- forks

  predicate SameKeys(op: Op) {
    !op.ChangePasswordOp? && !op.OpenOp?
  }

  /** The names under which calls take counters, and the pairs they take, in order. */
  function TakenNames(lib: Library, s: VaultState, ops: seq<Op>): seq<Bytes>
    decreases |ops|
  {
    if ops == [] then []
    else
      var rest := TakenNames(lib, Step(lib, s, ops[0]).0, ops[1..]);
      if ops[0].StoreOp? && Consumes(lib, s, ops[0].name, ops[0].data) then [ops[0].name] + rest else rest
  }

  function TakenPairs(lib: Library, s: VaultState, ops: seq<Op>): seq<(Bytes, u64)>
    decreases |ops|
  {
    if ops == [] then []
    else
      var rest := TakenPairs(lib, Step(lib, s, ops[0]).0, ops[1..]);
      if ops[0].StoreOp? && Consumes(lib, s, ops[0].name, ops[0].data) then
        [(KeyText(lib, s.index, ops[0].name), s.index.dataNonceCounter)] + rest
      else rest
  }

  /** The i-th pair is the key of the i-th name with the i-th counter from the start. */
  lemma {:induction false} PairsConsecutive(lib: Library, s: VaultState, ops: seq<Op>)
    requires lib.Lawful() && forall i :: 0 <= i < |ops| ==> SameKeys(ops[i])
    ensures FinalState(lib, s, ops).index.dataNonceCounter == s.index.dataNonceCounter + |TakenPairs(lib, s, ops)|
    ensures PairsOf(lib, s.index.hmacKey, s.index.dataNonceCounter, TakenNames(lib, s, ops), TakenPairs(lib, s, ops))
    decreases |ops|
  {
    hide Store, Remove, Retrieve, Export, Consumes, KeyForName, CanStore, DecryptEntry;
    if ops != [] {
      var op := ops[0];
      assert SameKeys(op);
      if op.StoreOp? {
        StoreCounter(lib, s, op.name, op.data, op.storeDraws);
        StoreEffect(lib, s, op.name, op.data, op.storeDraws);
        ConsumedKey(lib, s, op.name, op.data);
      } else if op.RemoveOp? {
        Access.RemoveEffect(lib, s, op.name);
      } else if op.ExportOp? {
        ExportEffect(lib, s, op.nonce, op.walk);
      }
      PairsConsecutive(lib, Step(lib, s, op).0, ops[1..]);
    }
  }

  lemma ConsumedKey(lib: Library, s: VaultState, name: Bytes, data: Bytes)
    ensures Consumes(lib, s, name, data) ==> KeyForName(lib, s.index.hmacKey, name) == Ok(KeyText(lib, s.index, name))
  {
  }

  /** Some pair is in both. */
  predicate SharedPair(a: seq<(Bytes, u64)>, b: seq<(Bytes, u64)>) {
    exists i, k :: 0 <= i < |a| && 0 <= k < |b| && a[i] == b[k]
  }

  predicate SharedCounter(a: seq<(Bytes, u64)>, b: seq<(Bytes, u64)>) {
    exists i, k :: 0 <= i < |a| && 0 <= k < |b| && a[i].1 == b[k].1
  }

  /** At some place both name the same HMAC. */
  ghost predicate SameHmacSomewhere(lib: Library, hmacKey: Key, a: seq<Bytes>, b: seq<Bytes>) {
    exists i :: 0 <= i < |a| && i < |b| && KeyForName(lib, hmacKey, a[i]) == KeyForName(lib, hmacKey, b[i])
  }

  /** The pairs belong to the names, with counters from `start` on. */
  ghost predicate PairsOf(lib: Library, hmacKey: Key, start: nat, names: seq<Bytes>, pairs: seq<(Bytes, u64)>) {
    && |names| == |pairs|
    && forall i :: 0 <= i < |pairs| ==> KeyForName(lib, hmacKey, names[i]) == Ok(pairs[i].0) && pairs[i].1 == start + i
  }

  lemma PairsMeet(lib: Library, hmacKey: Key, start: nat, a: seq<Bytes>, p: seq<(Bytes, u64)>, b: seq<Bytes>, q: seq<(Bytes, u64)>)
    requires PairsOf(lib, hmacKey, start, a, p) && PairsOf(lib, hmacKey, start, b, q)
    ensures SharedPair(p, q) <==> SameHmacSomewhere(lib, hmacKey, a, b)
    ensures SharedCounter(p, q) <==> a != [] && b != []
  {
    hide KeyForName;
    if SharedPair(p, q) {
      var i, k :| 0 <= i < |p| && 0 <= k < |q| && p[i] == q[k];
      assert i == k && KeyForName(lib, hmacKey, a[i]) == KeyForName(lib, hmacKey, b[i]);
    }
    if SameHmacSomewhere(lib, hmacKey, a, b) {
      var i :| 0 <= i < |a| && i < |b| && KeyForName(lib, hmacKey, a[i]) == KeyForName(lib, hmacKey, b[i]);
      assert p[i] == (p[i].0, p[i].1) && q[i] == (q[i].0, q[i].1);
      assert p[i] == q[i];
    }
    if a != [] && b != [] {
      assert p[0].1 == q[0].1;
    }
  }

  lemma ExportReopens(lib: Library, s: VaultState, password: Bytes, nonce: Option<Nonce>, walk: Walk, d: OpenDraws)
    requires lib.Lawful() && Sound(s) && KeyedBy(lib, s, password) && IsWalk(walk)
    requires Export(lib, s, nonce, walk).1.Ok? && d.lockEnc && d.lockHmac
    ensures Open(lib, password, Export(lib, s, nonce, walk).1.value, d) == Ok(Export(lib, s, nonce, walk).0)
  {
    hide Export, Open, Sound, KeyedBy, IsWalk;
    ExportOpens(lib, s, password, nonce, walk);
  }

  /**
   * Two continuations of one export, whatever calls they make under its keys, issue a pair in common if and only if for
   * some i the i-th store that takes a counter is under names with one HMAC in both; they issue a counter in common
   * if and only if both take one at all. The check `open` makes is against stored entries, not against what was issued.
   */
  lemma ForkExact(lib: Library, s: VaultState, password: Bytes, nonce: Option<Nonce>, walk: Walk, d: OpenDraws, one: seq<Op>, other: seq<Op>)
    requires lib.Lawful() && Sound(s) && KeyedBy(lib, s, password) && IsWalk(walk)
    requires Export(lib, s, nonce, walk).1.Ok? && d.lockEnc && d.lockHmac
    requires (forall i :: 0 <= i < |one| ==> SameKeys(one[i])) && (forall i :: 0 <= i < |other| ==> SameKeys(other[i]))
    ensures var (t, r) := Export(lib, s, nonce, walk); var reopened := Open(lib, password, r.value, d);
      && reopened == Ok(t)
      && var a, b := TakenNames(lib, t, one), TakenNames(lib, reopened.value, other);
         var p, q := TakenPairs(lib, t, one), TakenPairs(lib, reopened.value, other);
         && (SharedPair(p, q) <==> SameHmacSomewhere(lib, t.index.hmacKey, a, b))
         && (SharedCounter(p, q) <==> a != [] && b != [])
  {
    hide *;
    ExportReopens(lib, s, password, nonce, walk, d);
    var t := Export(lib, s, nonce, walk).0;
    PairsConsecutive(lib, t, one);
    PairsConsecutive(lib, t, other);
    PairsMeet(lib, t.index.hmacKey, t.index.dataNonceCounter,
              TakenNames(lib, t, one), TakenPairs(lib, t, one), TakenNames(lib, t, other), TakenPairs(lib, t, other));
  }

  /** Going back to an export and storing hands out a counter again exactly when some store took one since. */
  lemma ReopenExact(lib: Library, s: VaultState, password: Bytes, nonce: Option<Nonce>, walk: Walk, ops: seq<Op>, d: OpenDraws)
    requires lib.Lawful() && Sound(s) && KeyedBy(lib, s, password) && IsWalk(walk)
    requires Export(lib, s, nonce, walk).1.Ok? && d.lockEnc && d.lockHmac
    requires forall i :: 0 <= i < |ops| ==> SameKeys(ops[i])
    ensures var (t, r) := Export(lib, s, nonce, walk); var pairs := TakenPairs(lib, t, ops);
      && Open(lib, password, r.value, d) == Ok(t)
      && ((exists i :: 0 <= i < |pairs| && pairs[i].1 == t.index.dataNonceCounter) <==> pairs != [])
      && (pairs != [] <==> FinalState(lib, t, ops).index.dataNonceCounter != t.index.dataNonceCounter)
  {
    hide Export, Open, Sound, KeyedBy, IsWalk, Step, TakenPairs, FinalState;
    ExportReopens(lib, s, password, nonce, walk, d);
    var t := Export(lib, s, nonce, walk).0;
    PairsConsecutive(lib, t, ops);
    var pairs := TakenPairs(lib, t, ops);
    if pairs != [] {
      assert pairs[0].1 == t.index.dataNonceCounter;
    }
  }

  /** A fork that stores under one name on both sides binds the same pair to two ciphertexts, whatever the data. */
  lemma ForkReuses(lib: Library, s: VaultState, password: Bytes, nonce: Option<Nonce>, walk: Walk, d: OpenDraws,
                   name: Bytes, one: Bytes, other: Bytes, oneDraws: StoreDraws, otherDraws: StoreDraws)
    requires lib.Lawful() && Sound(s) && KeyedBy(lib, s, password) && IsWalk(walk)
    requires Export(lib, s, nonce, walk).1.Ok? && d.lockEnc && d.lockHmac
    requires var t := Export(lib, s, nonce, walk).0; CanStore(lib, t, name, one, oneDraws) && CanStore(lib, t, name, other, otherDraws)
    ensures var (t, r) := Export(lib, s, nonce, walk); var reopened := Open(lib, password, r.value, d);
      && reopened.Ok?
      && var u, v := Store(lib, t, name, one, oneDraws).0.index, Store(lib, reopened.value, name, other, otherDraws).0.index;
         var key := KeyText(lib, t.index, name);
         && key in u.files && key in v.files && u.files[key].dataCounter == v.files[key].dataCounter
         && u.encKey == v.encKey
  {
    hide Export, Open, Sound, KeyedBy, IsWalk, Store, CanStore, DecryptEntry, KeyText;
    ExportOpens(lib, s, password, nonce, walk);
    var (t, r) := Export(lib, s, nonce, walk);
    StoreEffect(lib, t, name, one, oneDraws);
    StoreEffect(lib, t, name, other, otherDraws);
  }

  // ---------------------------------------------------------------- faithful AAD

  /** The AAD determines the entry key and the counter. */
  lemma AadInjective(a: Bytes, c: u64, b: Bytes, e: u64)
    requires |a| == |b| && BuildEntryAad(a, c) == BuildEntryAad(b, e)
    ensures a == b && c == e
  {
    hide Le;
    assert BuildEntryAad(a, c)[..|a|] == a && BuildEntryAad(b, e)[..|b|] == b;
    assert BuildEntryAad(a, c)[|a|..] == Le(c, 8) && BuildEntryAad(b, e)[|b|..] == Le(e, 8);
    DecodeLeU64(c);
    DecodeLeU64(e);
  }
}
