/** The hypotheses of the theorems about runs can be met together, and the failures they rule out do happen without them. */
module Consistency {
  import opened Binary
  import opened Constants
  import opened Enumerations
  import opened Externals
  import opened Freshness
  import opened HexKey
  import opened Invariants
  import opened Rekeying
  import opened Results
  import opened RoundTrip
  import opened Runs
  import opened VaultHeaders
  import opened VaultIndexes
  import opened VaultModel

  // ---------------------------------------------------------------- the toy vault

  ghost function AnyWalk(): Walk {
    (s: set<Bytes>) => AnyOrder(s)
  }

  lemma AnyWalkWalks()
    ensures IsWalk(AnyWalk())
  {
    forall s: set<Bytes> ensures Enumerates(AnyWalk()(s), s) {
      AnyOrderEnumerates(s);
    }
  }

  const OldPassword: Bytes := Zeros(8)
  const NewPassword: Bytes := Zeros(9)
  const ToyNonce: Option<Nonce> := Some(Zeros(24))
  const ToySalt: Option<Salt> := Some(Zeros(16))
  const ToyKeys: KeyDraws := KeyDraws(ToyNonce, true, true)
  const ToyDraws: StoreDraws := StoreDraws(ToyNonce, ToyNonce)

  ghost function ToyOpen(): OpenDraws {
    OpenDraws(true, true, RekeyDraws(None, ToyKeys, AnyWalk(), []))
  }

  function ToyCreated(): Result<VaultState> {
    Create(ToyLibrary(), OldPassword, ToySalt, ToyKeys)
  }

  lemma ToyHmac(hmacKey: Key, name: Bytes)
    ensures KeyForName(ToyLibrary(), hmacKey, name) == Ok(Hex(ToyTag(name)))
  {
  }

  /** Short names never collide under the toy library. */
  lemma ShortNames(hmacKey: Key, names: set<Bytes>)
    requires forall name :: name in names ==> |name| < KEY_LEN
    ensures NoCollision(ToyLibrary(), hmacKey, names)
  {
    hide Hex, KeyForName, ToyTag;
    forall a, b | a in names && b in names && KeyForName(ToyLibrary(), hmacKey, a) == KeyForName(ToyLibrary(), hmacKey, b)
      ensures a == b
    {
      ToyHmac(hmacKey, a);
      ToyHmac(hmacKey, b);
      HexInjective(ToyTag(a), ToyTag(b));
      TagInjective(a, b);
    }
  }

  lemma TagInjective(a: Bytes, b: Bytes)
    requires |a| < KEY_LEN && |b| < KEY_LEN && ToyTag(a) == ToyTag(b)
    ensures a == b
  {
    assert ToyTag(a)[KEY_LEN - 1] == |a| as byte && ToyTag(b)[KEY_LEN - 1] == |b| as byte;
    assert ToyTag(a)[..|a|] == a && ToyTag(b)[..|b|] == b;
  }

  /** Keys of the toy library derive from any password. */
  lemma ToyNewVault(password: Bytes)
    ensures NewVault(ToyLibrary(), password, ToySalt, ToyKeys).Ok?
  {
  }

  lemma ToyStart()
    ensures ToyLibrary().Lawful() && ToyCreated().Ok?
    ensures var s := ToyCreated().value;
      && Sound(s) && Genuine(ToyLibrary(), s.index) && KeyedBy(ToyLibrary(), s, OldPassword) && Secrets(ToyLibrary(), s.index) == map[]
      && s.index.nonceCounter == 0 && s.index.dataNonceCounter == 0 && |s.index.files| == 0
  {
    hide NewVault, Sound, Genuine, Secrets, KeyedBy;
    LawsConsistent();
    ToyNewVault(OldPassword);
    NewVaultReady(ToyLibrary(), OldPassword, ToySalt, ToyKeys);
    NothingCarried(ToyLibrary(), ToyCreated().value.index, [], ToyCreated().value.index);
  }

  // ---------------------------------------------------------------- a run that meets every hypothesis

  /** No call of the run fails. */
  ghost predicate AllSucceed(lib: Library, s: VaultState, ops: seq<Op>)
    decreases |ops|
  {
    ops == [] || (!Step(lib, s, ops[0]).1.Failed? && AllSucceed(lib, Step(lib, s, ops[0]).0, ops[1..]))
  }

  /** The run meets the hypotheses of `RunRefines` and `LinearFresh`, no call fails, and it ends in `q`. */
  ghost predicate Meets(lib: Library, names: set<Bytes>, s: VaultState, p: Plain, j: Journal, ops: seq<Op>, q: Plain) {
    LegalRun(lib, names, s, p, ops) && LinearRun(lib, s, j, ops) && AllSucceed(lib, s, ops) && FinalPlain(lib, s, p, ops) == q
  }

  ghost predicate MeetsStep(lib: Library, names: set<Bytes>, s: VaultState, p: Plain, j: Journal, op: Op) {
    && Legal(lib, names, s, p, op) && LinearOp(lib, j, op)
    && NoCollision(lib, Step(lib, s, op).0.index.hmacKey, names) && !Step(lib, s, op).1.Failed?
  }

  lemma MeetsMore(lib: Library, names: set<Bytes>, s: VaultState, p: Plain, j: Journal, op: Op, rest: seq<Op>, q: Plain)
    requires MeetsStep(lib, names, s, p, j, op)
    requires var (t, a) := Step(lib, s, op); Meets(lib, names, t, PlainStep(p, op, a), JournalStep(lib, s, j, op), rest, q)
    ensures Meets(lib, names, s, p, j, [op] + rest, q)
  {
    hide Step, PlainStep, JournalStep, Legal, LinearOp, NoCollision;
    assert ([op] + rest)[0] == op && ([op] + rest)[1..] == rest;
  }

  const ToyNames: set<Bytes> := {[1], [2]}

  /** The toy vault after `n` stores, in step with the plain machine and the journal. */
  ghost predicate ToyAt(s: VaultState, p: Plain, j: Journal, n: nat) {
    && Related(ToyLibrary(), ToyNames, s, p) && p.password == OldPassword == j.password
    && s.index.nonceCounter == 0 && s.index.dataNonceCounter == n && |s.index.files| <= n
  }

  lemma ToyStarts()
    ensures ToyCreated().Ok? && ToyAt(ToyCreated().value, Plain(map[], OldPassword, map[]), NewJournal(OldPassword), 0)
  {
    hide Create, Sound, Genuine, Secrets, KeyedBy, NoCollision;
    ToyStart();
    ShortNames(ToyCreated().value.index.hmacKey, ToyNames);
  }

  lemma ToyStore(s: VaultState, p: Plain, j: Journal, n: nat, op: Op)
    requires ToyAt(s, p, j, n) && n < MAX_INDEX_ENTRIES
    requires op.StoreOp? && op.name in ToyNames && |op.data| <= 1 && op.storeDraws == ToyDraws
    ensures MeetsStep(ToyLibrary(), ToyNames, s, p, j, op)
    ensures var (t, a) := Step(ToyLibrary(), s, op);
      && PlainStep(p, op, a) == p.(secrets := p.secrets[op.name := op.data])
      && ToyAt(t, PlainStep(p, op, a), JournalStep(ToyLibrary(), s, j, op), n + 1)
  {
    hide Store, Related, NoCollision, KeyForName, KeyText, DecryptEntry, Raised, Answered, Create, ToyTag;
    var lib := ToyLibrary();
    LawsConsistent();
    ToyHmac(s.index.hmacKey, op.name);
    StoreEffect(lib, s, op.name, op.data, op.storeDraws);
    StoreRoom(lib, s, op.name, op.data, op.storeDraws);
    ShortNames(Step(lib, s, op).0.index.hmacKey, ToyNames);
    StepRefines(lib, ToyNames, s, p, op);
  }

  /** Small secrets fit a file. */
  lemma SmallFile(header: VaultHeader, secrets: map<Bytes, Bytes>)
    requires secrets.Keys == ToyNames && forall name :: name in secrets ==> |secrets[name]| <= 1
    ensures FileSize(header, secrets) <= MAX_VAULT_FILE_SIZE
  {
    hide PrintHeader, Sum;
    var order := AnyOrder(secrets.Keys);
    AnyOrderEnumerates(secrets.Keys);
    EnumerationSize(order, secrets.Keys);
    SumBound(SecretCost(secrets), order, SECRET_OVERHEAD + 2);
    HeaderLengthBound(header);
  }

  lemma ToyExport(s: VaultState, p: Plain, j: Journal, op: Op)
    requires ToyAt(s, p, j, 2) && op == ExportOp(ToyNonce, AnyWalk())
    requires p.secrets.Keys == ToyNames && forall name :: name in p.secrets ==> |p.secrets[name]| <= 1
    ensures MeetsStep(ToyLibrary(), ToyNames, s, p, j, op)
    ensures var (t, a) := Step(ToyLibrary(), s, op); var q, k := PlainStep(p, op, a), JournalStep(ToyLibrary(), s, j, op);
      && Related(ToyLibrary(), ToyNames, t, q) && a.Exported?
      && q == p.(saved := p.saved[(OldPassword, a.file) := p.secrets]) && k.latest == Some((OldPassword, a.file))
  {
    hide Export, Related, NoCollision, FileSize, IsWalk;
    var lib := ToyLibrary();
    LawsConsistent();
    AnyWalkWalks();
    SmallFile(s.header, p.secrets);
    ShortNames(Step(lib, s, op).0.index.hmacKey, ToyNames);
    StepRefines(lib, ToyNames, s, p, op);
  }

  lemma ToyReopen(s: VaultState, p: Plain, j: Journal, op: Op)
    requires Related(ToyLibrary(), ToyNames, s, p) && op.OpenOp? && op.password == OldPassword && op.openDraws == ToyOpen()
    requires (op.password, op.file) in p.saved && j.latest == Some((op.password, op.file))
    ensures MeetsStep(ToyLibrary(), ToyNames, s, p, j, op)
    ensures var (t, a) := Step(ToyLibrary(), s, op); var q := PlainStep(p, op, a);
      && Related(ToyLibrary(), ToyNames, t, q)
      && q == p.(secrets := p.saved[(OldPassword, op.file)], password := OldPassword)
  {
    hide Open, Related, NoCollision;
    var lib := ToyLibrary();
    LawsConsistent();
    ShortNames(Step(lib, s, op).0.index.hmacKey, ToyNames);
    StepRefines(lib, ToyNames, s, p, op);
  }

  /** A re-keying with two pairs of nonces is ready for a vault of two secrets. */
  lemma ToyEntriesReady(s: VaultState, d: RekeyDraws, hmacKey: Key)
    requires Genuine(ToyLibrary(), s.index) && |Secrets(ToyLibrary(), s.index)| == 2
    requires IsWalk(d.walk) && d.stores == [ToyDraws, ToyDraws]
    ensures EntriesReady(ToyLibrary(), s, d, hmacKey)
  {
    hide Genuine, Secrets, KeyForName, NameAt;
    SecretsSize(ToyLibrary(), s.index);
    var order := d.walk(s.index.files.Keys);
    EnumerationSize(order, s.index.files.Keys);
    forall i | 0 <= i < |order| ensures StepReady(ToyLibrary(), s.index, order[i], d.At(i), hmacKey) {
      ToyHmac(hmacKey, NameAt(ToyLibrary(), s.index, order[i]));
    }
  }

  lemma ToyChange(s: VaultState, p: Plain, j: Journal, op: Op)
    requires Related(ToyLibrary(), ToyNames, s, p) && |p.secrets| == 2 && p.password == OldPassword
    requires op == ChangePasswordOp(OldPassword, NewPassword, RekeyDraws(ToySalt, ToyKeys, AnyWalk(), [ToyDraws, ToyDraws]))
    ensures MeetsStep(ToyLibrary(), ToyNames, s, p, j, op)
    ensures PlainStep(p, op, Step(ToyLibrary(), s, op).1) == p.(password := NewPassword)
  {
    hide Step, PlainStep, NoCollision, DeriveKeys, NewVault, Secrets, Genuine, Sound, SavedAs, EntriesReady, Create;
    var lib, d := ToyLibrary(), op.rekeyDraws;
    LawsConsistent();
    AnyWalkWalks();
    ShortNames(Step(lib, s, op).0.index.hmacKey, ToyNames);
    StepRefines(lib, ToyNames, s, p, op);
    ToyNewVault(NewPassword);
    ToyEntriesReady(s, d, NewVault(lib, NewPassword, ToySalt, ToyKeys).value.index.hmacKey);
    assert Step(lib, s, op).1 == Done;
    ChangeStep(p, op);
  }

  lemma ChangeStep(p: Plain, op: Op)
    requires op.ChangePasswordOp?
    ensures PlainStep(p, op, Done) == p.(password := op.newPassword)
  {
  }

  const StoreOne: Op := StoreOp([1], [10], ToyDraws)
  const StoreTwo: Op := StoreOp([2], [20], ToyDraws)

  ghost function SaveIt(): Op {
    ExportOp(ToyNonce, AnyWalk())
  }

  ghost function Reopen(file: Bytes): Op {
    OpenOp(OldPassword, file, ToyOpen())
  }

  ghost function ChangeIt(): Op {
    ChangePasswordOp(OldPassword, NewPassword, RekeyDraws(ToySalt, ToyKeys, AnyWalk(), [ToyDraws, ToyDraws]))
  }

  /** Two names stored, the vault exported, the export opened, the password changed. */
  ghost function ToyRun(file: Bytes): seq<Op> {
    [StoreOne, StoreTwo, SaveIt(), Reopen(file), ChangeIt()]
  }

  const ToySecrets: map<Bytes, Bytes> := map[[1] := [10], [2] := [20]]

  function ToyFinal(file: Bytes): Plain {
    Plain(ToySecrets, NewPassword, map[(OldPassword, file) := ToySecrets])
  }

  lemma ToyReopenChange(s: VaultState, p: Plain, j: Journal, file: Bytes)
    requires Related(ToyLibrary(), ToyNames, s, p) && p == Plain(ToySecrets, OldPassword, map[(OldPassword, file) := ToySecrets])
    requires j.latest == Some((OldPassword, file))
    ensures Meets(ToyLibrary(), ToyNames, s, p, j, [Reopen(file), ChangeIt()], ToyFinal(file))
  {
    hide Step, PlainStep, JournalStep, MeetsStep, Related, NoCollision;
    var lib := ToyLibrary();
    ToyReopen(s, p, j, Reopen(file));
    var (t, a) := Step(lib, s, Reopen(file));
    assert PlainStep(p, Reopen(file), a) == p;
    var k := JournalStep(lib, s, j, Reopen(file));
    ToyChange(t, p, k, ChangeIt());
    MeetsMore(lib, ToyNames, t, p, k, ChangeIt(), [], ToyFinal(file));
    MeetsMore(lib, ToyNames, s, p, j, Reopen(file), [ChangeIt()] + [], ToyFinal(file));
    assert [Reopen(file)] + ([ChangeIt()] + []) == [Reopen(file), ChangeIt()];
  }

  lemma ToySave(s: VaultState, p: Plain, j: Journal) returns (file: Bytes)
    requires ToyAt(s, p, j, 2) && p == Plain(ToySecrets, OldPassword, map[])
    ensures Meets(ToyLibrary(), ToyNames, s, p, j, [SaveIt(), Reopen(file), ChangeIt()], ToyFinal(file))
  {
    hide Step, PlainStep, JournalStep, MeetsStep, Related, NoCollision, Meets;
    var lib := ToyLibrary();
    ToyExport(s, p, j, SaveIt());
    var (t, a) := Step(lib, s, SaveIt());
    file := a.file;
    ToyReopenChange(t, PlainStep(p, SaveIt(), a), JournalStep(lib, s, j, SaveIt()), file);
    MeetsMore(lib, ToyNames, s, p, j, SaveIt(), [Reopen(file), ChangeIt()], ToyFinal(file));
    assert [SaveIt()] + [Reopen(file), ChangeIt()] == [SaveIt(), Reopen(file), ChangeIt()];
  }

  lemma ToyStores(s: VaultState, p: Plain, j: Journal) returns (file: Bytes)
    requires ToyAt(s, p, j, 0) && p == Plain(map[], OldPassword, map[])
    ensures Meets(ToyLibrary(), ToyNames, s, p, j, ToyRun(file), ToyFinal(file))
  {
    hide Step, PlainStep, JournalStep, MeetsStep, ToyAt, Meets;
    var lib := ToyLibrary();
    ToyStore(s, p, j, 0, StoreOne);
    var (t, a) := Step(lib, s, StoreOne);
    var q, k := PlainStep(p, StoreOne, a), JournalStep(lib, s, j, StoreOne);
    file := ToySecondStore(t, q, k);
    MeetsMore(lib, ToyNames, s, p, j, StoreOne, [StoreTwo, SaveIt(), Reopen(file), ChangeIt()], ToyFinal(file));
    assert [StoreOne] + [StoreTwo, SaveIt(), Reopen(file), ChangeIt()] == ToyRun(file);
  }

  lemma ToySecondStore(s: VaultState, p: Plain, j: Journal) returns (file: Bytes)
    requires ToyAt(s, p, j, 1) && p == Plain(map[[1] := [10]], OldPassword, map[])
    ensures Meets(ToyLibrary(), ToyNames, s, p, j, [StoreTwo, SaveIt(), Reopen(file), ChangeIt()], ToyFinal(file))
  {
    hide Step, PlainStep, JournalStep, MeetsStep, ToyAt, Meets;
    var lib := ToyLibrary();
    ToyStore(s, p, j, 1, StoreTwo);
    var (t, a) := Step(lib, s, StoreTwo);
    var q, k := PlainStep(p, StoreTwo, a), JournalStep(lib, s, j, StoreTwo);
    file := ToySave(t, q, k);
    MeetsMore(lib, ToyNames, s, p, j, StoreTwo, [SaveIt(), Reopen(file), ChangeIt()], ToyFinal(file));
    assert [StoreTwo] + [SaveIt(), Reopen(file), ChangeIt()] == [StoreTwo, SaveIt(), Reopen(file), ChangeIt()];
  }

  /**
   * The hypotheses of `CreatedRunRefines` and `CreatedFresh`, and through them those of every theorem about a step, hold of
   * a run in which two names are stored, exported and opened again and the password is changed, each call succeeding.
   */
  lemma HypothesesMeetable()
    ensures ToyLibrary().Lawful() && ToyCreated().Ok?
    ensures var lib, s := ToyLibrary(), ToyCreated().value; var p := Plain(map[], OldPassword, map[]);
      && NoCollision(lib, s.index.hmacKey, ToyNames)
      && exists file: Bytes ::
           && LegalRun(lib, ToyNames, s, p, ToyRun(file)) && LinearRun(lib, s, NewJournal(OldPassword), ToyRun(file))
           && AllSucceed(lib, s, ToyRun(file))
           && FinalPlain(lib, s, p, ToyRun(file)) == ToyFinal(file)
  {
    hide Step, PlainStep, JournalStep, MeetsStep, Related, NoCollision, LegalRun, LinearRun, AllSucceed, FinalPlain, Create;
    var lib, p, j := ToyLibrary(), Plain(map[], OldPassword, map[]), NewJournal(OldPassword);
    ToyStart();
    var s := ToyCreated().value;
    ShortNames(s.index.hmacKey, ToyNames);
    ToyStarts();
    var file := ToyStores(s, p, j);
  }

  // ---------------------------------------------------------------- failures

  lemma FirstStore(s: VaultState, name: Bytes, data: Bytes)
    requires Genuine(ToyLibrary(), s.index) && Secrets(ToyLibrary(), s.index) == map[]
    requires s.index.dataNonceCounter == 0 && |s.index.files| == 0 && |name| <= MAX_ENTRY_NAME_LEN && |data| <= MAX_ENTRY_DATA_SIZE
    ensures CanStore(ToyLibrary(), s, name, data, ToyDraws) && Store(ToyLibrary(), s, name, data, ToyDraws).1.Ok?
    ensures Secrets(ToyLibrary(), Store(ToyLibrary(), s, name, data, ToyDraws).0.index) == map[name := data]
  {
    hide Store, DecryptEntry, Secrets, KeyForName, Genuine;
    LawsConsistent();
    ToyHmac(s.index.hmacKey, name);
    StoreEffect(ToyLibrary(), s, name, data, ToyDraws);
    StoreMeaning(ToyLibrary(), s, name, data, ToyDraws);
  }

  /** The fork of `ForkReuses` can be carried out: one pair under one key comes to protect two different secrets. */
  lemma ForkHappens()
    ensures ToyCreated().Ok?
    ensures var lib := ToyLibrary();
      var (t, file) := Export(lib, ToyCreated().value, ToyNonce, AnyWalk());
      && file.Ok?
      && var reopened := Open(lib, OldPassword, file.value, ToyOpen());
      && reopened.Ok?
      && var u, v := Store(lib, t, [], [1], ToyDraws).0.index, Store(lib, reopened.value, [], [2], ToyDraws).0.index;
         var key := KeyText(lib, t.index, []);
         && key in u.files && key in v.files && u.files[key].dataCounter == v.files[key].dataCounter && u.encKey == v.encKey
         && Secrets(lib, u) == map[[] := [1]] && Secrets(lib, v) == map[[] := [2]]
  {
    hide Create, Export, Open, Store, Sound, KeyedBy, Genuine, KeyText, IsWalk, Secrets, CanStore, FileSize;
    var lib := ToyLibrary();
    ToyStart();
    AnyWalkWalks();
    var s := ToyCreated().value;
    EmptyFile(s.header);
    SoundFiles(s);
    ExportAnswer(lib, s, ToyNonce, AnyWalk());
    ExportKeeps(lib, s, ToyNonce, AnyWalk(), OldPassword);
    ExportEffect(lib, s, ToyNonce, AnyWalk());
    ExportReopens(lib, s, OldPassword, ToyNonce, AnyWalk(), ToyOpen());
    var t := Export(lib, s, ToyNonce, AnyWalk()).0;
    FirstStore(t, [], [1]);
    FirstStore(t, [], [2]);
    ForkReuses(lib, s, OldPassword, ToyNonce, AnyWalk(), ToyOpen(), [], [1], [2], ToyDraws, ToyDraws);
  }

  lemma EmptyFile(header: VaultHeader)
    ensures FileSize(header, map[]) <= MAX_VAULT_FILE_SIZE
  {
    hide PrintHeader;
    HeaderLengthBound(header);
  }

  /** Without the hypothesis on HMACs a store can lose another secret: two calls, on names that share an HMAC, do it. */
  lemma ClashHappens()
    ensures ToyCreated().Ok?
    ensures var lib := ToyLibrary(); var one, other := Zeros(40), Zeros(41);
      var (s, r) := Store(lib, ToyCreated().value, one, [1], ToyDraws);
      var (t, q) := Store(lib, s, other, [2], ToyDraws);
      && r.Ok? && q.Ok? && Secrets(lib, s.index) == map[one := [1]] && one !in Secrets(lib, t.index)
  {
    hide Create, Store, Secrets, DecryptEntry, Genuine, KeyForName, Sound, KeyedBy;
    var lib := ToyLibrary();
    var one, other := Zeros(40), Zeros(41);
    ToyStart();
    FirstStore(ToyCreated().value, one, [1]);
    var s := Store(lib, ToyCreated().value, one, [1], ToyDraws).0;
    StoreEffect(lib, ToyCreated().value, one, [1], ToyDraws);
    StoreGenuine(lib, ToyCreated().value, one, [1], ToyDraws);
    StoreRoom(lib, ToyCreated().value, one, [1], ToyDraws);
    ToyHmac(s.index.hmacKey, one);
    ToyHmac(s.index.hmacKey, other);
    StoreEffect(lib, s, other, [2], ToyDraws);
    StoreGenuine(lib, s, other, [2], ToyDraws);
    StoredKey(lib, s, other, [2], ToyDraws);
    StoredAt(lib, s.index, Store(lib, s, other, [2], ToyDraws).0.index, other, [2], one);
  }
}
