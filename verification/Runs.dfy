/** Whole runs of a vault, against a machine that is nothing but a map of names to secrets. */
module Runs {
  import opened Access
  import opened Binary
  import opened Constants
  import opened Externals
  import opened IndexCodec
  import opened Invariants
  import opened Rekeying
  import opened Results
  import opened RoundTrip
  import opened VaultHeaders
  import opened VaultIndexes
  import opened VaultModel

  datatype Op =
    | StoreOp(name: Bytes, data: Bytes, storeDraws: StoreDraws)
    | RetrieveOp(name: Bytes)
    | RemoveOp(name: Bytes)
    | ExportOp(nonce: Option<Nonce>, walk: Walk)
    | ChangePasswordOp(current: Bytes, newPassword: Bytes, rekeyDraws: RekeyDraws)
    | OpenOp(password: Bytes, file: Bytes, openDraws: OpenDraws)

  datatype Answer = Done | Found(secret: Option<Bytes>) | Removed(existed: bool) | Exported(file: Bytes) | Failed(error: VaultError)

  function AnswerOf<T>(r: Result<T>, f: T -> Answer): Answer {
    match r case Ok(value) => f(value) case Err(e) => Failed(e)
  }

  /** One call on the current vault; a successful `open` makes the opened vault the current one. */
  function Step(lib: Library, s: VaultState, op: Op): (VaultState, Answer) {
    match op
    case StoreOp(name, data, d) =>
      var (t, r) := Store(lib, s, name, data, d);
      (t, AnswerOf(r, _ => Done))
    case RetrieveOp(name) =>
      (s, AnswerOf(Retrieve(lib, s, name), secret => Found(secret)))
    case RemoveOp(name) =>
      var (t, r) := Remove(lib, s, name);
      (t, AnswerOf(r, existed => Removed(existed)))
    case ExportOp(nonce, walk) =>
      var (t, r) := Export(lib, s, nonce, walk);
      (t, AnswerOf(r, file => Exported(file)))
    case ChangePasswordOp(current, newPassword, d) =>
      var (t, r) := ChangePassword(lib, s, current, newPassword, d);
      (t, AnswerOf(r, _ => Done))
    case OpenOp(password, file, d) =>
      match Open(lib, password, file, d)
      case Ok(t) => (t, Done)
      case Err(e) => (s, Failed(e))
  }

  function FinalState(lib: Library, s: VaultState, ops: seq<Op>): VaultState
    decreases |ops|
  {
    if ops == [] then s else FinalState(lib, Step(lib, s, ops[0]).0, ops[1..])
  }

  // ---------------------------------------------------------------- the plain machine

  /** The secrets, the password in force, and the secrets each exported file held, by password and bytes. */
  datatype Plain = Plain(secrets: map<Bytes, Bytes>, password: Bytes, saved: map<(Bytes, Bytes), map<Bytes, Bytes>>)

  /** Failed calls change nothing; the others do to the map what their names say. */
  function PlainStep(p: Plain, op: Op, a: Answer): Plain {
    match (op, a)
    case (_, Failed(_)) => p
    case (StoreOp(name, data, _), _) => p.(secrets := p.secrets[name := data])
    case (RetrieveOp(_), _) => p
    case (RemoveOp(name), _) => p.(secrets := p.secrets - {name})
    case (ExportOp(_, _), Exported(file)) => p.(saved := p.saved[(p.password, file) := p.secrets])
    case (ExportOp(_, _), _) => p
    case (ChangePasswordOp(_, newPassword, _), _) => p.(password := newPassword)
    case (OpenOp(password, file, _), _) =>
      if (password, file) in p.saved then p.(secrets := p.saved[(password, file)], password := password) else p
  }

  function FinalPlain(lib: Library, s: VaultState, p: Plain, ops: seq<Op>): Plain
    decreases |ops|
  {
    if ops == [] then p
    else
      var (t, a) := Step(lib, s, ops[0]);
      FinalPlain(lib, t, PlainStep(p, ops[0], a), ops[1..])
  }

  /**
   * The answer to a store: the limits, then what comes from outside the vault (an HMAC, a counter, two nonces), then the
   * room left in the map.
   */
  function StoreAnswer(lib: Library, s: VaultState, p: Plain, name: Bytes, data: Bytes, d: StoreDraws): Answer {
    if |name| > MAX_ENTRY_NAME_LEN then Failed(InvalidInput(NameTooLong))
    else if |data| > MAX_ENTRY_DATA_SIZE then Failed(InvalidInput(DataTooLarge))
    else if KeyForName(lib, s.index.hmacKey, name).Err? then Failed(CryptoError(Hmac))
    else if s.index.dataNonceCounter == U64_MAX then Failed(CryptoError(CounterOverflow))
    else if d.dataNonce.None? || d.nameNonce.None? then Failed(CryptoError(Random))
    else if name !in p.secrets && |p.secrets| >= MAX_INDEX_ENTRIES then Failed(InvalidInput(IndexFull))
    else Done
  }

  /**
   * The answers of the plain machine: its own lookups and its own sizes. The vault's state serves only to tell what comes
   * from outside: whether the HMAC of a name exists, a counter is left, a password derives the key in memory.
   */
  ghost predicate Answered(lib: Library, s: VaultState, p: Plain, op: Op, a: Answer) {
    match op
    case StoreOp(name, data, d) => a == StoreAnswer(lib, s, p, name, data, d)
    case RetrieveOp(name) =>
      a == if KeyForName(lib, s.index.hmacKey, name).Ok? then Found(Lookup(p.secrets, name)) else Failed(CryptoError(Hmac))
    case RemoveOp(name) =>
      a == if KeyForName(lib, s.index.hmacKey, name).Ok? then Removed(name in p.secrets) else Failed(CryptoError(Hmac))
    case ExportOp(nonce, _) =>
      if s.index.nonceCounter == U64_MAX then a == Failed(CryptoError(CounterOverflow))
      else if nonce.None? then a == Failed(CryptoError(Random))
      else if FileSize(s.header, p.secrets) > MAX_VAULT_FILE_SIZE then a == Failed(SerializationError)
      else a.Exported? && |a.file| == FileSize(s.header, p.secrets)
    case ChangePasswordOp(current, newPassword, d) => ChangeAnswered(lib, s, p, current, newPassword, d, a)
    case OpenOp(password, file, d) =>
      if (password, file) in p.saved then
        a == if d.lockEnc && d.lockHmac then Done else Failed(CryptoError(LockedMemory))
      else a.Failed?
  }

  ghost predicate ChangeAnswered(lib: Library, s: VaultState, p: Plain, current: Bytes, newPassword: Bytes, d: RekeyDraws, a: Answer) {
    var keys := DeriveKeys(lib, current, s.header); var empty := NewVault(lib, newPassword, d.salt, d.keys);
    if |newPassword| < MIN_PASSWORD_LEN then a == Failed(InvalidInput(PasswordTooShort))
    else if keys.Err? then a == Failed(keys.error) && current != p.password
    else if keys.value.0 != s.index.encKey then a == Failed(InvalidPassword) && current != p.password
    else
      && (a == Done <==> empty.Ok? && EntriesReady(lib, s, d, empty.value.index.hmacKey))
      && (a == Done || (a.Failed? && Environmental(a.error)))
  }

  ghost predicate AllAnswered(lib: Library, s: VaultState, p: Plain, ops: seq<Op>)
    decreases |ops|
  {
    ops == [] ||
    var (t, a) := Step(lib, s, ops[0]);
    Answered(lib, s, p, ops[0], a) && AllAnswered(lib, t, PlainStep(p, ops[0], a), ops[1..])
  }

  // ---------------------------------------------------------------- hypotheses on a run

  /** Names are text drawn from `names`, maps are walked, and only files of this run open, under their own password. */
  ghost predicate Legal(lib: Library, names: set<Bytes>, s: VaultState, p: Plain, op: Op) {
    match op
    case StoreOp(name, _, _) => name in names && lib.utf8(name)
    case RetrieveOp(name) => name in names
    case RemoveOp(name) => name in names
    case ExportOp(_, walk) => IsWalk(walk)
    case ChangePasswordOp(_, _, d) => IsWalk(d.walk)
    case OpenOp(password, file, d) => Open(lib, password, file, d).Ok? ==> (password, file) in p.saved
  }

  /** Every call is legal, and the names never collide under a key the run puts in force. */
  ghost predicate LegalRun(lib: Library, names: set<Bytes>, s: VaultState, p: Plain, ops: seq<Op>)
    decreases |ops|
  {
    ops == [] ||
    var (t, a) := Step(lib, s, ops[0]);
    && Legal(lib, names, s, p, ops[0])
    && NoCollision(lib, t.index.hmacKey, names)
    && LegalRun(lib, names, t, PlainStep(p, ops[0], a), ops[1..])
  }

  // ---------------------------------------------------------------- the relation

  ghost predicate Represents(lib: Library, names: set<Bytes>, s: VaultState, secrets: map<Bytes, Bytes>, password: Bytes) {
    && Sound(s) && Genuine(lib, s.index) && KeyedBy(lib, s, password)
    && NoCollision(lib, s.index.hmacKey, names)
    && Secrets(lib, s.index) == secrets && secrets.Keys <= names
  }

  ghost predicate SavedAs(lib: Library, names: set<Bytes>, password: Bytes, file: Bytes, secrets: map<Bytes, Bytes>) {
    exists t :: OpensTo(lib, password, file, t) && Represents(lib, names, t, secrets, password)
  }

  ghost predicate Related(lib: Library, names: set<Bytes>, s: VaultState, p: Plain) {
    && Represents(lib, names, s, p.secrets, p.password)
    && forall f :: f in p.saved ==> SavedAs(lib, names, f.0, f.1, p.saved[f])
  }

  lemma StoreAnswered(lib: Library, names: set<Bytes>, s: VaultState, p: Plain, name: Bytes, data: Bytes, d: StoreDraws)
    requires lib.Lawful() && Represents(lib, names, s, p.secrets, p.password) && name in names
    ensures AnswerOf(Store(lib, s, name, data, d).1, _ => Done) == StoreAnswer(lib, s, p, name, data, d)
  {
    hide SealEntry, Secrets, NoCollision, DecryptEntry, SizesInWindow, DeriveKeys, NameAt, DataAt;
    if |name| <= MAX_ENTRY_NAME_LEN && |data| <= MAX_ENTRY_DATA_SIZE && KeyForName(lib, s.index.hmacKey, name).Ok? {
      var key := KeyText(lib, s.index, name);
      SealedEntry(lib, s.index.encKey, key, s.index.dataNonceCounter, name, data, d);
      CollisionFreeLookup(lib, s.index, names, name);
      KeyOwner(lib, s.index, name);
      SecretsSize(lib, s.index);
    }
  }

  /** One secret for each entry. */
  lemma SecretsSize(lib: Library, s: IndexState)
    requires Genuine(lib, s)
    ensures |Secrets(lib, s)| == |s.files|
  {
    hide Secrets, KeyForName, DecryptEntry, NameAt;
    forall key | key in s.files.Keys
      ensures NameAt(lib, s, key) in Secrets(lib, s).Keys && KeyText(lib, s, NameAt(lib, s, key)) == key
    {
      EntrySecret(lib, s, key);
    }
    forall name | name in Secrets(lib, s).Keys
      ensures KeyText(lib, s, name) in s.files.Keys && NameAt(lib, s, KeyText(lib, s, name)) == name
    {
      SecretsExact(lib, s, name);
    }
    SameSize(s.files.Keys, Secrets(lib, s).Keys, key => NameAt(lib, s, key), name => KeyText(lib, s, name));
    assert |Secrets(lib, s).Keys| == |Secrets(lib, s)| && |s.files.Keys| == |s.files|;
  }

  lemma {:induction false} SameSize(a: set<Bytes>, b: set<Bytes>, f: Bytes -> Bytes, g: Bytes -> Bytes)
    requires forall x :: x in a ==> f(x) in b && g(f(x)) == x
    requires forall y :: y in b ==> g(y) in a && f(g(y)) == y
    ensures |a| == |b|
  {
    if a == {} {
      assert forall y :: y in b ==> g(y) in a;
      assert b == {};
    } else {
      var x :| x in a;
      SameSize(a - {x}, b - {f(x)}, f, g);
    }
  }

  lemma StoreRefines(lib: Library, names: set<Bytes>, s: VaultState, p: Plain, op: Op)
    requires lib.Lawful() && Represents(lib, names, s, p.secrets, p.password) && Legal(lib, names, s, p, op) && op.StoreOp?
    ensures var (t, a) := Step(lib, s, op); var q := PlainStep(p, op, a);
      Answered(lib, s, p, op, a) && Represents(lib, names, t, q.secrets, q.password) && q.saved == p.saved
  {
    hide Store, Secrets, Genuine, NoCollision, Sound, DeriveKeys, StoreAnswer;
    StoreAnswered(lib, names, s, p, op.name, op.data, op.storeDraws);
    StoreEffect(lib, s, op.name, op.data, op.storeDraws);
    StoreKeepsSound(lib, s, op.name, op.data, op.storeDraws);
    StoreGenuine(lib, s, op.name, op.data, op.storeDraws);
    StoreMeaning(lib, s, op.name, op.data, op.storeDraws);
    CollisionFreeLookup(lib, s.index, names, op.name);
  }

  lemma ReadRefines(lib: Library, names: set<Bytes>, s: VaultState, p: Plain, op: Op)
    requires lib.Lawful() && Represents(lib, names, s, p.secrets, p.password) && Legal(lib, names, s, p, op)
    requires op.RetrieveOp? || op.RemoveOp?
    ensures var (t, a) := Step(lib, s, op); var q := PlainStep(p, op, a);
      Answered(lib, s, p, op, a) && Represents(lib, names, t, q.secrets, q.password) && q.saved == p.saved
  {
    hide Retrieve, Remove, Secrets, Genuine, NoCollision, DeriveKeys, KeyForName, SoundIndex;
    CollisionFreeLookup(lib, s.index, names, op.name);
    if op.RetrieveOp? {
      RetrieveMeaning(lib, s, op.name);
    } else {
      RemoveEffect(lib, s, op.name);
      RemoveSound(lib, s, op.name);
      RemoveGenuine(lib, s, op.name);
      RemoveMeaning(lib, s, op.name);
    }
  }

  lemma SoundFiles(s: VaultState)
    requires Sound(s)
    ensures WellFormed(s.index.files)
  {
  }

  lemma ExportRefines(lib: Library, names: set<Bytes>, s: VaultState, p: Plain, op: Op)
    requires lib.Lawful() && Related(lib, names, s, p) && Legal(lib, names, s, p, op) && op.ExportOp?
    ensures var (t, a) := Step(lib, s, op); var q := PlainStep(p, op, a);
      Answered(lib, s, p, op, a) && Related(lib, names, t, q)
  {
    hide Export, Secrets, Genuine, NoCollision, SoundIndex, KeyedBy, OpensTo, IsWalk, FileSize;
    ExportEffect(lib, s, op.nonce, op.walk);
    ExportKeeps(lib, s, op.nonce, op.walk, p.password);
    SoundFiles(s);
    ExportAnswer(lib, s, op.nonce, op.walk);
    var (t, r) := Export(lib, s, op.nonce, op.walk);
    if r.Ok? {
      ExportOpens(lib, s, p.password, op.nonce, op.walk);
      assert SavedAs(lib, names, p.password, r.value, p.secrets);
    }
  }

  lemma ChangePasswordRefines(lib: Library, names: set<Bytes>, s: VaultState, p: Plain, op: Op)
    requires lib.Lawful() && Represents(lib, names, s, p.secrets, p.password) && Legal(lib, names, s, p, op) && op.ChangePasswordOp?
    requires NoCollision(lib, Step(lib, s, op).0.index.hmacKey, names)
    ensures var (t, a) := Step(lib, s, op); var q := PlainStep(p, op, a);
      Answered(lib, s, p, op, a) && Represents(lib, names, t, q.secrets, q.password) && q.saved == p.saved
  {
    hide Rekeyed, Secrets, Genuine, IsWalk, NoCollision, DeriveKeys, NewVault, EntriesReady, KeyForName;
    VerifyAnswer(lib, s, op.current);
    RekeyExact(lib, s, op.newPassword, op.rekeyDraws);
    if Rekeyed(lib, s, op.newPassword, op.rekeyDraws).Ok? {
      RekeyedSound(lib, s, op.newPassword, op.rekeyDraws);
      RekeyMeaning(lib, s, op.newPassword, op.rekeyDraws);
      if Step(lib, s, op).1 == Done {
        FewerNames(lib, Step(lib, s, op).0.index.hmacKey, p.secrets.Keys, names);
      }
    }
  }

  lemma FewerNames(lib: Library, hmacKey: Key, few: set<Bytes>, names: set<Bytes>)
    requires NoCollision(lib, hmacKey, names) && few <= names
    ensures NoCollision(lib, hmacKey, few)
  {
  }

  lemma VerifyAnswer(lib: Library, s: VaultState, password: Bytes)
    ensures var keys := DeriveKeys(lib, password, s.header);
      VerifyPassword(lib, s, password) ==
      if keys.Err? then Err(keys.error) else if keys.value.0 == s.index.encKey then Ok(()) else Err(InvalidPassword)
  {
    hide DeriveKeys;
    if DeriveKeys(lib, password, s.header).Ok? {
      var (enc, hmac) := DeriveKeys(lib, password, s.header).value;
    }
  }

  lemma OpenRefines(lib: Library, names: set<Bytes>, s: VaultState, p: Plain, op: Op)
    requires lib.Lawful() && Related(lib, names, s, p) && Legal(lib, names, s, p, op) && op.OpenOp?
    ensures var (t, a) := Step(lib, s, op); var q := PlainStep(p, op, a);
      Answered(lib, s, p, op, a) && Related(lib, names, t, q)
  {
    hide Open, Represents;
    var f := (op.password, op.file);
    if f in p.saved {
      assert SavedAs(lib, names, f.0, f.1, p.saved[f]);
      var t :| OpensTo(lib, op.password, op.file, t) && Represents(lib, names, t, p.saved[f], op.password);
    }
  }

  /** One call keeps the vault and the plain machine in step. */
  lemma StepRefines(lib: Library, names: set<Bytes>, s: VaultState, p: Plain, op: Op)
    requires lib.Lawful() && Related(lib, names, s, p) && Legal(lib, names, s, p, op)
    requires NoCollision(lib, Step(lib, s, op).0.index.hmacKey, names)
    ensures var (t, a) := Step(lib, s, op);
      Answered(lib, s, p, op, a) && Related(lib, names, t, PlainStep(p, op, a))
  {
    hide Step, PlainStep, Answered, Represents, SavedAs, Legal, NoCollision;
    match op
    case StoreOp(_, _, _) => StoreRefines(lib, names, s, p, op);
    case RetrieveOp(_) => ReadRefines(lib, names, s, p, op);
    case RemoveOp(_) => ReadRefines(lib, names, s, p, op);
    case ExportOp(_, _) => ExportRefines(lib, names, s, p, op);
    case ChangePasswordOp(_, _, _) => ChangePasswordRefines(lib, names, s, p, op);
    case OpenOp(_, _, _) => OpenRefines(lib, names, s, p, op);
  }

  /**
   * Refinement over every run: after any sequence of calls, failing ones included, decrypting the index gives
   * exactly the map the plain machine holds, and every answer along the way is the plain machine's.
   */
  lemma {:induction false} RunRefines(lib: Library, names: set<Bytes>, s: VaultState, p: Plain, ops: seq<Op>)
    requires lib.Lawful() && Related(lib, names, s, p) && LegalRun(lib, names, s, p, ops)
    ensures AllAnswered(lib, s, p, ops)
    ensures Related(lib, names, FinalState(lib, s, ops), FinalPlain(lib, s, p, ops))
    decreases |ops|
  {
    hide Step, PlainStep, Answered, Related, Legal, NoCollision;
    if ops != [] {
      StepRefines(lib, names, s, p, ops[0]);
      var (t, a) := Step(lib, s, ops[0]);
      RunRefines(lib, names, t, PlainStep(p, ops[0], a), ops[1..]);
    }
  }

  /** A run that starts with `create`. */
  lemma CreatedRunRefines(lib: Library, names: set<Bytes>, password: Bytes, salt: Option<Salt>, d: KeyDraws, ops: seq<Op>)
    requires lib.Lawful() && Create(lib, password, salt, d).Ok?
    requires var s := Create(lib, password, salt, d).value;
      NoCollision(lib, s.index.hmacKey, names) && LegalRun(lib, names, s, Plain(map[], password, map[]), ops)
    ensures var s := Create(lib, password, salt, d).value; var p := Plain(map[], password, map[]);
      && AllAnswered(lib, s, p, ops)
      && Secrets(lib, FinalState(lib, s, ops).index) == FinalPlain(lib, s, p, ops).secrets
      && KeyedBy(lib, FinalState(lib, s, ops), FinalPlain(lib, s, p, ops).password)
  {
    hide NewVault, Secrets, Genuine, Sound, NoCollision, LegalRun, AllAnswered, KeyedBy;
    NewVaultReady(lib, password, salt, d);
    var s := Create(lib, password, salt, d).value;
    NothingCarried(lib, s.index, [], s.index);
    RunRefines(lib, names, s, Plain(map[], password, map[]), ops);
  }

  // ---------------------------------------------------------------- structure, over any run at all

  /** The password in force after a call. */
  function PasswordAfter(password: Bytes, op: Op, a: Answer): Bytes {
    match op
    case ChangePasswordOp(_, newPassword, _) => if a == Done then newPassword else password
    case OpenOp(given, _, _) => if a == Done then given else password
    case _ => password
  }

  function FinalPassword(lib: Library, s: VaultState, password: Bytes, ops: seq<Op>): Bytes
    decreases |ops|
  {
    if ops == [] then password
    else
      var (t, a) := Step(lib, s, ops[0]);
      FinalPassword(lib, t, PasswordAfter(password, ops[0], a), ops[1..])
  }

  lemma StepSound(lib: Library, s: VaultState, password: Bytes, op: Op)
    requires lib.Lawful() && Sound(s) && KeyedBy(lib, s, password)
    ensures var (t, a) := Step(lib, s, op);
      Sound(t) && KeyedBy(lib, t, PasswordAfter(password, op, a))
  {
    hide Store, Remove, Retrieve, Export, Open, Rekeyed, VerifyPassword, SoundIndex, DeriveKeys;
    match op
    case StoreOp(name, data, d) =>
      StoreKeepsSound(lib, s, name, data, d);
      StoreEffect(lib, s, name, data, d);
    case RetrieveOp(_) =>
    case RemoveOp(name) =>
      RemoveSound(lib, s, name);
      RemoveEffect(lib, s, name);
    case ExportOp(nonce, walk) =>
      ExportKeeps(lib, s, nonce, walk, password);
    case ChangePasswordOp(current, newPassword, d) =>
      if Rekeyed(lib, s, newPassword, d).Ok? {
        RekeyedSound(lib, s, newPassword, d);
      }
    case OpenOp(given, file, d) =>
      if Open(lib, given, file, d).Ok? {
        OpenSound(lib, given, file, d);
      }
  }

  /**
   * After any calls whatsoever, with any arguments and any files opened, the vault is structurally sound and keyed
   * by the password in force, so an export from there opens to the very same vault.
   */
  lemma {:induction false} RunExportOpens(lib: Library, s: VaultState, password: Bytes, ops: seq<Op>, nonce: Option<Nonce>, walk: Walk)
    requires lib.Lawful() && Sound(s) && KeyedBy(lib, s, password) && IsWalk(walk)
    ensures var t := FinalState(lib, s, ops); var current := FinalPassword(lib, s, password, ops);
      && Sound(t) && KeyedBy(lib, t, current)
      && var (e, r) := Export(lib, t, nonce, walk); r.Ok? ==> OpensTo(lib, current, r.value, e)
    decreases |ops|
  {
    hide Step, Export, OpensTo, Sound, KeyedBy, PasswordAfter, IsWalk;
    if ops == [] {
      if Export(lib, s, nonce, walk).1.Ok? {
        ExportOpens(lib, s, password, nonce, walk);
      }
    } else {
      StepSound(lib, s, password, ops[0]);
      var (t, a) := Step(lib, s, ops[0]);
      RunExportOpens(lib, t, PasswordAfter(password, ops[0], a), ops[1..], nonce, walk);
    }
  }
}
