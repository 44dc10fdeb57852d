/** Adoption of a legacy schema: one transaction of locks, checks and writes, racing other adopters,
  schema changes that take the maintenance lock or the schema lock, and writers of rows. */
module Adoption {
  import opened Wrappers
  import opened Identity

  // ---- What the database holds ----

  datatype SchemaFacts = SchemaFacts(
    ownedByOperator: bool, defaultAcl: bool, tableDefaults: bool, otherDefaults: bool, comment: bool, securityLabel: bool)

  datatype Table = Table(ordinary: bool, exact: bool, ownedByOperator: bool, defaultAcl: bool)

  datatype Migration = Migration(version: nat, name: string, checksum: string)

  /** `relations` maps the relations of the audit schema to their kinds, `managed` holds the rows of
    its migration ledger, `history` the names in the legacy ledger. */
  datatype Database = Database(
    audit: Option<SchemaFacts>, platform: Option<SchemaFacts>, auditPublished: bool, platformPublished: bool,
    relations: map<string, string>, managed: seq<Migration>, ledger: Option<Table>, history: seq<string>,
    events: Option<Table>, eventRows: seq<string>)

  const MANAGED_LEDGER := "_lenso_schema_migrations"
  const MANAGED_LEDGER_KEY := "_lenso_schema_migrations_pkey"
  const LEGACY_PREFIX := "audit-log/"
  const LEGACY_MIGRATION := "audit-log/0001_create_audit_log_schema"
  const MIGRATION_VERSION: nat := 1
  const MIGRATION_NAME := "create-audit-log-schema"

  const INVENTORY: map<string, string> := map[
    "audit_log_events_actor_idx" := "i", "audit_log_events_correlation_idx" := "i", "audit_log_events_module_idx" := "i",
    "audit_log_events_occurred_at_idx" := "i", "audit_log_events_resource_idx" := "i",
    "audit_log_events_scope_idx" := "i", "events" := "r", "events_pkey" := "i"]

  predicate Managed(db: Database) { MANAGED_LEDGER in db.relations }

  /** The legacy ledger's own evidence of the audit log. */
  function Evidence(names: seq<string>): seq<string> {
    if names == [] then []
    else (if LEGACY_PREFIX <= names[0] then [names[0]] else []) + Evidence(names[1..])
  }

  // ---- Checks ----

  datatype Refusal =
    | MissingOwnedSchema | OwnershipMismatch | UnexpectedPrivileges | AlreadyManaged
    | LegacyLedgerMissing | LegacyLedgerDiverged | SchemaShapeDiverged

  datatype Fact =
    | AuditSchema | AuditUnpublished | PlatformUnpublished | Unmanaged | LedgerPresent | PlatformSchema
    | LedgerExact | LedgerOwned | LegacyHistory | ExactInventory | EventsExact | EventsOwned

  function ExamineSchema(schema: Option<SchemaFacts>, metadata: Refusal): Option<Refusal> {
    match schema
    case None => Some(MissingOwnedSchema)
    case Some(s) =>
      if !s.ownedByOperator then Some(OwnershipMismatch)
      else if !s.defaultAcl || s.tableDefaults || s.otherDefaults then Some(UnexpectedPrivileges)
      else if s.comment || s.securityLabel then Some(metadata)
      else None
  }

  function ExamineTable(table: Option<Table>): Option<Refusal> {
    match table
    case None => Some(SchemaShapeDiverged)
    case Some(t) =>
      if !t.ownedByOperator then Some(OwnershipMismatch)
      else if !t.defaultAcl then Some(UnexpectedPrivileges)
      else None
  }

  function RefuseUnless(condition: bool, reason: Refusal): Option<Refusal> {
    if condition then None else Some(reason)
  }

  /** The refusal a check reports, if it refuses. */
  function Examine(db: Database, fact: Fact): Option<Refusal> {
    match fact
    case AuditSchema => ExamineSchema(db.audit, SchemaShapeDiverged)
    case AuditUnpublished => RefuseUnless(!db.auditPublished, SchemaShapeDiverged)
    case PlatformUnpublished => RefuseUnless(!db.platformPublished, LegacyLedgerDiverged)
    case Unmanaged => RefuseUnless(!Managed(db), AlreadyManaged)
    case LedgerPresent => RefuseUnless(db.ledger.Some? && db.ledger.value.ordinary, LegacyLedgerMissing)
    case PlatformSchema => ExamineSchema(db.platform, LegacyLedgerDiverged)
    case LedgerExact => RefuseUnless(db.ledger.Some? && db.ledger.value.exact, LegacyLedgerDiverged)
    case LedgerOwned => ExamineTable(db.ledger)
    case LegacyHistory => RefuseUnless(Evidence(db.history) == [LEGACY_MIGRATION], LegacyLedgerDiverged)
    case ExactInventory => RefuseUnless(db.relations == INVENTORY, SchemaShapeDiverged)
    case EventsExact => RefuseUnless(db.events.Some? && db.events.value.exact, SchemaShapeDiverged)
    case EventsOwned => ExamineTable(db.events)
  }

  /** A table created by the operator is the operator's, and its grants come from the default
    privileges that apply in the schema. */
  function CreatedTable(db: Database): Table {
    Table(true, true, true, !(db.audit.Some? && db.audit.value.tableDefaults))
  }

  // ---- The transaction, statement by statement ----

  datatype Mode = Maintenance | SchemaLock | LedgerShare | LedgerWrite | EventsExclusive | EventsWrite

  datatype Op = Take(mode: Mode) | Check(fact: Fact) | CreateLedger | CheckCreated | Record | Commit

  const SCRIPT: seq<Op> := [
    Take(Maintenance), Take(SchemaLock), Check(AuditSchema), Check(AuditUnpublished), Check(PlatformUnpublished),
    Check(Unmanaged), Check(LedgerPresent), Check(PlatformSchema), Take(LedgerShare), Check(LedgerExact),
    Check(LedgerOwned), Check(LegacyHistory), Check(ExactInventory), Take(EventsExclusive), Check(EventsExact),
    Check(EventsOwned), Check(AuditUnpublished), Check(PlatformUnpublished), Check(Unmanaged), CreateLedger,
    CheckCreated, Record, Commit]

  datatype Outcome = Adopted | Refused(reason: Refusal) | Aborted

  /** What an operation finds wrong. */
  function Objection(db: Database, op: Op): Option<Refusal> {
    match op
    case Check(fact) => Examine(db, fact)
    case CheckCreated => ExamineTable(Some(CreatedTable(db)))
    case _ => None
  }

  /** The outcome of running the rest of the transaction with nothing in between. */
  function VerdictFrom(db: Database, pc: nat): Outcome
    requires pc <= |SCRIPT|
    decreases |SCRIPT| - pc
  {
    if pc == |SCRIPT| then Adopted
    else if Objection(db, SCRIPT[pc]).Some? then Refused(Objection(db, SCRIPT[pc]).value)
    else VerdictFrom(db, pc + 1)
  }

  function Verdict(db: Database): Outcome { VerdictFrom(db, 0) }

  /** The database with the new ledger and these rows in it. */
  function Installed(db: Database, rows: seq<Migration>): Database {
    db.(relations := db.relations[MANAGED_LEDGER := "r"][MANAGED_LEDGER_KEY := "i"], managed := rows)
  }

  ghost predicate Adoptable(db: Database) { forall fact: Fact :: Examine(db, fact).None? }

  lemma ScriptChecks()
    ensures forall fact: Fact :: Check(fact) in SCRIPT
  {
    assert SCRIPT[2] == Check(AuditSchema) && SCRIPT[3] == Check(AuditUnpublished);
    assert SCRIPT[4] == Check(PlatformUnpublished);
    assert SCRIPT[5] == Check(Unmanaged) && SCRIPT[6] == Check(LedgerPresent) && SCRIPT[7] == Check(PlatformSchema);
    assert SCRIPT[9] == Check(LedgerExact) && SCRIPT[10] == Check(LedgerOwned) && SCRIPT[11] == Check(LegacyHistory);
    assert SCRIPT[12] == Check(ExactInventory) && SCRIPT[14] == Check(EventsExact) && SCRIPT[15] == Check(EventsOwned);
    forall fact: Fact ensures Check(fact) in SCRIPT {
      match fact {
        case AuditSchema => case AuditUnpublished => case PlatformUnpublished => case Unmanaged =>
        case LedgerPresent => case PlatformSchema => case LedgerExact => case LedgerOwned =>
        case LegacyHistory => case ExactInventory => case EventsExact => case EventsOwned =>
      }
    }
  }

  lemma {:induction false} VerdictMeaningFrom(db: Database, pc: nat)
    requires pc <= |SCRIPT|
    ensures VerdictFrom(db, pc) == Adopted <==> forall k :: pc <= k < |SCRIPT| ==> Objection(db, SCRIPT[k]).None?
    decreases |SCRIPT| - pc
  {
    hide Objection;
    if pc < |SCRIPT| {
      VerdictMeaningFrom(db, pc + 1);
    }
  }

  lemma NoObjection(db: Database, op: Op)
    requires Adoptable(db)
    ensures Objection(db, op).None?
  {
    hide Examine;
    if op.Check? {
      assert Examine(db, op.fact).None?;
    }
    NoGrants(db);
  }

  lemma NoGrants(db: Database)
    requires Adoptable(db)
    ensures ExamineTable(Some(CreatedTable(db))).None?
  {
    assert Examine(db, AuditSchema).None?;
  }

  lemma {:induction false} ObjectionsCover(db: Database, facts: seq<Op>, fact: Fact)
    requires Check(fact) in facts && forall k :: 0 <= k < |facts| ==> Objection(db, facts[k]).None?
    ensures Examine(db, fact).None?
  {
    var k :| 0 <= k < |facts| && facts[k] == Check(fact);
    assert Objection(db, facts[k]).None?;
  }

  /** A database is adopted exactly when every fact holds. The check of the newly created ledger
    never adds a refusal. */
  lemma VerdictMeaning(db: Database)
    ensures Verdict(db) == Adopted <==> Adoptable(db)
  {
    VerdictMeaningFrom(db, 0);
    ScriptChecks();
    hide Objection, Examine, VerdictFrom;
    if forall k :: 0 <= k < |SCRIPT| ==> Objection(db, SCRIPT[k]).None? {
      forall fact: Fact ensures Examine(db, fact).None? {
        ObjectionsCover(db, SCRIPT, fact);
      }
    }
    if Adoptable(db) {
      forall k | 0 <= k < |SCRIPT| ensures Objection(db, SCRIPT[k]).None? {
        NoObjection(db, SCRIPT[k]);
      }
    }
  }

  // ---- The verdict in terms of the catalog ----

  /** A schema is there, the operator's, without grants, and without comment or label. */
  function SchemaConditions(schema: Option<SchemaFacts>, metadata: Refusal): seq<(bool, Refusal)> {
    var s := if schema.Some? then schema.value else SchemaFacts(false, false, true, true, true, true);
    [(schema.Some?, MissingOwnedSchema),
     (s.ownedByOperator, OwnershipMismatch),
     (s.defaultAcl && !s.tableDefaults && !s.otherDefaults, UnexpectedPrivileges),
     (!s.comment && !s.securityLabel, metadata)]
  }

  /** Exactly one of the names begins with the audit log's prefix, and it is the one migration. */
  ghost predicate OneMigration(names: seq<string>) {
    exists i :: 0 <= i < |names| && names[i] == "audit-log/0001_create_audit_log_schema"
                && forall j :: 0 <= j < |names| && "audit-log/" <= names[j] ==> j == i
  }

  predicate EightRelations(relations: map<string, string>) {
    relations == map[
      "events" := "r", "events_pkey" := "i", "audit_log_events_actor_idx" := "i",
      "audit_log_events_correlation_idx" := "i", "audit_log_events_module_idx" := "i",
      "audit_log_events_occurred_at_idx" := "i", "audit_log_events_resource_idx" := "i",
      "audit_log_events_scope_idx" := "i"]
  }

  /** What a legacy database is like, in the order in which it is looked at, each condition with the
    reason that is given if it is the first to fail. */
  ghost function CatalogConditions(db: Database): seq<(bool, Refusal)> {
    var ledger := if db.ledger.Some? then db.ledger.value else Table(false, false, false, false);
    var events := if db.events.Some? then db.events.value else Table(false, false, false, false);
    SchemaConditions(db.audit, SchemaShapeDiverged)
    + [(!db.auditPublished, SchemaShapeDiverged),
       (!db.platformPublished, LegacyLedgerDiverged),
       ("_lenso_schema_migrations" !in db.relations, AlreadyManaged),
       (ledger.ordinary, LegacyLedgerMissing)]
    + SchemaConditions(db.platform, LegacyLedgerDiverged)
    + [(ledger.exact, LegacyLedgerDiverged),
       (ledger.ownedByOperator, OwnershipMismatch),
       (ledger.defaultAcl, UnexpectedPrivileges),
       (OneMigration(db.history), LegacyLedgerDiverged),
       (EightRelations(db.relations), SchemaShapeDiverged),
       (events.exact, SchemaShapeDiverged),
       (events.ownedByOperator, OwnershipMismatch),
       (events.defaultAcl, UnexpectedPrivileges)]
  }

  function FirstFailure(conditions: seq<(bool, Refusal)>): Option<Refusal> {
    if conditions == [] then None
    else if !conditions[0].0 then Some(conditions[0].1)
    else FirstFailure(conditions[1..])
  }

  /** All hold, and the reason of the first that fails: what FirstFailure says without recursion. */
  lemma {:induction false} FirstFailureIsFirst(conditions: seq<(bool, Refusal)>, reason: Refusal)
    ensures FirstFailure(conditions) == None <==> forall i :: 0 <= i < |conditions| ==> conditions[i].0
    ensures FirstFailure(conditions) == Some(reason)
            <==> exists i :: 0 <= i < |conditions| && !conditions[i].0 && conditions[i].1 == reason
                             && forall j :: 0 <= j < i ==> conditions[j].0
  {
    if conditions != [] {
      var tail := conditions[1..];
      FirstFailureIsFirst(tail, reason);
      if conditions[0].0 {
        if i :| 0 <= i < |tail| && !tail[i].0 && tail[i].1 == reason && forall j :: 0 <= j < i ==> tail[j].0 {
          assert conditions[i + 1] == tail[i] && forall j :: 1 <= j < i + 1 ==> conditions[j] == tail[j - 1];
        }
        if i :| 0 <= i < |conditions| && !conditions[i].0 && conditions[i].1 == reason && forall j :: 0 <= j < i ==> conditions[j].0 {
          assert tail[i - 1] == conditions[i] && forall j :: 0 <= j < i - 1 ==> tail[j] == conditions[j + 1];
        }
      }
    }
  }

  lemma {:induction false} FailureConcat(a: seq<(bool, Refusal)>, b: seq<(bool, Refusal)>)
    ensures FirstFailure(a + b) == if FirstFailure(a).Some? then FirstFailure(a) else FirstFailure(b)
  {
    if a == [] {
      assert a + b == b;
    } else {
      assert (a + b)[1..] == a[1..] + b && (a + b)[0] == a[0];
      FailureConcat(a[1..], b);
    }
  }

  function FourFailure(a: (bool, Refusal), b: (bool, Refusal), c: (bool, Refusal), d: (bool, Refusal)): Option<Refusal> {
    if !a.0 then Some(a.1) else if !b.0 then Some(b.1) else if !c.0 then Some(c.1) else if !d.0 then Some(d.1) else None
  }

  lemma FourConditions(a: (bool, Refusal), b: (bool, Refusal), c: (bool, Refusal), d: (bool, Refusal))
    ensures FirstFailure([a, b, c, d]) == FourFailure(a, b, c, d)
  {
    assert [a, b, c, d][1..] == [b, c, d] && [b, c, d][1..] == [c, d] && [c, d][1..] == [d] && [d][1..] == [];
    assert FirstFailure([]) == None;
    assert FirstFailure([d]) == if !d.0 then Some(d.1) else None;
    assert FirstFailure([c, d]) == if !c.0 then Some(c.1) else FirstFailure([d]);
    assert FirstFailure([b, c, d]) == if !b.0 then Some(b.1) else FirstFailure([c, d]);
  }

  lemma SchemaByConditions(schema: Option<SchemaFacts>, metadata: Refusal)
    ensures ExamineSchema(schema, metadata) == FirstFailure(SchemaConditions(schema, metadata))
  {
    var s := if schema.Some? then schema.value else SchemaFacts(false, false, true, true, true, true);
    FourConditions(
      (schema.Some?, MissingOwnedSchema), (s.ownedByOperator, OwnershipMismatch),
      (s.defaultAcl && !s.tableDefaults && !s.otherDefaults, UnexpectedPrivileges),
      (!s.comment && !s.securityLabel, metadata));
    hide FirstFailure;
  }

  /** The names with a prefix, as Evidence picks them. */
  function Prefixed(names: seq<string>, prefix: string): seq<string> {
    if names == [] then []
    else (if prefix <= names[0] then [names[0]] else []) + Prefixed(names[1..], prefix)
  }

  lemma {:induction false} EvidenceIsPrefixed(names: seq<string>)
    ensures Evidence(names) == Prefixed(names, "audit-log/")
  {
    if names != [] {
      EvidenceIsPrefixed(names[1..]);
    }
  }

  ghost predicate OnlyOne(names: seq<string>, prefix: string, name: string) {
    exists i :: 0 <= i < |names| && names[i] == name && forall j :: 0 <= j < |names| && prefix <= names[j] ==> j == i
  }

  lemma {:induction false} NonePrefixed(names: seq<string>, prefix: string)
    ensures Prefixed(names, prefix) == [] <==> forall i :: 0 <= i < |names| ==> !(prefix <= names[i])
  {
    if names != [] {
      var tail := names[1..];
      NonePrefixed(tail, prefix);
      assert forall i :: 1 <= i < |names| ==> names[i] == tail[i - 1];
      assert forall i :: 0 <= i < |tail| ==> tail[i] == names[i + 1];
    }
  }

  lemma {:induction false} OnePrefixed(names: seq<string>, prefix: string, name: string)
    requires prefix <= name
    ensures Prefixed(names, prefix) == [name] <==> OnlyOne(names, prefix, name)
  {
    if names == [] {
      assert !OnlyOne(names, prefix, name);
    } else {
      var head, tail := names[0], names[1..];
      OnePrefixed(tail, prefix, name);
      NonePrefixed(tail, prefix);
      assert forall i :: 1 <= i < |names| ==> names[i] == tail[i - 1];
      assert forall i :: 0 <= i < |tail| ==> tail[i] == names[i + 1];
      if prefix <= head {
        OneAtHead(names, prefix, name);
        var rest := Prefixed(tail, prefix);
        assert Prefixed(names, prefix) == [head] + rest;
        assert [head] + rest == [name] <==> head == name && rest == [] by {
          assert |[head] + rest| == 1 + |rest| && ([head] + rest)[0] == head;
        }
      } else {
        OneBehind(names, prefix, name);
      }
    }
  }

  lemma OneAtHead(names: seq<string>, prefix: string, name: string)
    requires names != [] && prefix <= names[0] && prefix <= name
    ensures OnlyOne(names, prefix, name) <==> names[0] == name && forall i :: 1 <= i < |names| ==> !(prefix <= names[i])
  {
    if OnlyOne(names, prefix, name) {
      var i :| 0 <= i < |names| && names[i] == name && forall j :: 0 <= j < |names| && prefix <= names[j] ==> j == i;
      assert prefix <= names[0];
    }
    if names[0] == name && forall i :: 1 <= i < |names| ==> !(prefix <= names[i]) {
      assert names[0] == name && forall j :: 0 <= j < |names| && prefix <= names[j] ==> j == 0;
    }
  }

  lemma OneBehind(names: seq<string>, prefix: string, name: string)
    requires names != [] && !(prefix <= names[0]) && prefix <= name
    ensures OnlyOne(names, prefix, name) <==> OnlyOne(names[1..], prefix, name)
  {
    var tail := names[1..];
    if OnlyOne(names, prefix, name) {
      var i :| 0 <= i < |names| && names[i] == name && forall j :: 0 <= j < |names| && prefix <= names[j] ==> j == i;
      assert i > 0;
      assert tail[i - 1] == name && forall j :: 0 <= j < |tail| && prefix <= tail[j] ==> j == i - 1;
    }
    if OnlyOne(tail, prefix, name) {
      var i :| 0 <= i < |tail| && tail[i] == name && forall j :: 0 <= j < |tail| && prefix <= tail[j] ==> j == i;
      assert names[i + 1] == name && forall j :: 0 <= j < |names| && prefix <= names[j] ==> j == i + 1;
    }
  }

  lemma LegacyNameHasPrefix()
    ensures "audit-log/" <= "audit-log/0001_create_audit_log_schema"
  {}

  lemma EvidenceIsOneMigration(names: seq<string>)
    ensures Evidence(names) == [LEGACY_MIGRATION] <==> OneMigration(names)
  {
    LegacyNameHasPrefix();
    assert OneMigration(names) <==> OnlyOne(names, "audit-log/", "audit-log/0001_create_audit_log_schema");
    hide OneMigration, OnlyOne, Evidence, Prefixed;
    EvidenceIsPrefixed(names);
    OnePrefixed(names, "audit-log/", "audit-log/0001_create_audit_log_schema");
  }

  lemma InventoryIsEight(relations: map<string, string>)
    ensures relations == INVENTORY <==> EightRelations(relations)
  {}

  /** The twelve checks one after the other, each once. */
  function FirstRefusal(db: Database): Option<Refusal> {
    if Examine(db, AuditSchema).Some? then Examine(db, AuditSchema)
    else if Examine(db, AuditUnpublished).Some? then Examine(db, AuditUnpublished)
    else if Examine(db, PlatformUnpublished).Some? then Examine(db, PlatformUnpublished)
    else if Examine(db, Unmanaged).Some? then Examine(db, Unmanaged)
    else if Examine(db, LedgerPresent).Some? then Examine(db, LedgerPresent)
    else if Examine(db, PlatformSchema).Some? then Examine(db, PlatformSchema)
    else if Examine(db, LedgerExact).Some? then Examine(db, LedgerExact)
    else if Examine(db, LedgerOwned).Some? then Examine(db, LedgerOwned)
    else if Examine(db, LegacyHistory).Some? then Examine(db, LegacyHistory)
    else if Examine(db, ExactInventory).Some? then Examine(db, ExactInventory)
    else if Examine(db, EventsExact).Some? then Examine(db, EventsExact)
    else Examine(db, EventsOwned)
  }

  lemma OneStep(db: Database, pc: nat)
    requires pc < |SCRIPT|
    ensures VerdictFrom(db, pc)
            == if Objection(db, SCRIPT[pc]).Some? then Refused(Objection(db, SCRIPT[pc]).value) else VerdictFrom(db, pc + 1)
  {
    hide Objection;
  }

  /** The checks that are made again, and the one of the created ledger, add nothing. */
  lemma LastChecksPass(db: Database)
    requires FirstRefusal(db) == None
    ensures VerdictFrom(db, 16) == Adopted
  {
    forall k | 16 <= k < |SCRIPT| ensures Objection(db, SCRIPT[k]).None? {
      assert k == 16 || k == 17 || k == 18 || k == 19 || k == 20 || k == 21 || k == 22;
    }
    hide Objection, VerdictFrom;
    VerdictMeaningFrom(db, 16);
  }

  lemma VerdictIsFirstRefusal(db: Database)
    ensures Verdict(db) == match FirstRefusal(db) case Some(reason) => Refused(reason) case None => Adopted
  {
    OneStep(db, 0); OneStep(db, 1); OneStep(db, 2); OneStep(db, 3); OneStep(db, 4); OneStep(db, 5); OneStep(db, 6);
    OneStep(db, 7); OneStep(db, 8); OneStep(db, 9); OneStep(db, 10); OneStep(db, 11); OneStep(db, 12); OneStep(db, 13);
    OneStep(db, 14); OneStep(db, 15);
    hide VerdictFrom, Examine;
    if FirstRefusal(db) == None {
      LastChecksPass(db);
    }
  }

  lemma FirstRefusalByConditions(db: Database)
    ensures FirstRefusal(db) == FirstFailure(CatalogConditions(db))
  {
    var ledger := if db.ledger.Some? then db.ledger.value else Table(false, false, false, false);
    var events := if db.events.Some? then db.events.value else Table(false, false, false, false);
    var a, b := SchemaConditions(db.audit, SchemaShapeDiverged), SchemaConditions(db.platform, LegacyLedgerDiverged);
    var c0, c1, c2, c3 := (!db.auditPublished, SchemaShapeDiverged), (!db.platformPublished, LegacyLedgerDiverged),
      ("_lenso_schema_migrations" !in db.relations, AlreadyManaged), (ledger.ordinary, LegacyLedgerMissing);
    var d0, d1, d2, d3 := (ledger.exact, LegacyLedgerDiverged), (ledger.ownedByOperator, OwnershipMismatch),
      (ledger.defaultAcl, UnexpectedPrivileges), (OneMigration(db.history), LegacyLedgerDiverged);
    var e0, e1, e2, e3 := (EightRelations(db.relations), SchemaShapeDiverged), (events.exact, SchemaShapeDiverged),
      (events.ownedByOperator, OwnershipMismatch), (events.defaultAcl, UnexpectedPrivileges);
    assert CatalogConditions(db) == a + [c0, c1, c2, c3] + b + [d0, d1, d2, d3, e0, e1, e2, e3];
    hide *;
    CheckedByConditions(db, c0, c1, c2, c3, d0, d1, d2, d3, e0, e1, e2, e3);
    TwentyConditions(a, b, c0, c1, c2, c3, d0, d1, d2, d3, e0, e1, e2, e3);
  }

  lemma TwentyConditions(
    a: seq<(bool, Refusal)>, b: seq<(bool, Refusal)>,
    c0: (bool, Refusal), c1: (bool, Refusal), c2: (bool, Refusal), c3: (bool, Refusal),
    d0: (bool, Refusal), d1: (bool, Refusal), d2: (bool, Refusal), d3: (bool, Refusal),
    e0: (bool, Refusal), e1: (bool, Refusal), e2: (bool, Refusal), e3: (bool, Refusal))
    ensures FirstFailure(a + [c0, c1, c2, c3] + b + [d0, d1, d2, d3, e0, e1, e2, e3])
            == if FirstFailure(a).Some? then FirstFailure(a)
               else if FourFailure(c0, c1, c2, c3).Some? then FourFailure(c0, c1, c2, c3)
               else if FirstFailure(b).Some? then FirstFailure(b)
               else if FourFailure(d0, d1, d2, d3).Some? then FourFailure(d0, d1, d2, d3)
               else FourFailure(e0, e1, e2, e3)
  {
    hide FirstFailure, FourFailure;
    var c, d, e := [c0, c1, c2, c3], [d0, d1, d2, d3], [e0, e1, e2, e3];
    assert [d0, d1, d2, d3, e0, e1, e2, e3] == d + e;
    FourConditions(c0, c1, c2, c3);
    FourConditions(d0, d1, d2, d3);
    FourConditions(e0, e1, e2, e3);
    FailureConcat(a, c);
    FailureConcat(a + c, b);
    FailureConcat(a + c + b, d + e);
    FailureConcat(d, e);
  }

  /** The checks against their conditions, group by group. */
  lemma CheckedByConditions(
    db: Database, c0: (bool, Refusal), c1: (bool, Refusal), c2: (bool, Refusal), c3: (bool, Refusal),
    d0: (bool, Refusal), d1: (bool, Refusal), d2: (bool, Refusal), d3: (bool, Refusal),
    e0: (bool, Refusal), e1: (bool, Refusal), e2: (bool, Refusal), e3: (bool, Refusal))
    requires c0 == (!db.auditPublished, SchemaShapeDiverged) && c1 == (!db.platformPublished, LegacyLedgerDiverged)
    requires c2 == ("_lenso_schema_migrations" !in db.relations, AlreadyManaged)
    requires c3 == (db.ledger.Some? && db.ledger.value.ordinary, LegacyLedgerMissing)
    requires d0 == (db.ledger.Some? && db.ledger.value.exact, LegacyLedgerDiverged)
    requires d1 == (db.ledger.Some? && db.ledger.value.ownedByOperator, OwnershipMismatch)
    requires d2 == (db.ledger.Some? && db.ledger.value.defaultAcl, UnexpectedPrivileges)
    requires d3 == (OneMigration(db.history), LegacyLedgerDiverged)
    requires e0 == (EightRelations(db.relations), SchemaShapeDiverged)
    requires e1 == (db.events.Some? && db.events.value.exact, SchemaShapeDiverged)
    requires e2 == (db.events.Some? && db.events.value.ownedByOperator, OwnershipMismatch)
    requires e3 == (db.events.Some? && db.events.value.defaultAcl, UnexpectedPrivileges)
    ensures var a := FirstFailure(SchemaConditions(db.audit, SchemaShapeDiverged));
            var b := FirstFailure(SchemaConditions(db.platform, LegacyLedgerDiverged));
            FirstRefusal(db)
            == if a.Some? then a
               else if FourFailure(c0, c1, c2, c3).Some? then FourFailure(c0, c1, c2, c3)
               else if b.Some? then b
               else if FourFailure(d0, d1, d2, d3).Some? then FourFailure(d0, d1, d2, d3)
               else FourFailure(e0, e1, e2, e3)
  {
    EvidenceIsOneMigration(db.history);
    InventoryIsEight(db.relations);
    SchemaByConditions(db.audit, SchemaShapeDiverged);
    SchemaByConditions(db.platform, LegacyLedgerDiverged);
    hide FirstFailure, SchemaConditions, ExamineSchema, Evidence, OneMigration, EightRelations;
  }

  ghost predicate LegacyCatalog(db: Database) {
    forall i :: 0 <= i < |CatalogConditions(db)| ==> CatalogConditions(db)[i].0
  }

  /** The first condition that fails has this reason. */
  ghost predicate FailsFirst(db: Database, reason: Refusal) {
    exists i :: 0 <= i < |CatalogConditions(db)| && !CatalogConditions(db)[i].0 && CatalogConditions(db)[i].1 == reason
                && forall j :: 0 <= j < i ==> CatalogConditions(db)[j].0
  }

  /** The answer read off the catalog: adoption exactly when every condition holds, and otherwise the
    reason of the first that fails. */
  lemma VerdictByCatalog(db: Database)
    ensures Verdict(db) == Adopted <==> LegacyCatalog(db)
    ensures forall reason :: Verdict(db) == Refused(reason) <==> FailsFirst(db, reason)
  {
    hide Verdict, FirstRefusal, FirstFailure, CatalogConditions;
    VerdictIsFirstRefusal(db);
    FirstRefusalByConditions(db);
    FirstFailureIsFirst(CatalogConditions(db), MissingOwnedSchema);
    forall reason ensures Verdict(db) == Refused(reason) <==> FailsFirst(db, reason) {
      FirstFailureIsFirst(CatalogConditions(db), reason);
    }
  }

  /** An adopted database is refused from then on, as already managed. */
  lemma AdoptedIsManaged(db: Database, rows: seq<Migration>)
    requires Adoptable(db)
    ensures Verdict(Installed(db, rows)) == Refused(AlreadyManaged)
  {
    var after := Installed(db, rows);
    assert Examine(db, AuditSchema).None? && Examine(db, AuditUnpublished).None? && Examine(db, PlatformUnpublished).None?;
    assert Examine(after, Unmanaged) == Some(AlreadyManaged);
    assert VerdictFrom(after, 5) == Refused(AlreadyManaged);
    assert VerdictFrom(after, 4) == VerdictFrom(after, 5) && VerdictFrom(after, 3) == VerdictFrom(after, 4);
    assert VerdictFrom(after, 2) == VerdictFrom(after, 3) && VerdictFrom(after, 1) == VerdictFrom(after, 2);
  }

  // ---- The transaction as a program ----

  function CurrentMigration(digest: Digest, sql: string): Migration {
    Migration(MIGRATION_VERSION, MIGRATION_NAME, Hex(digest(ChecksumInput(MIGRATION_VERSION, MIGRATION_NAME, sql))))
  }

  lemma InstalledLedger(db: Database, digest: Digest, sql: string)
    ensures var after := Installed(db, [CurrentMigration(digest, sql)]);
            && after == db.(relations := after.relations, managed := after.managed)
            && after.relations
               == db.relations["_lenso_schema_migrations" := "r"]["_lenso_schema_migrations_pkey" := "i"]
            && after.managed == [Migration(1, "create-audit-log-schema",
                                           Hex(digest(ChecksumInput(1, "create-audit-log-schema", sql))))]
  {
    hide ChecksumInput, Hex;
  }

  /** The locks held before an operation, and the ledger rows written by then. */
  function HeldAt(pc: nat): set<Mode> {
    (if pc > 0 then {Maintenance} else {}) + (if pc > 1 then {SchemaLock} else {})
    + (if pc > 8 then {LedgerShare} else {}) + (if pc > 13 then {EventsExclusive} else {})
  }

  function PendingAt(pc: nat, current: Migration): Option<seq<Migration>> {
    if pc <= 19 then None else if pc <= 21 then Some([]) else Some([current])
  }

  lemma LocksOfScript(pc: nat)
    requires pc < |SCRIPT|
    ensures HeldAt(pc + 1) == HeldAt(pc) + (if SCRIPT[pc].Take? then {SCRIPT[pc].mode} else {})
  {
    assert SCRIPT[pc].Take? <==> pc == 0 || pc == 1 || pc == 8 || pc == 13;
  }

  /** One session with nobody else around. Writes stay in the session until it commits. */
  class Session {
    var db: Database
    var held: set<Mode>
    var pending: Option<seq<Migration>>
    ghost var pc: nat

    /** Everything up to `pc` has been done and nothing has been refused. */
    ghost predicate Valid()
      reads this
    {
      pc <= |SCRIPT| && held == HeldAt(pc) && Verdict(db) == VerdictFrom(db, pc)
    }

    constructor (db: Database)
      ensures Valid() && pc == 0 && this.db == db && pending == None
    {
      this.db, held, pending, pc := db, {}, None, 0;
    }

    ghost predicate Next(op: Op)
      reads this
    {
      Valid() && pc < |SCRIPT| && SCRIPT[pc] == op
    }

    method Acquire(mode: Mode)
      requires Next(Take(mode))
      modifies this`held, this`pc
      ensures Valid() && pc == old(pc) + 1 && held == old(held) + {mode}
    {
      LocksOfScript(pc);
      held := held + {mode};
      pc := pc + 1;
    }

    method Verify(fact: Fact) returns (refusal: Option<Refusal>)
      requires Next(Check(fact))
      modifies this`pc
      ensures pc == old(pc) + 1
      ensures refusal.Some? ==> Verdict(db) == Refused(refusal.value)
      ensures refusal.None? ==> Valid()
    {
      LocksOfScript(pc);
      refusal := Examine(db, fact);
      pc := pc + 1;
    }

    method VerifyAndLockLegacyLedger() returns (refusal: Option<Refusal>)
      requires Valid() && pc == 6
      modifies this`pc, this`held
      ensures refusal.Some? ==> Verdict(db) == Refused(refusal.value)
      ensures refusal.None? ==> Valid() && pc == 11
    {
      refusal := Verify(LedgerPresent);
      if refusal.Some? { return; }
      refusal := Verify(PlatformSchema);
      if refusal.Some? { return; }
      Acquire(LedgerShare);
      refusal := Verify(LedgerExact);
      if refusal.Some? { return; }
      refusal := Verify(LedgerOwned);
    }

    method VerifyAndLockAuditSchema() returns (refusal: Option<Refusal>)
      requires Valid() && pc == 12
      modifies this`pc, this`held
      ensures refusal.Some? ==> Verdict(db) == Refused(refusal.value)
      ensures refusal.None? ==> Valid() && pc == 16
    {
      refusal := Verify(ExactInventory);
      if refusal.Some? { return; }
      Acquire(EventsExclusive);
      refusal := Verify(EventsExact);
      if refusal.Some? { return; }
      refusal := Verify(EventsOwned);
    }

    /** Publications and the absence of a managed ledger, before the locks and again after them. */
    method RefuseExposedOrManaged() returns (refusal: Option<Refusal>)
      requires Valid() && (pc == 3 || pc == 16)
      modifies this`pc
      ensures refusal.Some? ==> Verdict(db) == Refused(refusal.value)
      ensures refusal.None? ==> Valid() && pc == old(pc) + 3
    {
      refusal := Verify(AuditUnpublished);
      if refusal.Some? { return; }
      refusal := Verify(PlatformUnpublished);
      if refusal.Some? { return; }
      refusal := Verify(Unmanaged);
    }

    method VerifyAll() returns (refusal: Option<Refusal>)
      requires Valid() && pc == 0
      modifies this`pc, this`held
      ensures refusal.Some? ==> Verdict(db) == Refused(refusal.value)
      ensures refusal.None? ==> Valid() && pc == 19
    {
      hide Verdict, VerdictFrom;
      Acquire(Maintenance);
      Acquire(SchemaLock);
      refusal := Verify(AuditSchema);
      if refusal.Some? { return; }
      refusal := RefuseExposedOrManaged();
      if refusal.Some? { return; }
      refusal := VerifyAndLockLegacyLedger();
      if refusal.Some? { return; }
      refusal := Verify(LegacyHistory);
      if refusal.Some? { return; }
      refusal := VerifyAndLockAuditSchema();
      if refusal.Some? { return; }
      refusal := RefuseExposedOrManaged();
    }

    /** Creates the ledger, checks it, records the migration and commits. */
    method Install(digest: Digest, sql: string) returns (refusal: Option<Refusal>)
      requires Verdict(db) == VerdictFrom(db, 19) && pending == None
      modifies this`db, this`pending
      ensures refusal.Some? ==> Verdict(old(db)) == Refused(refusal.value) && db == old(db)
      ensures refusal.None? ==> Verdict(old(db)) == Adopted && db == Installed(old(db), [CurrentMigration(digest, sql)])
    {
      LastOperations(db);
      hide Verdict, VerdictFrom, CreatedTable, ExamineTable, Installed, ChecksumInput, Hex;
      pending := Some([]);
      var created := CreatedTable(db);
      refusal := ExamineTable(Some(created));
      if refusal.Some? { return; }
      var checksum := MigrationChecksum(digest, MIGRATION_VERSION, MIGRATION_NAME, sql);
      var current := Migration(MIGRATION_VERSION, MIGRATION_NAME, checksum);
      pending := Some(pending.value + [current]);
      assert pending.value == [current];
      db := Installed(db, pending.value);
    }

    /** `adopt_legacy`: the transaction's end releases the locks and drops what was not committed. */
    method AdoptLegacy(digest: Digest, sql: string) returns (outcome: Outcome)
      requires Valid() && pc == 0 && pending == None
      modifies this
      ensures outcome == Verdict(old(db)) && outcome != Aborted
      ensures outcome == Adopted <==> LegacyCatalog(old(db))
      ensures forall reason :: outcome == Refused(reason) <==> FailsFirst(old(db), reason)
      ensures outcome == Adopted ==>
                && db == old(db).(relations := db.relations, managed := db.managed)
                && db.relations
                   == old(db).relations["_lenso_schema_migrations" := "r"]["_lenso_schema_migrations_pkey" := "i"]
                && db.managed == [Migration(1, "create-audit-log-schema",
                                            Hex(digest(ChecksumInput(1, "create-audit-log-schema", sql))))]
      ensures db == if outcome == Adopted then Installed(old(db), [CurrentMigration(digest, sql)]) else old(db)
      ensures held == {} && pending == None
    {
      VerdictByCatalog(db);
      InstalledLedger(db, digest, sql);
      hide Verdict, VerdictFrom, LegacyCatalog, FailsFirst, CatalogConditions;
      hide Installed, CurrentMigration, ChecksumInput, Hex;
      var refusal := VerifyAll();
      if refusal.None? {
        refusal := Install(digest, sql);
      }
      held, pending := {}, None;
      outcome := match refusal case Some(reason) => Refused(reason) case None => Adopted;
    }
  }

  lemma LastOperations(db: Database)
    ensures VerdictFrom(db, 19) == match ExamineTable(Some(CreatedTable(db)))
              case Some(reason) => Refused(reason)
              case None => Adopted
  {
    assert VerdictFrom(db, 23) == Adopted;
    assert VerdictFrom(db, 22) == Adopted && VerdictFrom(db, 21) == VerdictFrom(db, 22);
    assert VerdictFrom(db, 19) == VerdictFrom(db, 20);
  }

  // ---- Many sessions ----

  predicate Conflicts(a: Mode, b: Mode) {
    match (a, b)
    case (Maintenance, Maintenance) => true
    case (SchemaLock, SchemaLock) => true
    case (LedgerShare, LedgerWrite) => true
    case (LedgerWrite, LedgerShare) => true
    case (EventsExclusive, EventsExclusive) => true
    case (EventsExclusive, EventsWrite) => true
    case (EventsWrite, EventsExclusive) => true
    case _ => false
  }

  /** An adopter at an operation, an adopter that has ended, or some other transaction. */
  datatype Actor = Adopter(pc: nat, pending: Option<seq<Migration>>) | Finished(outcome: Outcome) | Other

  datatype World = World(db: Database, current: Migration, actors: seq<Actor>, held: seq<set<Mode>>)

  /** One operation of an adopter; a lock, a commit with its changes, or a loss of a transaction. */
  datatype Step =
    | Adopt(i: nat)
    | TakeLock(i: nat, mode: Mode)
    | CommitOther(i: nat, db: Database)
    | Abort(i: nat)

  ghost predicate Free(w: World, i: nat, mode: Mode) {
    forall j, other :: 0 <= j < |w.held| && j != i && other in w.held[j] ==> !Conflicts(mode, other)
  }

  /** What a transaction may change: anything if it holds one of the two advisory locks that schema
    changes go through, and otherwise only rows that it has locked for writing. */
  predicate MayCommit(held: set<Mode>, before: Database, after: Database) {
    || Maintenance in held
    || SchemaLock in held
    || (&& after == before.(history := after.history, eventRows := after.eventRows)
        && (LedgerWrite in held || after.history == before.history)
        && (EventsWrite in held || after.eventRows == before.eventRows))
  }

  function Ended(w: World, i: nat, outcome: Outcome): World
    requires i < |w.actors| == |w.held|
  {
    w.(actors := w.actors[i := Finished(outcome)], held := w.held[i := {}])
  }

  ghost function AdoptStep(w: World, i: nat): World
    requires i < |w.actors| == |w.held| && w.actors[i].Adopter? && w.actors[i].pc < |SCRIPT|
  {
    var a := w.actors[i];
    var op := SCRIPT[a.pc];
    var refusal := Objection(w.db, op);
    if refusal.Some? then Ended(w, i, Refused(refusal.value))
    else match op
      case Take(mode) =>
        if Free(w, i, mode)
        then w.(actors := w.actors[i := a.(pc := a.pc + 1)], held := w.held[i := w.held[i] + {mode}])
        else w
      case Check(_) => w.(actors := w.actors[i := a.(pc := a.pc + 1)])
      case CreateLedger => w.(actors := w.actors[i := Adopter(a.pc + 1, Some([]))])
      case CheckCreated => w.(actors := w.actors[i := a.(pc := a.pc + 1)])
      case Record =>
        var rows := if a.pending.Some? then a.pending.value else [];
        w.(actors := w.actors[i := Adopter(a.pc + 1, Some(rows + [w.current]))])
      case Commit =>
        var rows := if a.pending.Some? then a.pending.value else [];
        Ended(w.(db := Installed(w.db, rows)), i, Adopted)
  }

  /** A step that is not possible changes nothing: a lock request waits. */
  ghost function Apply(w: World, step: Step): World
    requires |w.actors| == |w.held|
    ensures |Apply(w, step).actors| == |Apply(w, step).held| == |w.actors|
  {
    if step.i >= |w.actors| then w
    else match (step, w.actors[step.i])
      case (Adopt(i), Adopter(pc, _)) => if pc < |SCRIPT| then AdoptStep(w, i) else w
      case (TakeLock(i, mode), Other) => if Free(w, i, mode) then w.(held := w.held[i := w.held[i] + {mode}]) else w
      case (CommitOther(i, db), Other) =>
        if MayCommit(w.held[i], w.db, db) then w.(db := db, held := w.held[i := {}]) else w
      case (Abort(i), Adopter(_, _)) => Ended(w, i, Aborted)
      case (Abort(i), Other) => w.(held := w.held[i := {}])
      case _ => w
  }

  ghost function Run(w: World, steps: seq<Step>): World
    requires |w.actors| == |w.held|
    ensures |Run(w, steps).actors| == |Run(w, steps).held| == |w.actors|
    decreases |steps|
  {
    if steps == [] then w else Run(Apply(w, steps[0]), steps[1..])
  }

  /** No two sessions hold conflicting locks. */
  ghost predicate Exclusive(held: seq<set<Mode>>) {
    forall i, j, a, b :: 0 <= i < |held| && 0 <= j < |held| && i != j && a in held[i] && b in held[j] ==> !Conflicts(a, b)
  }

  /** An adopter holds the locks of its place in the script, has written what the script has written,
    and everything it has checked is still true. */
  ghost predicate AdopterInv(db: Database, current: Migration, actor: Actor, held: set<Mode>) {
    match actor
    case Adopter(pc, pending) =>
      pc < |SCRIPT| && held == HeldAt(pc) && pending == PendingAt(pc, current) && Passed(db, pc)
    case Finished(_) => held == {}
    case Other => true
  }

  ghost predicate Inv(w: World) {
    && |w.actors| == |w.held|
    && Exclusive(w.held)
    && forall i :: 0 <= i < |w.actors| ==> AdopterInv(w.db, w.current, w.actors[i], w.held[i])
  }

  /** Adopters that have not begun and transactions that hold nothing. */
  ghost predicate Initial(w: World) {
    && |w.actors| == |w.held|
    && forall i :: 0 <= i < |w.actors| ==> w.held[i] == {} && (w.actors[i] == Adopter(0, None) || w.actors[i] == Other)
  }

  lemma InitialInv(w: World)
    requires Initial(w)
    ensures Inv(w)
  {
    forall i | 0 <= i < |w.actors| ensures AdopterInv(w.db, w.current, w.actors[i], w.held[i]) {
      assert w.actors[i] == Adopter(0, None) || w.actors[i] == Other;
    }
  }

  // ---- What an adopter has checked stays true ----

  /** No check before an operation refuses. */
  ghost predicate Passed(db: Database, pc: nat) {
    pc <= |SCRIPT| && forall k :: 0 <= k < pc ==> Objection(db, SCRIPT[k]).None?
  }

  lemma PassedNext(db: Database, pc: nat)
    requires pc < |SCRIPT| && Passed(db, pc) && Objection(db, SCRIPT[pc]).None?
    ensures Passed(db, pc + 1)
  {
    hide Objection;
  }

  lemma {:induction false} PassedVerdict(db: Database, pc: nat)
    requires Passed(db, pc)
    ensures Verdict(db) == VerdictFrom(db, pc)
  {
    hide Objection;
    if pc > 0 {
      PassedVerdict(db, pc - 1);
      assert Objection(db, SCRIPT[pc - 1]).None?;
    }
  }

  /** A refusal names the first check that fails. */
  lemma RefusalIsTheFirst(db: Database, reason: Refusal)
    ensures Verdict(db) == Refused(reason)
            <==> exists k :: 0 <= k < |SCRIPT| && Passed(db, k) && Objection(db, SCRIPT[k]) == Some(reason)
  {
    assert Passed(db, 0) && Verdict(db) == VerdictFrom(db, 0);
    hide Objection, Passed, Verdict, VerdictFrom;
    forall k | 0 <= k < |SCRIPT| && Passed(db, k) && Objection(db, SCRIPT[k]) == Some(reason)
      ensures Verdict(db) == Refused(reason)
    {
      PassedVerdict(db, k);
      StopsAt(db, k);
    }
    if Verdict(db) == Refused(reason) {
      RefusedAt(db, 0, reason);
    }
  }

  lemma StopsAt(db: Database, pc: nat)
    requires pc < |SCRIPT| && Objection(db, SCRIPT[pc]).Some?
    ensures VerdictFrom(db, pc) == Refused(Objection(db, SCRIPT[pc]).value)
  {
    hide Objection;
  }

  lemma {:induction false} RefusedAt(db: Database, pc: nat, reason: Refusal)
    requires pc <= |SCRIPT| && Passed(db, pc) && VerdictFrom(db, pc) == Refused(reason)
    ensures exists k :: 0 <= k < |SCRIPT| && Passed(db, k) && Objection(db, SCRIPT[k]) == Some(reason)
    decreases |SCRIPT| - pc
  {
    hide Objection;
    if Objection(db, SCRIPT[pc]).None? {
      PassedNext(db, pc);
      RefusedAt(db, pc + 1, reason);
    }
  }

  lemma SameObjection(before: Database, after: Database, op: Op)
    requires after == before.(history := after.history, eventRows := after.eventRows)
    requires op != Check(LegacyHistory) || after.history == before.history
    ensures Objection(after, op) == Objection(before, op)
  {}

  lemma HistoryIsLocked(k: nat, pc: nat)
    requires k < pc <= |SCRIPT|
    ensures SCRIPT[k] == Check(LegacyHistory) ==> LedgerShare in HeldAt(pc)
    ensures !SCRIPT[k].Take? ==> Maintenance in HeldAt(pc) && SchemaLock in HeldAt(pc)
  {
    assert SCRIPT[k] == Check(LegacyHistory) ==> k == 11;
    assert k < 2 ==> SCRIPT[k].Take?;
  }

  ghost predicate Compatible(a: set<Mode>, b: set<Mode>) {
    forall x, y :: x in a && y in b ==> !Conflicts(x, y)
  }

  /** What others may commit beside an adopter's locks does not touch what it has checked. */
  lemma PassedStays(pc: nat, before: Database, after: Database, other: set<Mode>)
    requires Passed(before, pc) && MayCommit(other, before, after) && Compatible(HeldAt(pc), other)
    ensures Passed(after, pc)
  {
    forall k | 0 <= k < pc ensures Objection(after, SCRIPT[k]).None? {
      HistoryIsLocked(k, pc);
      hide HeldAt, Examine;
      if !SCRIPT[k].Take? {
        assert Conflicts(Maintenance, Maintenance) && Conflicts(SchemaLock, SchemaLock);
        assert Conflicts(LedgerShare, LedgerWrite);
        assert Maintenance !in other && SchemaLock !in other;
        SameObjection(before, after, SCRIPT[k]);
      }
    }
  }

  // ---- Every step keeps the invariant ----

  lemma ExclusiveChange(held: seq<set<Mode>>, i: nat, modes: set<Mode>)
    requires i < |held| && Exclusive(held)
    requires forall j :: 0 <= j < |held| && j != i ==> Compatible(modes, held[j]) && Compatible(held[j], modes)
    ensures Exclusive(held[i := modes])
  {
    hide Conflicts;
    var next := held[i := modes];
    forall x, y, a, b | 0 <= x < |next| && 0 <= y < |next| && x != y && a in next[x] && b in next[y]
      ensures !Conflicts(a, b)
    {
      if x == i {
        assert Compatible(modes, held[y]);
      } else if y == i {
        assert Compatible(held[x], modes);
      } else {
        assert a in held[x] && b in held[y];
      }
    }
  }

  lemma ConflictsSymmetric(a: Mode, b: Mode)
    ensures Conflicts(a, b) == Conflicts(b, a)
  {}

  lemma TakingIsExclusive(w: World, i: nat, mode: Mode)
    requires i < |w.held| && Exclusive(w.held) && Free(w, i, mode)
    ensures Exclusive(w.held[i := w.held[i] + {mode}])
  {
    hide Conflicts;
    forall j | 0 <= j < |w.held| && j != i
      ensures Compatible(w.held[i] + {mode}, w.held[j]) && Compatible(w.held[j], w.held[i] + {mode})
    {
      forall a, b | a in w.held[i] + {mode} && b in w.held[j] ensures !Conflicts(a, b) && !Conflicts(b, a) {
        ConflictsSymmetric(a, b);
      }
    }
    ExclusiveChange(w.held, i, w.held[i] + {mode});
  }

  /** A step of one actor that it may make, and that leaves its own part in order, leaves everything
    in order. */
  lemma StepKeepsInv(w: World, i: nat, db: Database, actor: Actor, modes: set<Mode>)
    requires Inv(w) && i < |w.actors|
    requires MayCommit(w.held[i], w.db, db)
    requires Exclusive(w.held[i := modes]) && AdopterInv(db, w.current, actor, modes)
    ensures Inv(World(db, w.current, w.actors[i := actor], w.held[i := modes]))
  {
    hide MayCommit, Passed, HeldAt, PendingAt, Conflicts;
    var actors, held := w.actors[i := actor], w.held[i := modes];
    forall k | 0 <= k < |actors| ensures AdopterInv(db, w.current, actors[k], held[k]) {
      if k != i {
        assert AdopterInv(w.db, w.current, w.actors[k], w.held[k]);
        if actors[k].Adopter? {
          assert Compatible(w.held[k], w.held[i]);
          PassedStays(actors[k].pc, w.db, db, w.held[i]);
        }
      }
    }
  }

  lemma EndingKeepsInv(w: World, i: nat, db: Database, actor: Actor)
    requires Inv(w) && i < |w.actors| && MayCommit(w.held[i], w.db, db)
    requires actor.Finished? || actor.Other?
    ensures Inv(World(db, w.current, w.actors[i := actor], w.held[i := {}]))
  {
    hide Conflicts, MayCommit, AdopterInv;
    ExclusiveChange(w.held, i, {});
    assert AdopterInv(db, w.current, actor, {}) by { EndedInv(db, w.current, actor); }
    StepKeepsInv(w, i, db, actor, {});
  }

  lemma EndedInv(db: Database, current: Migration, actor: Actor)
    requires actor.Finished? || actor.Other?
    ensures AdopterInv(db, current, actor, {})
  {}

  lemma NextOperation(db: Database, current: Migration, pc: nat)
    requires pc < |SCRIPT|
    requires Passed(db, pc) && Objection(db, SCRIPT[pc]).None?
    requires SCRIPT[pc] != Commit
    ensures AdopterInv(db, current, Adopter(pc + 1, PendingAt(pc + 1, current)), HeldAt(pc + 1))
    ensures HeldAt(pc + 1) == HeldAt(pc) + (if SCRIPT[pc].Take? then {SCRIPT[pc].mode} else {})
    ensures PendingAt(pc + 1, current) == match SCRIPT[pc]
              case CreateLedger => Some([])
              case Record => Some([current])
              case _ => PendingAt(pc, current)
    ensures SCRIPT[pc] == Record ==> PendingAt(pc, current) == Some([])
  {
    PassedNext(db, pc);
    LocksOfScript(pc);
    LastPlaces(pc);
  }

  lemma LastPlaces(pc: nat)
    requires pc < |SCRIPT|
    ensures SCRIPT[pc] == CreateLedger <==> pc == 19
    ensures SCRIPT[pc] == Record <==> pc == 21
    ensures SCRIPT[pc] == Commit <==> pc == 22
  {}

  lemma AdoptKeepsInv(w: World, i: nat)
    requires Inv(w) && i < |w.actors| && w.actors[i].Adopter?
    ensures w.actors[i].pc < |SCRIPT| && Inv(AdoptStep(w, i))
  {
    assert AdopterInv(w.db, w.current, w.actors[i], w.held[i]);
    var pc := w.actors[i].pc;
    var op := SCRIPT[pc];
    LastPlaces(pc);
    assert HeldAt(pc) == w.held[i];
    assert op == Commit ==> Maintenance in w.held[i];
    hide Objection, Passed, HeldAt, PendingAt, Conflicts, Installed;
    if Objection(w.db, op).Some? {
      EndingKeepsInv(w, i, w.db, Finished(Refused(Objection(w.db, op).value)));
    } else if op == Commit {
      var rows := if w.actors[i].pending.Some? then w.actors[i].pending.value else [];
      EndingKeepsInv(w, i, Installed(w.db, rows), Finished(Adopted));
    } else if op.Take? && !Free(w, i, op.mode) {
    } else {
      AdvanceKeepsInv(w, i);
    }
  }

  lemma AdvanceKeepsInv(w: World, i: nat)
    requires Inv(w) && i < |w.actors| && w.actors[i].Adopter? && w.actors[i].pc < |SCRIPT|
    requires var op := SCRIPT[w.actors[i].pc];
             op != Commit && Objection(w.db, op).None? && (op.Take? ==> Free(w, i, op.mode))
    ensures Inv(AdoptStep(w, i))
  {
    assert AdopterInv(w.db, w.current, w.actors[i], w.held[i]);
    var pc := w.actors[i].pc;
    var op := SCRIPT[pc];
    NextOperation(w.db, w.current, pc);
    hide Objection, Passed, HeldAt, PendingAt, Conflicts, Installed, Free;
    if op.Take? {
      TakingIsExclusive(w, i, op.mode);
      assert HeldAt(pc + 1) == w.held[i] + {op.mode};
    } else {
      assert HeldAt(pc + 1) == w.held[i];
      assert w.held[i := w.held[i]] == w.held;
    }
    assert [] + [w.current] == [w.current];
    var next := Adopter(pc + 1, PendingAt(pc + 1, w.current));
    StepKeepsInv(w, i, w.db, next, HeldAt(pc + 1));
    assert AdoptStep(w, i) == World(w.db, w.current, w.actors[i := next], w.held[i := HeldAt(pc + 1)]);
  }

  lemma ApplyKeepsInv(w: World, step: Step)
    requires Inv(w)
    ensures Inv(Apply(w, step))
  {
    hide AdoptStep, Conflicts, Passed, MayCommit, AdopterInv;
    if step.i < |w.actors| {
      var i := step.i;
      match step {
        case Adopt(_) =>
          if w.actors[i].Adopter? {
            AdoptKeepsInv(w, i);
          }
        case TakeLock(_, mode) =>
          if w.actors[i] == Other && Free(w, i, mode) {
            TakingIsExclusive(w, i, mode);
            OtherTakes(w, i, mode);
          }
        case CommitOther(_, db) =>
          if w.actors[i] == Other && MayCommit(w.held[i], w.db, db) {
            EndingKeepsInv(w, i, db, Other);
            assert w.actors[i := Other] == w.actors;
          }
        case Abort(_) =>
          NothingChanges(w.held[i], w.db);
          if w.actors[i].Adopter? {
            EndingKeepsInv(w, i, w.db, Finished(Aborted));
          } else if w.actors[i] == Other {
            EndingKeepsInv(w, i, w.db, Other);
            assert w.actors[i := Other] == w.actors;
          }
      }
    }
  }

  lemma NothingChanges(held: set<Mode>, db: Database)
    ensures MayCommit(held, db, db)
  {}

  lemma OtherTakes(w: World, i: nat, mode: Mode)
    requires Inv(w) && i < |w.actors| && w.actors[i] == Other && Exclusive(w.held[i := w.held[i] + {mode}])
    ensures Inv(w.(held := w.held[i := w.held[i] + {mode}]))
  {
    hide Conflicts, MayCommit;
    NothingChanges(w.held[i], w.db);
    assert AdopterInv(w.db, w.current, Other, w.held[i] + {mode});
    StepKeepsInv(w, i, w.db, Other, w.held[i] + {mode});
    assert w.actors[i := Other] == w.actors;
  }

  lemma {:induction false} RunKeepsInv(w: World, steps: seq<Step>)
    requires Inv(w)
    ensures Inv(Run(w, steps))
    decreases |steps|
  {
    hide Apply, Exclusive, AdopterInv;
    if steps != [] {
      ApplyKeepsInv(w, steps[0]);
      RunKeepsInv(Apply(w, steps[0]), steps[1..]);
    }
  }

  // ---- Whole runs ----

  /** The last operation an adopter does makes its outcome that of the whole transaction run at that
    moment, on the database as it then is. */
  lemma EndsAsVerdict(w: World, i: nat)
    requires Inv(w) && i < |w.actors| && w.actors[i].Adopter?
    ensures var next := Apply(w, Adopt(i));
            match next.actors[i]
            case Finished(outcome) =>
              && outcome == Verdict(w.db)
              && next.db == if outcome == Adopted then Installed(w.db, [w.current]) else w.db
            case _ => next.db == w.db
  {
    assert AdopterInv(w.db, w.current, w.actors[i], w.held[i]);
    var pc := w.actors[i].pc;
    PassedVerdict(w.db, pc);
    LastPlaces(pc);
    hide Objection, Passed, HeldAt, Installed, Free, Verdict;
    if Objection(w.db, SCRIPT[pc]).Some? {
      assert VerdictFrom(w.db, pc) == Refused(Objection(w.db, SCRIPT[pc]).value);
    } else if pc == 22 {
      assert VerdictFrom(w.db, 22) == VerdictFrom(w.db, 23) == Adopted;
    }
  }

  /** In every run, whatever happens in between: an adopter that ends in adoption or refusal ends as
    if its whole transaction had run at that moment. Adoption happens exactly when all facts hold
    together at commit, it installs exactly one ledger row, and a refusal changes nothing. */
  lemma AdoptionIsAtomic(start: World, steps: seq<Step>, i: nat)
    requires Initial(start) && i < |start.actors|
    ensures var w := Run(start, steps);
            var next := Apply(w, Adopt(i));
            w.actors[i].Adopter? && next.actors[i].Finished? ==>
              && next.actors[i].outcome == Verdict(w.db)
              && (next.actors[i].outcome == Adopted <==> LegacyCatalog(w.db))
              && (forall reason :: next.actors[i].outcome == Refused(reason) <==> FailsFirst(w.db, reason))
              && next.db == if LegacyCatalog(w.db) then Installed(w.db, [w.current]) else w.db
  {
    hide Apply, Inv, Verdict, Installed, LegacyCatalog, FailsFirst, CatalogConditions;
    InitialInv(start);
    RunKeepsInv(start, steps);
    var w := Run(start, steps);
    if w.actors[i].Adopter? {
      EndsAsVerdict(w, i);
      VerdictByCatalog(w.db);
    }
  }

  /** At most one adopter is past its first statement. */
  lemma OneAdopterAtWork(start: World, steps: seq<Step>, i: nat, j: nat)
    requires Initial(start) && i < |start.actors| && j < |start.actors| && i != j
    ensures var actors := Run(start, steps).actors;
            actors[i].Adopter? && actors[j].Adopter? ==> actors[i].pc == 0 || actors[j].pc == 0
  {
    hide Apply, Passed, PendingAt;
    InitialInv(start);
    RunKeepsInv(start, steps);
    var w := Run(start, steps);
    assert AdopterInv(w.db, w.current, w.actors[i], w.held[i]) && AdopterInv(w.db, w.current, w.actors[j], w.held[j]);
    assert Conflicts(Maintenance, Maintenance);
    assert w.actors[i].Adopter? && w.actors[i].pc > 0 ==> Maintenance in w.held[i];
    assert w.actors[j].Adopter? && w.actors[j].pc > 0 ==> Maintenance in w.held[j];
  }

  /** No operation of an adopter touches a row of either table. */
  lemma AdoptersLeaveRows(w: World, i: nat)
    requires |w.actors| == |w.held|
    ensures Apply(w, Adopt(i)).db.eventRows == w.db.eventRows && Apply(w, Adopt(i)).db.history == w.db.history
  {
    hide Objection, Free;
  }

  /** From the moment an adopter holds the exclusive lock until it ends, nobody changes event rows. */
  lemma EventRowsAreFrozen(start: World, steps: seq<Step>, i: nat, step: Step)
    requires Initial(start) && i < |start.actors|
    ensures var w := Run(start, steps);
            w.actors[i].Adopter? && w.actors[i].pc > 13 ==> Apply(w, step).db.eventRows == w.db.eventRows
  {
    hide Run, Initial;
    InitialInv(start);
    RunKeepsInv(start, steps);
    var w := Run(start, steps);
    if w.actors[i].Adopter? && w.actors[i].pc > 13 {
      FrozenStep(w, i, step);
    }
  }

  lemma FrozenStep(w: World, i: nat, step: Step)
    requires Inv(w) && i < |w.actors| && w.actors[i].Adopter? && w.actors[i].pc > 13
    ensures Apply(w, step).db.eventRows == w.db.eventRows
  {
    hide Passed, PendingAt, AdoptStep;
    assert AdopterInv(w.db, w.current, w.actors[i], w.held[i]);
    assert {Maintenance, SchemaLock, EventsExclusive} <= w.held[i];
    if step.i < |w.actors| && step.CommitOther? && w.actors[step.i] == Other {
      assert Conflicts(Maintenance, Maintenance) && Conflicts(SchemaLock, SchemaLock);
      assert Conflicts(EventsExclusive, EventsWrite);
      assert Maintenance !in w.held[step.i] && SchemaLock !in w.held[step.i] && EventsWrite !in w.held[step.i];
    } else if step.Adopt? {
      AdoptersLeaveRows(w, step.i);
    }
  }

  // ---- Counting adoptions ----

  ghost predicate Adopts(w: World, step: Step)
    requires |w.actors| == |w.held|
  {
    step.Adopt? && step.i < |w.actors| && w.actors[step.i].Adopter? && Apply(w, step).actors[step.i] == Finished(Adopted)
  }

  datatype Tally = Tally(adopted: nat, created: nat, dropped: nat)

  /** Adoptions in a run, and how often others created or dropped the managed ledger. */
  ghost function Count(w: World, steps: seq<Step>): Tally
    requires |w.actors| == |w.held|
    decreases |steps|
  {
    if steps == [] then Tally(0, 0, 0)
    else
      var next := Apply(w, steps[0]);
      var rest := Count(next, steps[1..]);
      if Adopts(w, steps[0]) then rest.(adopted := rest.adopted + 1)
      else if !Managed(w.db) && Managed(next.db) then rest.(created := rest.created + 1)
      else if Managed(w.db) && !Managed(next.db) then rest.(dropped := rest.dropped + 1)
      else rest
  }

  function Present(db: Database): nat { if Managed(db) then 1 else 0 }

  lemma AdoptsOnce(w: World, step: Step)
    requires Inv(w) && Adopts(w, step)
    ensures !Managed(w.db) && Managed(Apply(w, step).db) && Apply(w, step).db.managed == [w.current]
  {
    hide Apply, Inv, Verdict;
    EndsAsVerdict(w, step.i);
    VerdictMeaning(w.db);
    assert Examine(w.db, Unmanaged).None?;
  }

  /** Ledgers are conserved: every ledger that is there at the end was there at the start, or came
    from an adoption or another's creation and was not dropped. */
  lemma {:induction false} LedgersAreConserved(w: World, steps: seq<Step>)
    requires Inv(w)
    ensures var tally := Count(w, steps);
            Present(Run(w, steps).db) + tally.dropped == Present(w.db) + tally.adopted + tally.created
    decreases |steps|
  {
    hide Apply, Exclusive, AdopterInv, Adopts, Managed;
    if steps != [] {
      ApplyKeepsInv(w, steps[0]);
      LedgersAreConserved(Apply(w, steps[0]), steps[1..]);
      if Adopts(w, steps[0]) {
        AdoptsOnce(w, steps[0]);
      }
    }
  }

  /** Commits of others leave a managed ledger alone once it is there. */
  ghost predicate LedgerUntouched(w: World, steps: seq<Step>)
    requires |w.actors| == |w.held|
    decreases |steps|
  {
    steps != [] ==>
      var next := Apply(w, steps[0]);
      && (steps[0].CommitOther? && Managed(w.db) ==> Managed(next.db) && next.db.managed == w.db.managed)
      && LedgerUntouched(next, steps[1..])
  }

  /** Every other step does so anyway: an adopter that would commit finds the ledger and is refused. */
  lemma OtherStepsKeepLedger(w: World, step: Step)
    requires Inv(w) && Managed(w.db) && !step.CommitOther?
    ensures Managed(Apply(w, step).db) && Apply(w, step).db.managed == w.db.managed
  {
    hide Verdict, Installed, Inv, AdoptStep, Free;
    if step.Adopt? && step.i < |w.actors| && w.actors[step.i].Adopter? {
      EndsAsVerdict(w, step.i);
      VerdictMeaning(w.db);
      assert Examine(w.db, Unmanaged).Some?;
    }
  }

  /** Then at most one of any number of adopters succeeds, only if the schema was not managed before,
    and afterwards the ledger holds exactly the one current row. */
  lemma {:induction false} AtMostOneAdoption(w: World, steps: seq<Step>)
    requires Inv(w) && LedgerUntouched(w, steps)
    ensures var adopted := Count(w, steps).adopted;
            var end := Run(w, steps).db;
            && (Managed(w.db) ==> adopted == 0 && Managed(end) && end.managed == w.db.managed)
            && adopted <= 1
            && (adopted == 1 ==> Managed(end) && end.managed == [w.current])
    decreases |steps|
  {
    hide Apply, Exclusive, AdopterInv, Adopts, Managed;
    if steps != [] {
      ApplyKeepsInv(w, steps[0]);
      SameMigration(w, steps[0]);
      if Managed(w.db) && !steps[0].CommitOther? {
        OtherStepsKeepLedger(w, steps[0]);
      }
      AtMostOneAdoption(Apply(w, steps[0]), steps[1..]);
      if Adopts(w, steps[0]) {
        AdoptsOnce(w, steps[0]);
      }
    }
  }

  lemma SameMigration(w: World, step: Step)
    requires |w.actors| == |w.held|
    ensures Apply(w, step).current == w.current
  {
    hide Objection, Free, MayCommit;
  }

  /** The maintenance lock matters: an owner who exposes the schema without taking it, after the last
    check, is not noticed. */
  lemma UncoordinatedChangeIsAdopted(w: World, i: nat)
    requires Inv(w) && i < |w.actors| && w.actors[i].Adopter? && SCRIPT[w.actors[i].pc] == Commit
    ensures var exposed := w.(db := w.db.(auditPublished := true));
            && Apply(exposed, Adopt(i)).actors[i] == Finished(Adopted)
            && !Adoptable(exposed.db)
  {
    var exposed := w.(db := w.db.(auditPublished := true));
    assert Examine(exposed.db, AuditUnpublished).Some?;
    assert AdopterInv(w.db, w.current, w.actors[i], w.held[i]);
  }
}
