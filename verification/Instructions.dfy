/** The instruction registry: a table of versions, an audit log, and what any run of registrations
    keeps. The hash is a parameter. */
module Instructions {
  import opened Hashing
  import opened Ordering
  import opened Wrappers

  datatype Instruction = Instruction(version: string, sha256: string, text: string)

  datatype Row = Row(id: string, version: string, body: string, sha256: string, notes: Option<string>, createdBy: string)

  datatype Audit = Audit(tenant: string, principal: string, action: string, resourceId: string, version: string, sha256: string,
                         lines: nat, notes: Option<string>, requestId: Option<string>)

  /** One registration; `auditWorks` says whether the insert into the audit log goes through. */
  datatype Call = Call(instruction: Instruction, principal: string, notes: Option<string>, requestId: Option<string>, auditWorks: bool)

  datatype Reply =
    | Registered(id: string)
    | HashMismatch(digest: string)
    | Conflict(registered: string)
    | UniqueViolation
    | AuditFailed

  datatype State = State(rows: seq<Row>, audit: seq<Audit>)

  // ---- queries -----------------------------------------------------------------------------------

  /** SELECT ... WHERE version = v. */
  function Find(rows: seq<Row>, version: string): Option<Row> {
    if rows == [] then None
    else if rows[0].version == version then Some(rows[0])
    else Find(rows[1..], version)
  }

  function FindHash(rows: seq<Row>, sha256: string): Option<Row> {
    if rows == [] then None
    else if rows[0].sha256 == sha256 then Some(rows[0])
    else FindHash(rows[1..], sha256)
  }

  /** Looking up by hash goes through the version of the row found. */
  function GetByHash(rows: seq<Row>, sha256: string): Option<Row> {
    var found := FindHash(rows, sha256);
    if found.None? then None else Find(rows, found.value.version)
  }

  /** None where the registry raises: the version is not registered. */
  function Load(rows: seq<Row>, version: string): Option<Instruction> {
    var record := Find(rows, version);
    if record.None? then None else Some(Instruction(record.value.version, record.value.sha256, record.value.body))
  }

  function Id(digest: string): string {
    "ins_" + if |digest| > 16 then digest[..16] else digest
  }

  /** The unique columns of the table. */
  predicate Admits(rows: seq<Row>, row: Row) {
    forall r :: r in rows ==> r.id != row.id && r.version != row.version && r.sha256 != row.sha256
  }

  function Lines(text: string): nat {
    if text == "" then 1 else (if text[0] == '\n' then 1 else 0) + Lines(text[1..])
  }

  // ---- registration ------------------------------------------------------------------------------

  function NewRow(call: Call, digest: string): Row {
    Row(Id(digest), call.instruction.version, call.instruction.text, digest, call.notes, call.principal)
  }

  function NewAudit(tenant: string, call: Call, digest: string): Audit {
    Audit(tenant, call.principal, "instruction.register", Id(digest), call.instruction.version, digest,
          Lines(call.instruction.text), call.notes, call.requestId)
  }

  /** What a registration does to both tables, and what it returns or raises. */
  function Step(sha: string -> string, tenant: string, s: State, call: Call): (State, Reply) {
    var digest := sha(call.instruction.text);
    var existing := Find(s.rows, call.instruction.version);
    if digest != call.instruction.sha256 then (s, HashMismatch(digest))
    else if existing.Some? then
      if existing.value.sha256 == digest then (s, Registered(existing.value.id)) else (s, Conflict(existing.value.sha256))
    else if !Admits(s.rows, NewRow(call, digest)) then (s, UniqueViolation)
    else
      var rows := s.rows + [NewRow(call, digest)];
      if !call.auditWorks then (s.(rows := rows), AuditFailed)
      else (State(rows, s.audit + [NewAudit(tenant, call, digest)]), Registered(Id(digest)))
  }

  class InstructionRegistry {
    const tenant: string
    var rows: seq<Row>
    var audit: seq<Audit>

    constructor (tenant: string)
      ensures this.tenant == tenant && rows == [] && audit == []
    {
      this.tenant := tenant;
      rows := [];
      audit := [];
    }

    function Get(version: string): Option<Row>
      reads this
    {
      Find(rows, version)
    }

    method Insert(row: Row) returns (ok: bool)
      modifies this
      ensures audit == old(audit)
      ensures ok == old(Admits(rows, row)) && rows == if ok then old(rows) + [row] else old(rows)
    {
      ok := Admits(rows, row);
      if ok {
        rows := rows + [row];
      }
    }

    method AuditRegistration(entry: Audit, works: bool) returns (ok: bool)
      modifies this
      ensures rows == old(rows)
      ensures ok == works && audit == if ok then old(audit) + [entry] else old(audit)
    {
      if works {
        audit := audit + [entry];
      }
      ok := works;
    }

    method Register(sha: string -> string, call: Call) returns (reply: Reply)
      modifies this
      ensures (State(rows, audit), reply) == Step(sha, tenant, old(State(rows, audit)), call)
    {
      var digest := sha(call.instruction.text);
      if digest != call.instruction.sha256 {
        return HashMismatch(digest);
      }
      var existing := Get(call.instruction.version);
      if existing.Some? {
        if existing.value.sha256 == digest {
          return Registered(existing.value.id);
        }
        return Conflict(existing.value.sha256);
      }
      var inserted := Insert(NewRow(call, digest));
      if !inserted {
        return UniqueViolation;
      }
      var audited := AuditRegistration(NewAudit(tenant, call, digest), call.auditWorks);
      if !audited {
        return AuditFailed;
      }
      reply := Registered(Id(digest));
    }
  }

  // ---- the invariant -----------------------------------------------------------------------------

  ghost predicate RowOk(sha: string -> string, row: Row) {
    row.sha256 == sha(row.body) && row.id == Id(row.sha256)
  }

  /** Versions, hashes and ids each name one row, and every hash is the hash of its body. */
  ghost predicate Valid(sha: string -> string, rows: seq<Row>) {
    && (forall i :: 0 <= i < |rows| ==> RowOk(sha, rows[i]))
    && forall i, j :: 0 <= i < j < |rows| ==>
         rows[i].version != rows[j].version && rows[i].sha256 != rows[j].sha256 && rows[i].id != rows[j].id
  }

  lemma {:induction false} FindFacts(rows: seq<Row>, version: string)
    ensures Find(rows, version).Some? ==> Find(rows, version).value in rows && Find(rows, version).value.version == version
    ensures Find(rows, version).None? ==> forall r :: r in rows ==> r.version != version
  {
    if rows != [] {
      FindFacts(rows[1..], version);
      assert rows == [rows[0]] + rows[1..];
    }
  }

  lemma {:induction false} FindHashFacts(rows: seq<Row>, sha256: string)
    ensures FindHash(rows, sha256).Some? ==> FindHash(rows, sha256).value in rows && FindHash(rows, sha256).value.sha256 == sha256
    ensures FindHash(rows, sha256).None? ==> forall r :: r in rows ==> r.sha256 != sha256
  {
    if rows != [] {
      FindHashFacts(rows[1..], sha256);
      assert rows == [rows[0]] + rows[1..];
    }
  }

  lemma {:induction false} FindStays(rows: seq<Row>, more: seq<Row>, version: string)
    requires Find(rows, version).Some?
    ensures Find(rows + more, version) == Find(rows, version)
  {
    assert (rows + more)[1..] == rows[1..] + more;
    if rows[0].version != version { FindStays(rows[1..], more, version); }
  }

  lemma StepKeepsValid(sha: string -> string, tenant: string, s: State, call: Call)
    requires Valid(sha, s.rows)
    ensures Valid(sha, Step(sha, tenant, s, call).0.rows)
  {
    var row := NewRow(call, sha(call.instruction.text));
    if Admits(s.rows, row) {
      forall i | 0 <= i < |s.rows|
        ensures s.rows[i].version != row.version && s.rows[i].sha256 != row.sha256 && s.rows[i].id != row.id
      {
        assert s.rows[i] in s.rows;
      }
    }
  }

  // ---- any run of registrations --------------------------------------------------------------------

  function Run(sha: string -> string, tenant: string, s: State, calls: seq<Call>): State {
    if calls == [] then s
    else Step(sha, tenant, Run(sha, tenant, s, calls[..|calls| - 1]), calls[|calls| - 1]).0
  }

  /** How many of the calls lost their audit entry. */
  function Lost(sha: string -> string, tenant: string, s: State, calls: seq<Call>): nat {
    if calls == [] then 0
    else
      var front := calls[..|calls| - 1];
      Lost(sha, tenant, s, front)
      + if Step(sha, tenant, Run(sha, tenant, s, front), calls[|calls| - 1]).1.AuditFailed? then 1 else 0
  }

  lemma {:induction false} RunKeepsValid(sha: string -> string, tenant: string, s: State, calls: seq<Call>)
    requires Valid(sha, s.rows)
    ensures Valid(sha, Run(sha, tenant, s, calls).rows)
  {
    if calls != [] {
      RunKeepsValid(sha, tenant, s, calls[..|calls| - 1]);
      StepKeepsValid(sha, tenant, Run(sha, tenant, s, calls[..|calls| - 1]), calls[|calls| - 1]);
    }
  }

  /** In whatever order registrations arrive and fail, versions and hashes stay in one-to-one
      correspondence, and each stored hash is the hash of the stored body. */
  lemma VersionsAndHashesCorrespond(sha: string -> string, tenant: string, calls: seq<Call>, a: Row, b: Row)
    requires a in Run(sha, tenant, State([], []), calls).rows && b in Run(sha, tenant, State([], []), calls).rows
    ensures a.version == b.version <==> a.sha256 == b.sha256
    ensures a.version == b.version <==> a == b
    ensures a.sha256 == sha(a.body)
  {
    RunKeepsValid(sha, tenant, State([], []), calls);
  }

  lemma {:induction false} RowsOnlyAppended(sha: string -> string, tenant: string, s: State, calls: seq<Call>)
    ensures var r := Run(sha, tenant, s, calls);
      |s.rows| <= |r.rows| && r.rows[..|s.rows|] == s.rows && |s.audit| <= |r.audit| && r.audit[..|s.audit|] == s.audit
  {
    if calls != [] {
      var before, after := Run(sha, tenant, s, calls[..|calls| - 1]), Run(sha, tenant, s, calls);
      RowsOnlyAppended(sha, tenant, s, calls[..|calls| - 1]);
      assert after.rows[..|before.rows|] == before.rows && after.audit[..|before.audit|] == before.audit;
      assert after.rows[..|s.rows|] == after.rows[..|before.rows|][..|s.rows|];
      assert after.audit[..|s.audit|] == after.audit[..|before.audit|][..|s.audit|];
    }
  }

  /** Once a version is there, every later state finds the same row under it. */
  lemma VersionsNeverChange(sha: string -> string, tenant: string, s: State, calls: seq<Call>, version: string)
    requires Find(s.rows, version).Some?
    ensures Find(Run(sha, tenant, s, calls).rows, version) == Find(s.rows, version)
  {
    var rows := Run(sha, tenant, s, calls).rows;
    RowsOnlyAppended(sha, tenant, s, calls);
    assert rows == s.rows + rows[|s.rows|..];
    FindStays(s.rows, rows[|s.rows|..], version);
  }

  ghost function Bodies(rows: seq<Row>): iset<string> {
    iset row | row in rows :: row.body
  }

  /** A registration that returned, at any time, is loaded byte for byte ever after; the same
      registration again changes neither table and returns the same id. */
  lemma RegistrationIsForever(sha: string -> string, tenant: string, s: State, call: Call, calls: seq<Call>)
    requires Valid(sha, s.rows) && Step(sha, tenant, s, call).1.Registered?
    requires Digest(sha, Bodies(s.rows) + iset{call.instruction.text})
    ensures var (s', reply) := Step(sha, tenant, s, call);
      var later := Run(sha, tenant, s', calls);
      && Load(later.rows, call.instruction.version) == Some(call.instruction)
      && Step(sha, tenant, later, call) == (later, reply)
  {
    var (s', reply) := Step(sha, tenant, s, call);
    var version := call.instruction.version;
    FindFacts(s.rows, version);
    FindFacts(s'.rows, version);
    StepKeepsValid(sha, tenant, s, call);
    assert Find(s.rows, version).None? ==> NewRow(call, sha(call.instruction.text)) == s'.rows[|s.rows|];
    VersionsNeverChange(sha, tenant, s', calls, version);
  }

  /** Looking a stored row up by its hash or by its version gives that row, and loading it its text. */
  lemma LookupsAgree(sha: string -> string, rows: seq<Row>, row: Row)
    requires Valid(sha, rows) && row in rows
    ensures GetByHash(rows, row.sha256) == Find(rows, row.version) == Some(row)
    ensures Load(rows, row.version) == Some(Instruction(row.version, sha(row.body), row.body))
  {
    FindFacts(rows, row.version);
    FindHashFacts(rows, row.sha256);
  }

  /** A text is registered under one version only: under another it always fails. */
  lemma SecondVersionOfATextFails(sha: string -> string, tenant: string, s: State, row: Row, call: Call)
    requires Valid(sha, s.rows) && row in s.rows && call.instruction.text == row.body && call.instruction.version != row.version
    ensures Step(sha, tenant, s, call).0 == s && !Step(sha, tenant, s, call).1.Registered?
  {
    FindFacts(s.rows, call.instruction.version);
    assert NewRow(call, sha(call.instruction.text)).sha256 == row.sha256;
  }

  // ---- one registration, written out -----------------------------------------------------------------

  /** The first sixteen characters of the digest, or all of it. */
  ghost predicate IsId(id: string, digest: string) {
    |id| == 4 + (if |digest| < 16 then |digest| else 16) && id[..4] == "ins_" && id[4..] <= digest
  }

  lemma {:induction false} LinesCountBreaks(text: string, breaks: set<nat>)
    requires forall i: nat :: i in breaks <==> i < |text| && text[i] == '\n'
    ensures Lines(text) == |breaks| + 1
  {
    if text == "" {
      assert breaks == {};
    } else {
      var later := set i: nat | i < |text[1..]| && text[1..][i] == '\n';
      LinesCountBreaks(text[1..], later);
      ShiftedByOne(text, breaks, later);
    }
  }

  lemma ShiftedByOne(text: string, breaks: set<nat>, later: set<nat>)
    requires text != "" && forall i: nat :: i in breaks <==> i < |text| && text[i] == '\n'
    requires forall i: nat :: i in later <==> i < |text[1..]| && text[1..][i] == '\n'
    ensures |breaks| == |later| + if text[0] == '\n' then 1 else 0
  {
    ShiftKeepsSize(later, breaks - {0});
    if text[0] == '\n' { assert breaks == (breaks - {0}) + {0}; } else { assert breaks == breaks - {0}; }
  }

  lemma {:induction false} ShiftKeepsSize(a: set<nat>, b: set<nat>)
    requires forall i: nat :: i in b <==> i > 0 && i - 1 in a
    ensures |a| == |b|
    decreases |a|
  {
    if a == {} {
      assert forall i :: i in b ==> i - 1 in a;
    } else {
      var x :| x in a;
      assert x + 1 in b;
      ShiftKeepsSize(a - {x}, b - {x + 1});
      assert a == (a - {x}) + {x} && b == (b - {x + 1}) + {x + 1};
    }
  }

  /** What a registration does to a table whose versions are unique: which reply comes when, and the row and
      the entry of a new one. */
  lemma StepAnswers(sha: string -> string, tenant: string, s: State, call: Call, digest: string, breaks: set<nat>)
      returns (known: set<Row>, id: string, row: Row, entry: Audit)
    requires Valid(sha, s.rows) && digest == sha(call.instruction.text)
    requires forall i: nat :: i in breaks <==> i < |call.instruction.text| && call.instruction.text[i] == '\n'
    ensures known == (set r | r in s.rows && r.version == call.instruction.version) && IsId(id, digest)
    ensures row == Row(id, call.instruction.version, call.instruction.text, digest, call.notes, call.principal)
    ensures entry == Audit(tenant, call.principal, "instruction.register", id, call.instruction.version, digest, |breaks| + 1,
                           call.notes, call.requestId)
    ensures var (next, reply) := Step(sha, tenant, s, call);
      if call.instruction.sha256 != digest then next == s && reply == HashMismatch(digest)
      else if known != {} then next == s && exists r :: r in known && reply == AnswerTo(r, digest)
      else if exists r :: r in s.rows && (r.id == id || r.sha256 == digest) then next == s && reply == UniqueViolation
      else if !call.auditWorks then next == State(s.rows + [row], s.audit) && reply == AuditFailed
      else next == State(s.rows + [row], s.audit + [entry]) && reply == Registered(id)
  {
    id := Id(digest);
    row, entry := NewRow(call, digest), NewAudit(tenant, call, digest);
    known := set r | r in s.rows && r.version == call.instruction.version;
    LinesCountBreaks(call.instruction.text, breaks);
    FindFacts(s.rows, call.instruction.version);
    var found := Find(s.rows, call.instruction.version);
    if found.Some? { assert found.value in known; }
  }

  /** A version that is there: the same text again is fine. */
  function AnswerTo(row: Row, digest: string): Reply {
    if row.sha256 == digest then Registered(row.id) else Conflict(row.sha256)
  }

  // ---- the audit log ---------------------------------------------------------------------------------

  ghost predicate Matches(entry: Audit, row: Row) {
    entry.resourceId == row.id && entry.version == row.version && entry.sha256 == row.sha256
    && entry.principal == row.createdBy && entry.notes == row.notes && entry.action == "instruction.register"
  }

  /** Every entry records a row; entries come in the order of the rows, without repetition. */
  ghost predicate Logged(s: State) {
    exists at: seq<nat> :: LoggedAt(s, at)
  }

  ghost predicate LoggedAt(s: State, at: seq<nat>) {
    && |at| == |s.audit|
    && (forall i :: 0 <= i < |at| ==> at[i] < |s.rows| && Matches(s.audit[i], s.rows[at[i]]))
    && forall i, j :: 0 <= i < j < |at| ==> at[i] < at[j]
  }

  lemma StepKeepsLogged(sha: string -> string, tenant: string, s: State, call: Call, at: seq<nat>)
    requires LoggedAt(s, at)
    ensures Logged(Step(sha, tenant, s, call).0)
  {
    var (s', reply) := Step(sha, tenant, s, call);
    if |s'.audit| > |s.audit| {
      assert LoggedAt(s', at + [|s.rows|]);
    } else {
      assert LoggedAt(s', at);
    }
  }

  /** Entries record rows one to one, and exactly as many rows lack an entry as audit inserts failed:
      the log is complete if and only if none did. */
  lemma {:induction false} AuditCompleteIffNoneLost(sha: string -> string, tenant: string, calls: seq<Call>)
    ensures var s := Run(sha, tenant, State([], []), calls);
      && Logged(s) && |s.rows| == |s.audit| + Lost(sha, tenant, State([], []), calls)
  {
    if calls == [] {
      assert LoggedAt(State([], []), []);
    } else {
      var before := Run(sha, tenant, State([], []), calls[..|calls| - 1]);
      AuditCompleteIffNoneLost(sha, tenant, calls[..|calls| - 1]);
      var at: seq<nat> :| LoggedAt(before, at);
      StepKeepsLogged(sha, tenant, before, calls[|calls| - 1], at);
    }
  }

  /** With no audit insert lost, the i-th entry records the i-th row. */
  lemma CompleteLogMatchesRows(s: State, i: nat)
    requires Logged(s) && |s.rows| == |s.audit| && i < |s.rows|
    ensures Matches(s.audit[i], s.rows[i])
  {
    var at: seq<nat> :| LoggedAt(s, at);
    IncreasingIsIdentity(at, |s.rows|, i);
  }

  lemma IncreasingIsIdentity(at: seq<nat>, n: nat, i: nat)
    requires |at| == n && i < n
    requires forall k :: 0 <= k < n ==> at[k] < n
    requires forall j, k :: 0 <= j < k < n ==> at[j] < at[k]
    ensures at[i] == i
  {
    AtLeast(at, i);
    AtMost(at, n, i);
  }

  lemma {:induction false} AtLeast(at: seq<nat>, i: nat)
    requires i < |at| && forall j, k :: 0 <= j < k < |at| ==> at[j] < at[k]
    ensures at[i] >= i
  {
    if i > 0 { AtLeast(at, i - 1); }
  }

  lemma {:induction false} AtMost(at: seq<nat>, n: nat, i: nat)
    requires |at| == n && i < n
    requires forall k :: 0 <= k < n ==> at[k] < n
    requires forall j, k :: 0 <= j < k < n ==> at[j] < at[k]
    ensures at[i] <= i
    decreases n - i
  {
    if i + 1 < n { AtMost(at, n, i + 1); }
  }

  /** A lost entry is never made up for: registering again succeeds and logs nothing. */
  lemma LostEntryStaysLost(sha: string -> string, tenant: string, s: State, call: Call)
    requires Step(sha, tenant, s, call).1.AuditFailed?
    ensures var s' := Step(sha, tenant, s, call).0;
      Step(sha, tenant, s', call.(auditWorks := true)) == (s', Registered(Id(sha(call.instruction.text))))
      && s'.audit == s.audit && |s'.rows| == |s.rows| + 1
  {
    var s' := Step(sha, tenant, s, call).0;
    var row := NewRow(call, sha(call.instruction.text));
    FindFacts(s.rows, call.instruction.version);
    FindNewRow(s.rows, row);
  }

  lemma {:induction false} FindNewRow(rows: seq<Row>, row: Row)
    requires Find(rows, row.version).None?
    ensures Find(rows + [row], row.version) == Some(row)
  {
    if rows == [] {
      assert rows + [row] == [row];
    } else {
      assert (rows + [row])[1..] == rows[1..] + [row];
      FindNewRow(rows[1..], row);
    }
  }
}
