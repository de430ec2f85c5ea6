/** What ingestion keeps over any sequence of batches, each of which may stop at an exception. */
module IngestFacts {
  import opened Hashing
  import opened Wrappers
  import opened Ingest

  // ---- the invariant -----------------------------------------------------------------------------

  /** At most one row for each tenant, domain and content hash. */
  ghost predicate OneRowPerContent(rows: seq<Row>) {
    forall i, j :: 0 <= i < j < |rows| ==>
      (rows[i].tenant, rows[i].domain, rows[i].hash) != (rows[j].tenant, rows[j].domain, rows[j].hash)
  }

  /** The row points to a stored blob, and the blob is what was hashed. */
  ghost predicate Backed(env: Env, blobs: map<string, string>, row: Row) {
    exists key :: key in blobs && row.uri == Uri(key) && env.sha(blobs[key]) == row.hash
  }

  ghost predicate Consistent(env: Env, s: State) {
    && OneRowPerContent(s.rows)
    && forall i :: 0 <= i < |s.rows| ==> Backed(env, s.blobs, s.rows[i])
  }

  ghost predicate Grows(blobs: map<string, string>, blobs': map<string, string>) {
    forall key :: key in blobs ==> key in blobs' && blobs'[key] == blobs[key]
  }

  /** A normaliser that leaves the `domain` of the body alone. */
  ghost predicate KeepsDomain(env: Env) {
    forall body, sourceFormat ::
      env.normalize(body, sourceFormat).Normal? ==> body.domain == Some(env.normalize(body, sourceFormat).trajectory.domain)
  }

  // ---- one record -----------------------------------------------------------------------------------

  lemma BackedStays(env: Env, blobs: map<string, string>, blobs': map<string, string>, row: Row)
    requires Backed(env, blobs, row) && Grows(blobs, blobs')
    ensures Backed(env, blobs', row)
  {
    var key :| key in blobs && row.uri == Uri(key) && env.sha(blobs[key]) == row.hash;
    assert key in blobs';
  }

  /** Rolling back the rows of a failed batch, while its blobs stay, keeps the invariant. */
  lemma RollbackKeepsConsistency(env: Env, s: State, blobs: map<string, string>)
    requires Consistent(env, s) && Grows(s.blobs, blobs)
    ensures Consistent(env, s.(blobs := blobs))
  {
    forall i | 0 <= i < |s.rows| ensures Backed(env, blobs, s.rows[i]) { BackedStays(env, s.blobs, blobs, s.rows[i]); }
  }

  lemma StoredGrows(blobs: map<string, string>, key: string, data: string)
    requires CanPut(blobs, key, data)
    ensures Grows(blobs, Stored(blobs, key, data)) && key in Stored(blobs, key, data) && Stored(blobs, key, data)[key] == data
  {
  }

  lemma NewRowIsNew(rows: seq<Row>, row: Row)
    requires OneRowPerContent(rows) && !Has(rows, row.tenant, row.domain, row.hash)
    ensures OneRowPerContent(rows + [row])
  {
    forall i | 0 <= i < |rows|
      ensures (rows[i].tenant, rows[i].domain, rows[i].hash) != (row.tenant, row.domain, row.hash)
    {
      assert rows[i] in rows;
    }
  }

  /** What one record may do: blobs only grow, and rows change only by one row of the batch's
      tenant, appended when the record is accepted. */
  ghost predicate Allowed(c: Call, s: State, next: (State, Reply)) {
    var (s', reply) := next;
    && Grows(s.blobs, s'.blobs)
    && if c.track && reply.Replied? && reply.outcome.Accepted?
         then |s'.rows| == |s.rows| + 1 && s'.rows[..|s.rows|] == s.rows
              && var row := s'.rows[|s.rows|];
                 row.tenant == c.tenant && row.hash == reply.outcome.hash && row.uri == reply.outcome.uri && row.id == reply.outcome.id
         else s'.rows == s.rows
  }

  lemma StepIsAllowed(c: Call, s: State, n: nat, record: Record)
    ensures Allowed(c, s, Step(c, s, n, record))
  {
    var raw, hash := c.env.encode(record.body), HashOf(c.env, record.body);
    match c.env.normalize(record.body, record.sourceFormat)
    case Refused(why) =>
      var key := QuarantineKey(c.tenant, DomainOr(record.body, "unknown"), hash, c.stamp);
      if CanPut(s.blobs, key, c.env.refusalBytes(why, record.body)) { StoredGrows(s.blobs, key, c.env.refusalBytes(why, record.body)); }
    case Normal(t) =>
      var key := BodyKey(c.tenant, t.domain, hash, c.stamp);
      if CanPut(s.blobs, key, raw) { StoredGrows(s.blobs, key, raw); }
  }

  lemma AcceptKeepsConsistency(c: Call, s: State, n: nat, body: Body, t: Canonical)
    requires Consistent(c.env, s) && (c.track ==> !Has(s.rows, c.tenant, t.domain, HashOf(c.env, body)))
    ensures Consistent(c.env, Accept(c, s, n, body, t).0)
  {
    var raw, hash := c.env.encode(body), HashOf(c.env, body);
    var key := BodyKey(c.tenant, t.domain, hash, c.stamp);
    var row := RowOf(t, c.tenant, hash, key, c.clock(n));
    if CanPut(s.blobs, key, raw) {
      var blobs := Stored(s.blobs, key, raw);
      StoredGrows(s.blobs, key, raw);
      RollbackKeepsConsistency(c.env, s, blobs);
      assert Backed(c.env, blobs, row);
      if c.track { NewRowIsNew(s.rows, row); }
    }
  }

  lemma StepKeepsConsistency(c: Call, s: State, n: nat, record: Record)
    requires Consistent(c.env, s) && KeepsDomain(c.env)
    ensures Consistent(c.env, Step(c, s, n, record).0)
  {
    match c.env.normalize(record.body, record.sourceFormat)
    case Refused(why) =>
      StepIsAllowed(c, s, n, record);
      RollbackKeepsConsistency(c.env, s, Step(c, s, n, record).0.blobs);
    case Normal(t) =>
      assert DomainOr(record.body, "") == t.domain;
      if !(c.track && Has(s.rows, c.tenant, t.domain, HashOf(c.env, record.body))) {
        AcceptKeepsConsistency(c, s, n, record.body, t);
      }
  }

  // ---- a batch ----------------------------------------------------------------------------------------

  /** `s'` comes after `s` in a batch that accepted `accepted` records. */
  ghost predicate Follows(c: Call, s: State, s': State, accepted: nat) {
    && Grows(s.blobs, s'.blobs)
    && |s'.rows| == |s.rows| + (if c.track then accepted else 0)
    && s'.rows[..|s.rows|] == s.rows
    && forall i :: |s.rows| <= i < |s'.rows| ==> s'.rows[i].tenant == c.tenant
  }

  lemma FollowsOn(c: Call, s: State, s': State, accepted: nat, next: (State, Reply))
    requires Follows(c, s, s', accepted) && Allowed(c, s', next)
    ensures Follows(c, s, next.0, accepted + if next.1.Replied? && next.1.outcome.Accepted? then 1 else 0)
  {
    var s'' := next.0;
    assert s''.rows[..|s.rows|] == s''.rows[..|s'.rows|][..|s.rows|];
    forall i | |s.rows| <= i < |s''.rows| ensures s''.rows[i].tenant == c.tenant {
      if i < |s'.rows| { assert s''.rows[i] == s''.rows[..|s'.rows|][i]; }
    }
  }

  /** A batch, finished or stopped: the invariant is kept, no stored key changes, old rows stay
      first, every new row has the batch's tenant, and there are as many of them as acceptances. */
  lemma {:induction false} BatchFacts(c: Call, s: State, records: seq<Record>)
    requires Consistent(c.env, s) && KeepsDomain(c.env)
    ensures var p := Run(c, s, records);
      Consistent(c.env, p.state) && Follows(c, s, p.state, Count(p.results, IsAccepted))
  {
    if records != [] {
      var n := |records| - 1;
      var before := Run(c, s, records[..n]);
      BatchFacts(c, s, records[..n]);
      if before.error.None? {
        var next := Step(c, before.state, n, records[n]);
        StepIsAllowed(c, before.state, n, records[n]);
        StepKeepsConsistency(c, before.state, n, records[n]);
        FollowsOn(c, s, before.state, Count(before.results, IsAccepted), next);
        if next.1.Replied? { CountOneMore(before.results, next.1.outcome, IsAccepted); }
      }
    }
  }

  lemma CountOneMore(results: seq<Outcome>, o: Outcome, status: Status)
    ensures Count(results + [o], status) == Count(results, status) + if StatusOf(o) == status then 1 else 0
  {
    assert (results + [o])[..|results|] == results;
  }

  /** In a finished batch every record has an outcome and the three counts add up. */
  lemma {:induction false} CountsAddUp(step: Stepper, s: State, records: seq<Record>)
    ensures var p := RunWith(step, s, records);
      && (p.error.None? ==> |p.results| == |records|)
      && Count(p.results, IsAccepted) + Count(p.results, IsDuplicate) + Count(p.results, IsQuarantined) == |p.results|
  {
    CountsCover(RunWith(step, s, records).results);
    if records != [] { CountsAddUp(step, s, records[..|records| - 1]); }
  }

  lemma {:induction false} CountsCover(results: seq<Outcome>)
    ensures Count(results, IsAccepted) + Count(results, IsDuplicate) + Count(results, IsQuarantined) == |results|
  {
    if results != [] { CountsCover(results[..|results| - 1]); }
  }

  // ---- any run of batches -----------------------------------------------------------------------------

  /** A batch and whether the transaction around it is undone in the end, finished or not. */
  datatype Batch = Batch(tenant: string, stamp: string, clock: nat -> nat, records: seq<Record>, undone: bool)

  function CallFor(env: Env, track: bool, b: Batch): Call { Call(env, track, b.tenant, b.stamp, b.clock) }

  /** What a batch leaves behind: undoing takes its rows back, while the object store keeps what was put. */
  function AfterBatch(env: Env, track: bool, s: State, b: Batch): State {
    var after := Run(CallFor(env, track, b), s, b.records).state;
    if b.undone then after.(rows := s.rows) else after
  }

  function RunAll(env: Env, track: bool, s: State, batches: seq<Batch>): State {
    if batches == [] then s
    else AfterBatch(env, track, RunAll(env, track, s, batches[..|batches| - 1]), batches[|batches| - 1])
  }

  const EMPTY := State(map[], [])

  /** The rows of the one state come first in the other, and the rest carry the tenant. */
  ghost predicate AppendsFor(tenant: string, rows: seq<Row>, rows': seq<Row>) {
    |rows| <= |rows'| && rows'[..|rows|] == rows && forall i :: |rows| <= i < |rows'| ==> rows'[i].tenant == tenant
  }

  lemma AfterBatchFacts(env: Env, track: bool, s: State, b: Batch)
    requires Consistent(env, s) && KeepsDomain(env)
    ensures var after := AfterBatch(env, track, s, b);
      && Consistent(env, after) && Grows(s.blobs, after.blobs) && AppendsFor(b.tenant, s.rows, after.rows)
      && (b.undone ==> after.rows == s.rows)
  {
    var after := Run(CallFor(env, track, b), s, b.records).state;
    BatchFacts(CallFor(env, track, b), s, b.records);
    RollbackKeepsConsistency(env, s, after.blobs);
  }

  /** The row carries the tenant of a batch that was not undone. */
  ghost predicate FromSomeBatch(batches: seq<Batch>, row: Row) {
    exists b :: 0 <= b < |batches| && !batches[b].undone && batches[b].tenant == row.tenant
  }

  lemma RowsHaveBatches(batches: seq<Batch>, rows: seq<Row>, rows': seq<Row>)
    requires batches != [] && forall i :: 0 <= i < |rows| ==> FromSomeBatch(batches[..|batches| - 1], rows[i])
    requires var b := batches[|batches| - 1]; AppendsFor(b.tenant, rows, rows') && (b.undone ==> rows' == rows)
    ensures forall i :: 0 <= i < |rows'| ==> FromSomeBatch(batches, rows'[i])
  {
    var n := |batches| - 1;
    forall i | 0 <= i < |rows'| ensures FromSomeBatch(batches, rows'[i]) {
      if i < |rows| {
        assert rows'[i] == rows'[..|rows|][i];
        var k :| 0 <= k < n && !batches[..n][k].undone && batches[..n][k].tenant == rows[i].tenant;
        assert !batches[k].undone && batches[k].tenant == rows'[i].tenant;
      } else {
        assert !batches[n].undone && batches[n].tenant == rows'[i].tenant;
      }
    }
  }

  /** From empty stores, whatever batches arrive, wherever they stop and whichever are undone: one row
      per content, every row backed by the hashed bytes and carrying the tenant of a batch that stands. */
  lemma {:induction false} EveryRunIsConsistent(env: Env, track: bool, batches: seq<Batch>)
    requires KeepsDomain(env)
    ensures var s := RunAll(env, track, EMPTY, batches);
      Consistent(env, s) && forall i :: 0 <= i < |s.rows| ==> FromSomeBatch(batches, s.rows[i])
  {
    if batches != [] {
      var front, b := batches[..|batches| - 1], batches[|batches| - 1];
      var before := RunAll(env, track, EMPTY, front);
      EveryRunIsConsistent(env, track, front);
      AfterBatchFacts(env, track, before, b);
      RowsHaveBatches(batches, before.rows, AfterBatch(env, track, before, b).rows);
    }
  }

  /** No key that is ever stored changes or disappears later, and rows are only appended. */
  lemma {:induction false} NoKeyEverChanges(env: Env, track: bool, s: State, batches: seq<Batch>)
    requires Consistent(env, s) && KeepsDomain(env)
    ensures Consistent(env, RunAll(env, track, s, batches)) && Grows(s.blobs, RunAll(env, track, s, batches).blobs)
    ensures |s.rows| <= |RunAll(env, track, s, batches).rows| && RunAll(env, track, s, batches).rows[..|s.rows|] == s.rows
  {
    if batches != [] {
      var n := |batches| - 1;
      var before, after := RunAll(env, track, s, batches[..n]), RunAll(env, track, s, batches);
      NoKeyEverChanges(env, track, s, batches[..n]);
      AfterBatchFacts(env, track, before, batches[n]);
      assert after.rows[..|s.rows|] == after.rows[..|before.rows|][..|s.rows|];
    }
  }

  // ---- resending ------------------------------------------------------------------------------------------

  ghost predicate HasRow(c: Call, s: State, record: Record) {
    Has(s.rows, c.tenant, DomainOr(record.body, ""), HashOf(c.env, record.body))
  }

  function DuplicateOf(env: Env): Record -> Outcome { (record: Record) => Duplicate(HashOf(env, record.body)) }

  function Duplicates(env: Env, records: seq<Record>): (r: seq<Outcome>)
    ensures |r| == |records|
  {
    if records == [] then [] else Duplicates(env, records[..|records| - 1]) + [DuplicateOf(env)(records[|records| - 1])]
  }

  /** A batch in which no step does anything but answer is a list of those answers. */
  lemma {:induction false} AnswersOnly(step: Stepper, env: Env, s: State, records: seq<Record>)
    requires forall i :: 0 <= i < |records| ==> step(s, i, records[i]) == (s, Replied(DuplicateOf(env)(records[i])))
    ensures RunWith(step, s, records) == Progress(s, Duplicates(env, records), None)
  {
    if records != [] {
      var n := |records| - 1;
      AnswersOnly(step, env, s, records[..n]);
      assert step(s, n, records[n]) == (s, Replied(DuplicateOf(env)(records[n])));
    }
  }

  /** A batch whose records all have rows changes nothing and returns only duplicates. */
  lemma ResendChangesNothing(c: Call, s: State, records: seq<Record>)
    requires c.track && forall i :: 0 <= i < |records| ==> HasRow(c, s, records[i])
    ensures Run(c, s, records) == Progress(s, Duplicates(c.env, records), None)
  {
    forall i | 0 <= i < |records| ensures Stepping(c)(s, i, records[i]) == (s, Replied(DuplicateOf(c.env)(records[i]))) {
      assert HasRow(c, s, records[i]);
    }
    AnswersOnly(Stepping(c), c.env, s, records);
  }

  lemma HasStays(rows: seq<Row>, rows': seq<Row>, tenant: string, domain: string, hash: string)
    requires Has(rows, tenant, domain, hash) && |rows| <= |rows'| && rows'[..|rows|] == rows
    ensures Has(rows', tenant, domain, hash)
  {
    var r :| r in rows && r.tenant == tenant && r.domain == domain && r.hash == hash;
    assert r in rows'[..|rows|];
  }

  ghost predicate Handled(reply: Reply) { reply.Replied? && !reply.outcome.Quarantined? }

  lemma HandledHasRow(c: Call, s: State, n: nat, record: Record)
    requires KeepsDomain(c.env) && c.track
    ensures Handled(Step(c, s, n, record).1) ==> HasRow(c, Step(c, s, n, record).0, record)
  {
    var (s', reply) := Step(c, s, n, record);
    if reply.Replied? && reply.outcome.Accepted? {
      assert s'.rows[|s.rows|] in s'.rows;
    }
  }

  lemma RowStays(c: Call, s: State, n: nat, last: Record, record: Record)
    requires HasRow(c, s, record)
    ensures HasRow(c, Step(c, s, n, last).0, record)
  {
    StepIsAllowed(c, s, n, last);
    HasStays(s.rows, Step(c, s, n, last).0.rows, c.tenant, DomainOr(record.body, ""), HashOf(c.env, record.body));
  }

  /** A step establishes the fact about its own record. */
  ghost predicate Establishes(step: Stepper, done: (State, Record) -> bool) {
    forall t: State, n: nat, record: Record :: Handled(step(t, n, record).1) ==> done(step(t, n, record).0, record)
  }

  /** Later steps keep the fact. */
  ghost predicate Keeps(step: Stepper, done: (State, Record) -> bool) {
    forall t: State, n: nat, last: Record, record: Record :: done(t, record) ==> done(step(t, n, last).0, record)
  }

  /** Then it holds of all the records of a finished batch that were not quarantined. */
  lemma {:induction false} HoldsAfterwards(step: Stepper, done: (State, Record) -> bool, s: State,
                                        records: seq<Record>, i: nat, p: Progress)
    requires i < |records| && p == RunWith(step, s, records) && p.error.None?
    requires Establishes(step, done) && Keeps(step, done)
    ensures |p.results| == |records| && (!p.results[i].Quarantined? ==> done(p.state, records[i]))
  {
    var n := |records| - 1;
    var before := RunWith(step, s, records[..n]);
    CountsAddUp(step, s, records[..n]);
    LastStep(step, s, records);
    if i < n {
      HoldsAfterwards(step, done, s, records[..n], i, before);
    }
  }

  lemma LastStep(step: Stepper, s: State, records: seq<Record>)
    requires records != [] && RunWith(step, s, records).error.None?
    ensures var n := |records| - 1;
      var before := RunWith(step, s, records[..n]);
      var next := step(before.state, n, records[n]);
      before.error.None? && next.1.Replied? && RunWith(step, s, records) == Progress(next.0, before.results + [next.1.outcome], None)
  {
  }

  ghost function RowExists(c: Call): (State, Record) -> bool { (s: State, record: Record) => HasRow(c, s, record) }

  /** Every record of a finished batch that was not quarantined has a row afterwards. */
  lemma HandledRecordsHaveRows(c: Call, s: State, records: seq<Record>, i: nat, p: Progress)
    requires KeepsDomain(c.env) && c.track && i < |records|
    requires p == Run(c, s, records) && p.error.None?
    ensures |p.results| == |records| && (!p.results[i].Quarantined? ==> HasRow(c, p.state, records[i]))
  {
    RowsAreEstablished(c);
    RowsAreKept(c);
    HoldsAfterwards(Stepping(c), RowExists(c), s, records, i, p);
  }

  lemma RowsAreEstablished(c: Call)
    requires KeepsDomain(c.env) && c.track
    ensures Establishes(Stepping(c), RowExists(c))
  {
    forall t: State, n: nat, record: Record ensures Handled(Step(c, t, n, record).1) ==> HasRow(c, Step(c, t, n, record).0, record) {
      HandledHasRow(c, t, n, record);
    }
  }

  lemma RowsAreKept(c: Call)
    ensures Keeps(Stepping(c), RowExists(c))
  {
    forall t: State, n: nat, last: Record, record: Record | HasRow(c, t, record) ensures HasRow(c, Step(c, t, n, last).0, record) {
      RowStays(c, t, n, last, record);
    }
  }

  /** Redelivery: a finished batch without quarantined records, sent again on any day, is all
      duplicates and leaves both stores as they are. */
  lemma RedeliveryIsANoOp(c: Call, s: State, records: seq<Record>, p: Progress, stamp: string, clock: nat -> nat)
    requires KeepsDomain(c.env) && c.track
    requires p == Run(c, s, records) && p.error.None? && forall o :: o in p.results ==> !o.Quarantined?
    ensures Run(c.(stamp := stamp, clock := clock), p.state, records) == Progress(p.state, Duplicates(c.env, records), None)
  {
    forall i | 0 <= i < |records| ensures HasRow(c.(stamp := stamp, clock := clock), p.state, records[i]) {
      HandledRecordsHaveRows(c, s, records, i, p);
      assert p.results[i] in p.results;
    }
    ResendChangesNothing(c.(stamp := stamp, clock := clock), p.state, records);
  }

  // ---- what the keys do not cover ----------------------------------------------------------------------------

  /** The quarantine key leaves the source format out: sending a quarantined body again on the same
      day fails exactly when it is now refused for another reason. */
  lemma RequarantineFailsIffRefusalDiffers(c: Call, s: State, n: nat, record: Record, other: string, first: Refusal,
                                        second: Refusal)
    requires forall a, b :: c.env.refusalBytes(a, record.body) == c.env.refusalBytes(b, record.body) ==> a == b
    requires c.track ==> !HasRow(c, s, record)
    requires c.env.normalize(record.body, record.sourceFormat) == Refused(first)
    requires c.env.normalize(record.body, other) == Refused(second)
    requires Step(c, s, n, record).1.Replied?
    ensures Step(c, Step(c, s, n, record).0, n, Record(other, record.body)).1.Raised? <==> first != second
  {
    var key := QuarantineKey(c.tenant, DomainOr(record.body, "unknown"), HashOf(c.env, record.body), c.stamp);
    StoredGrows(s.blobs, key, c.env.refusalBytes(first, record.body));
  }

  /** The table's own keys admit the same content a second time; only the check before the insert
      keeps it out. */
  lemma TableAloneAdmitsDuplicates(env: Env, row: Row, id: string, created: nat)
    requires row.tenant in env.tenants && row.domain in env.domains
    ensures Admits(env, [row], row.(id := id, created := created)) <==> created != row.created
    ensures !OneRowPerContent([row, row.(id := id, created := created)])
  {
    var rows := [row, row.(id := id, created := created)];
    assert (rows[0].tenant, rows[0].domain, rows[0].hash) == (rows[1].tenant, rows[1].domain, rows[1].hash);
  }

  // ---- bodies never clash --------------------------------------------------------------------------------------

  predicate StartsWith(s: string, prefix: string) {
    |prefix| <= |s| && s[..|prefix|] == prefix
  }

  function Ending(hash: string): string { hash + ".json" }

  predicate EndsWith(s: string, suffix: string) {
    |suffix| <= |s| && s[|s| - |suffix|..] == suffix
  }

  /** Outside the quarantine prefix, a key ends in the hash of what it holds, one of the given texts. */
  ghost predicate Addressed(env: Env, texts: iset<string>, blobs: map<string, string>) {
    forall key :: key in blobs && !StartsWith(key, QUARANTINE) ==>
      blobs[key] in texts && EndsWith(key, Ending(env.sha(blobs[key])))
  }

  /** The bodies of the records are among the texts. */
  ghost predicate BodiesIn(env: Env, records: seq<Record>, texts: iset<string>) {
    forall record :: record in records ==> env.encode(record.body) in texts
  }

  lemma SameEnding(key: string, a: string, b: string)
    requires |a| == |b| && EndsWith(key, Ending(a)) && EndsWith(key, Ending(b))
    ensures a == b
  {
    assert Ending(a)[..|a|] == a && Ending(b)[..|b|] == b;
  }

  lemma BodyKeyEndsInHash(tenant: string, domain: string, hash: string, stamp: string)
    ensures EndsWith(BodyKey(tenant, domain, hash, stamp), Ending(hash))
  {
    var front := tenant + "/" + domain + "/" + stamp + "/";
    assert BodyKey(tenant, domain, hash, stamp) == front + Ending(hash);
  }

  lemma QuarantineKeyStartsWithPrefix(tenant: string, domain: string, hash: string, stamp: string)
    ensures StartsWith(QuarantineKey(tenant, domain, hash, stamp), QUARANTINE)
  {
  }

  /** A body outside the quarantine prefix is never refused by the object store, and storing it
      keeps the store addressed. */
  lemma BodiesNeverClash(env: Env, texts: iset<string>, blobs: map<string, string>, tenant: string, stamp: string, domain: string, raw: string)
    requires Digest(env.sha, texts) && Addressed(env, texts, blobs) && raw in texts
    requires !StartsWith(BodyKey(tenant, domain, env.sha(raw), stamp), QUARANTINE)
    ensures CanPut(blobs, BodyKey(tenant, domain, env.sha(raw), stamp), raw)
    ensures Addressed(env, texts, Stored(blobs, BodyKey(tenant, domain, env.sha(raw), stamp), raw))
  {
    var key := BodyKey(tenant, domain, env.sha(raw), stamp);
    BodyKeyEndsInHash(tenant, domain, env.sha(raw), stamp);
    if key in blobs {
      SameEnding(key, env.sha(blobs[key]), env.sha(raw));
    }
  }

  lemma StepKeepsAddressed(c: Call, texts: iset<string>, s: State, n: nat, record: Record)
    requires Digest(c.env.sha, texts) && Addressed(c.env, texts, s.blobs) && c.env.encode(record.body) in texts
    ensures Addressed(c.env, texts, Step(c, s, n, record).0.blobs)
  {
    match c.env.normalize(record.body, record.sourceFormat)
    case Refused(why) =>
      QuarantineKeyStartsWithPrefix(c.tenant, DomainOr(record.body, "unknown"), HashOf(c.env, record.body), c.stamp);
    case Normal(t) =>
      if !StartsWith(BodyKey(c.tenant, t.domain, HashOf(c.env, record.body), c.stamp), QUARANTINE) {
        BodiesNeverClash(c.env, texts, s.blobs, c.tenant, c.stamp, t.domain, c.env.encode(record.body));
      }
  }

  lemma {:induction false} BatchKeepsAddressed(c: Call, texts: iset<string>, s: State, records: seq<Record>)
    requires Digest(c.env.sha, texts) && Addressed(c.env, texts, s.blobs) && BodiesIn(c.env, records, texts)
    ensures Addressed(c.env, texts, Run(c, s, records).state.blobs)
  {
    if records != [] {
      var n := |records| - 1;
      BatchKeepsAddressed(c, texts, s, records[..n]);
      StepKeepsAddressed(c, texts, Run(c, s, records[..n]).state, n, records[n]);
    }
  }

  lemma {:induction false} EveryRunIsAddressed(env: Env, track: bool, texts: iset<string>, batches: seq<Batch>)
    requires Digest(env.sha, texts) && forall b :: b in batches ==> BodiesIn(env, b.records, texts)
    ensures Addressed(env, texts, RunAll(env, track, EMPTY, batches).blobs)
  {
    if batches != [] {
      var b := batches[|batches| - 1];
      assert b in batches;
      EveryRunIsAddressed(env, track, texts, batches[..|batches| - 1]);
      BatchKeepsAddressed(CallFor(env, track, b), texts, RunAll(env, track, EMPTY, batches[..|batches| - 1]), b.records);
    }
  }

  lemma PlainTenantIsOutsideQuarantine(tenant: string, domain: string, hash: string, stamp: string)
    ensures StartsWith(BodyKey(tenant, domain, hash, stamp), QUARANTINE) ==> '/' in tenant || tenant == "_quarantine"
  {
    var key := BodyKey(tenant, domain, hash, stamp);
    assert key[..|tenant|] == tenant && key[|tenant|] == '/';
    assert QUARANTINE[11] == '/' && forall i :: 0 <= i < 11 ==> QUARANTINE[i] != '/';
    if StartsWith(key, QUARANTINE) {
      assert forall i :: 0 <= i < 12 ==> key[i] == key[..12][i] == QUARANTINE[i];
      assert |tenant| >= 11;
      if |tenant| > 11 {
        assert tenant[11] == key[..|tenant|][11] == '/';
      } else {
        assert tenant == key[..12][..11] == "_quarantine";
      }
    }
  }

  /** After any run of batches, a normalised record of a plain tenant is never stopped by the
      object store: either it is a duplicate, or its body is stored. */
  lemma NormalRecordsAreNeverStopped(c: Call, texts: iset<string>, batches: seq<Batch>, s: State, n: nat, record: Record)
    requires Digest(c.env.sha, texts) && c.env.encode(record.body) in texts
    requires forall b :: b in batches ==> BodiesIn(c.env, b.records, texts)
    requires s == RunAll(c.env, c.track, EMPTY, batches)
    requires '/' !in c.tenant && c.tenant != "_quarantine" && c.env.normalize(record.body, record.sourceFormat).Normal?
    ensures Step(c, s, n, record).1.Raised? ==> Step(c, s, n, record).1.error.InsertFailed?
  {
    var t, raw := c.env.normalize(record.body, record.sourceFormat).trajectory, c.env.encode(record.body);
    EveryRunIsAddressed(c.env, c.track, texts, batches);
    PlainTenantIsOutsideQuarantine(c.tenant, t.domain, c.env.sha(raw), c.stamp);
    BodiesNeverClash(c.env, texts, s.blobs, c.tenant, c.stamp, t.domain, raw);
  }
}
