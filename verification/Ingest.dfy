/** Batch ingestion: a write-once object store, a table of rows, and the loop over a batch. The
    serialiser, the hash and the normaliser are parameters; a failed insert is an outcome. */
module Ingest {

  import opened Wrappers

  /** A JSON body: its `domain` entry, if any, as a string, and everything else. */
  datatype Body = Body(domain: Option<string>, rest: string)

  datatype Record = Record(sourceFormat: string, body: Body)

  datatype Canonical = Canonical(id: string, tenant: string, domain: string, rest: string)

  datatype Refusal = Refusal(rule: string, detail: string)

  datatype Normalized = Normal(trajectory: Canonical) | Refused(why: Refusal)

  datatype Row = Row(id: string, tenant: string, domain: string, hash: string, uri: string, created: nat, rest: string)

  datatype Outcome =
    | Accepted(hash: string, id: string, uri: string)
    | Duplicate(hash: string)
    | Quarantined(hash: string, why: Refusal)

  datatype Error = WriteOnce(key: string) | InsertFailed(row: Row)

  /** The surroundings: serialisers, hash, normaliser, and the ids the tables refer to. */
  datatype Env = Env(encode: Body -> string, sha: string -> string, normalize: (Body, string) -> Normalized,
                     refusalBytes: (Refusal, Body) -> string, tenants: set<string>, domains: set<string>)

  datatype State = State(blobs: map<string, string>, rows: seq<Row>)

  // ---- keys ------------------------------------------------------------------------------------

  function BodyKey(tenant: string, domain: string, hash: string, stamp: string): string {
    tenant + "/" + domain + "/" + stamp + "/" + hash + ".json"
  }

  const QUARANTINE := "_quarantine/"

  function QuarantineKey(tenant: string, domain: string, hash: string, stamp: string): string {
    QUARANTINE + BodyKey(tenant, domain, hash, stamp)
  }

  function Uri(key: string): string { "file://" + key }

  function DomainOr(body: Body, missing: string): string {
    if body.domain.Some? then body.domain.value else missing
  }

  // ---- the object store --------------------------------------------------------------------------

  predicate CanPut(blobs: map<string, string>, key: string, data: string) {
    key in blobs ==> blobs[key] == data
  }

  function Stored(blobs: map<string, string>, key: string, data: string): map<string, string> {
    if key in blobs then blobs else blobs[key := data]
  }

  class FilesystemObjectStore {
    var blobs: map<string, string>

    constructor ()
      ensures blobs == map[]
    {
      blobs := map[];
    }

    /** Write-once: the same bytes again are fine, other bytes are refused. */
    method Put(key: string, data: string) returns (uri: Option<string>)
      modifies this
      ensures uri == if old(CanPut(blobs, key, data)) then Some(Uri(key)) else None
      ensures blobs == if uri.Some? then Stored(old(blobs), key, data) else old(blobs)
    {
      if key in blobs {
        if blobs[key] != data {
          return None;
        }
        return Some(Uri(key));
      }
      blobs := blobs[key := data];
      uri := Some(Uri(key));
    }
  }

  // ---- the table -----------------------------------------------------------------------------------

  predicate Has(rows: seq<Row>, tenant: string, domain: string, hash: string) {
    exists r :: r in rows && r.tenant == tenant && r.domain == domain && r.hash == hash
  }

  /** References, primary key and unique key; both keys include the time of insertion. */
  predicate Admits(env: Env, rows: seq<Row>, row: Row) {
    && row.tenant in env.tenants && row.domain in env.domains
    && forall r :: r in rows && r.created == row.created ==>
         r.id != row.id && (r.tenant, r.domain, r.hash) != (row.tenant, row.domain, row.hash)
  }

  class MetadataStore {
    var rows: seq<Row>

    constructor ()
      ensures rows == []
    {
      rows := [];
    }

    method Exists(tenant: string, domain: string, hash: string) returns (found: bool)
      ensures found <==> Has(rows, tenant, domain, hash)
    {
      var i := 0;
      while i < |rows|
        invariant 0 <= i <= |rows|
        invariant !Has(rows[..i], tenant, domain, hash)
      {
        var r := rows[i];
        if r.tenant == tenant && r.domain == domain && r.hash == hash {
          return true;
        }
        assert rows[..i + 1] == rows[..i] + [r];
        i := i + 1;
      }
      assert rows[..|rows|] == rows;
      found := false;
    }

    method Insert(env: Env, row: Row) returns (ok: bool)
      modifies this
      ensures ok == old(Admits(env, rows, row))
      ensures rows == if ok then old(rows) + [row] else old(rows)
    {
      ok := Admits(env, rows, row);
      if ok {
        rows := rows + [row];
      }
    }
  }

  // ---- one record ------------------------------------------------------------------------------------

  /** One call of the ingestion: the surroundings, whether there is a table, the batch's tenant, the
      day, and the insertion time of the n-th record. */
  datatype Call = Call(env: Env, track: bool, tenant: string, stamp: string, clock: nat -> nat)

  datatype Reply = Replied(outcome: Outcome) | Raised(error: Error)

  function HashOf(env: Env, body: Body): string { env.sha(env.encode(body)) }

  function RowOf(t: Canonical, tenant: string, hash: string, key: string, created: nat): Row {
    Row(t.id, tenant, t.domain, hash, Uri(key), created, t.rest)
  }

  /** Quarantining stores the refusal under its own prefix; no row. */
  function Refuse(c: Call, s: State, body: Body, why: Refusal): (State, Reply) {
    var key := QuarantineKey(c.tenant, DomainOr(body, "unknown"), HashOf(c.env, body), c.stamp);
    var data := c.env.refusalBytes(why, body);
    if !CanPut(s.blobs, key, data) then (s, Raised(WriteOnce(key)))
    else (s.(blobs := Stored(s.blobs, key, data)), Replied(Quarantined(HashOf(c.env, body), why)))
  }

  /** Accepting stores the body and, when there is a table, inserts a row under the batch's tenant. */
  function Accept(c: Call, s: State, n: nat, body: Body, t: Canonical): (State, Reply) {
    var raw, hash := c.env.encode(body), HashOf(c.env, body);
    var key := BodyKey(c.tenant, t.domain, hash, c.stamp);
    var row := RowOf(t, c.tenant, hash, key, c.clock(n));
    if !CanPut(s.blobs, key, raw) then (s, Raised(WriteOnce(key)))
    else
      var blobs := Stored(s.blobs, key, raw);
      if c.track && !Admits(c.env, s.rows, row) then (s.(blobs := blobs), Raised(InsertFailed(row)))
      else (State(blobs, if c.track then s.rows + [row] else s.rows), Replied(Accepted(hash, t.id, Uri(key))))
  }

  /** What the n-th record of a batch does. */
  function Step(c: Call, s: State, n: nat, record: Record): (State, Reply) {
    if c.track && Has(s.rows, c.tenant, DomainOr(record.body, ""), HashOf(c.env, record.body))
    then (s, Replied(Duplicate(HashOf(c.env, record.body))))
    else
      match c.env.normalize(record.body, record.sourceFormat)
      case Refused(why) => Refuse(c, s, record.body, why)
      case Normal(t) => Accept(c, s, n, record.body, t)
  }

  // ---- a batch -----------------------------------------------------------------------------------------

  /** How far a batch got: the state, the outcomes so far, and what stopped it. */
  datatype Progress = Progress(state: State, results: seq<Outcome>, error: Option<Error>)

  type Stepper = (State, nat, Record) -> (State, Reply)

  function Stepping(c: Call): Stepper {
    (s: State, n: nat, record: Record) => Step(c, s, n, record)
  }

  function Advance(p: Progress, next: (State, Reply)): Progress {
    match next.1
    case Replied(outcome) => Progress(next.0, p.results + [outcome], None)
    case Raised(error) => Progress(next.0, p.results, Some(error))
  }

  /** The records in order; the first exception ends the batch. */
  function RunWith(step: Stepper, s: State, records: seq<Record>): Progress {
    if records == [] then Progress(s, [], None)
    else
      var n := |records| - 1;
      var p := RunWith(step, s, records[..n]);
      if p.error.Some? then p else Advance(p, step(p.state, n, records[n]))
  }

  function Run(c: Call, s: State, records: seq<Record>): Progress {
    RunWith(Stepping(c), s, records)
  }

  lemma RunOneMore(step: Stepper, s: State, records: seq<Record>, i: nat)
    requires i < |records|
    ensures var p := RunWith(step, s, records[..i]);
      RunWith(step, s, records[..i + 1]) == if p.error.Some? then p else Advance(p, step(p.state, i, records[i]))
  {
    assert records[..i + 1][..i] == records[..i];
  }

  /** After an exception nothing more happens. */
  lemma {:induction false} RunStops(step: Stepper, s: State, records: seq<Record>, i: nat)
    requires i <= |records| && RunWith(step, s, records[..i]).error.Some?
    ensures RunWith(step, s, records) == RunWith(step, s, records[..i])
    decreases |records| - i
  {
    if i == |records| {
      assert records[..i] == records;
    } else {
      RunOneMore(step, s, records, i);
      RunStops(step, s, records, i + 1);
    }
  }

  /** One more record, whose step led to `next` with the reply. */
  lemma RunAdvances(c: Call, s: State, records: seq<Record>, i: nat, p: Progress, next: State, reply: Reply)
    requires i < |records| && p == Run(c, s, records[..i]) && p.error.None?
    requires (next, reply) == Step(c, p.state, i, records[i])
    ensures Run(c, s, records[..i + 1]) == Advance(p, (next, reply))
    ensures reply.Raised? ==> Run(c, s, records) == Progress(next, p.results, Some(reply.error))
  {
    RunOneMore(Stepping(c), s, records, i);
    if reply.Raised? {
      RunStops(Stepping(c), s, records, i + 1);
    }
  }

  datatype Status = IsAccepted | IsDuplicate | IsQuarantined

  function StatusOf(o: Outcome): Status {
    match o
    case Accepted(_, _, _) => IsAccepted
    case Duplicate(_) => IsDuplicate
    case Quarantined(_, _) => IsQuarantined
  }

  function Count(results: seq<Outcome>, status: Status): nat {
    if results == [] then 0
    else Count(results[..|results| - 1], status) + if StatusOf(results[|results| - 1]) == status then 1 else 0
  }

  datatype Response =
    | Response(accepted: nat, duplicates: nat, quarantined: nat, results: seq<Outcome>)
    | Failed(error: Error)

  function ResponseOf(p: Progress): Response {
    if p.error.Some? then Failed(p.error.value)
    else Response(Count(p.results, IsAccepted), Count(p.results, IsDuplicate), Count(p.results, IsQuarantined), p.results)
  }

  method CountStatus(results: seq<Outcome>, status: Status) returns (n: nat)
    ensures n == Count(results, status)
  {
    n := 0;
    var i := 0;
    while i < |results|
      invariant 0 <= i <= |results|
      invariant n == Count(results[..i], status)
    {
      assert results[..i + 1][..i] == results[..i];
      if StatusOf(results[i]) == status {
        n := n + 1;
      }
      i := i + 1;
    }
    assert results[..|results|] == results;
  }

  function Footprint(store: FilesystemObjectStore, metadata: MetadataStore?): set<object> {
    {store} + if metadata == null then {} else {metadata}
  }

  /** The stores as a state; without a table there are no rows. */
  function Now(store: FilesystemObjectStore, metadata: MetadataStore?): State
    reads Footprint(store, metadata)
  {
    State(store.blobs, if metadata == null then [] else metadata.rows)
  }

  method IngestOne(c: Call, store: FilesystemObjectStore, metadata: MetadataStore?, n: nat,
                   record: Record) returns (reply: Reply)
    requires c.track == (metadata != null)
    modifies Footprint(store, metadata)
    ensures (Now(store, metadata), reply) == Step(c, old(Now(store, metadata)), n, record)
  {
    if metadata != null {
      var found := metadata.Exists(c.tenant, DomainOr(record.body, ""), HashOf(c.env, record.body));
      if found {
        return Replied(Duplicate(HashOf(c.env, record.body)));
      }
    }
    match c.env.normalize(record.body, record.sourceFormat)
    case Refused(why) =>
      reply := QuarantineRecord(c, store, metadata, record.body, why);
    case Normal(t) =>
      reply := AcceptRecord(c, store, metadata, n, record.body, t);
  }

  method QuarantineRecord(c: Call, store: FilesystemObjectStore, metadata: MetadataStore?, body: Body, why: Refusal)
      returns (reply: Reply)
    modifies Footprint(store, metadata)
    ensures (Now(store, metadata), reply) == Refuse(c, old(Now(store, metadata)), body, why)
  {
    var key := QuarantineKey(c.tenant, DomainOr(body, "unknown"), HashOf(c.env, body), c.stamp);
    var uri := store.Put(key, c.env.refusalBytes(why, body));
    reply := if uri.None? then Raised(WriteOnce(key)) else Replied(Quarantined(HashOf(c.env, body), why));
  }

  method AcceptRecord(c: Call, store: FilesystemObjectStore, metadata: MetadataStore?, n: nat, body: Body, t: Canonical)
      returns (reply: Reply)
    requires c.track == (metadata != null)
    modifies Footprint(store, metadata)
    ensures (Now(store, metadata), reply) == Accept(c, old(Now(store, metadata)), n, body, t)
  {
    var trajectory := if t.tenant != c.tenant then t.(tenant := c.tenant) else t;
    var hash := HashOf(c.env, body);
    var key := BodyKey(c.tenant, trajectory.domain, hash, c.stamp);
    var uri := store.Put(key, c.env.encode(body));
    if uri.None? {
      return Raised(WriteOnce(key));
    }
    if metadata != null {
      var row := Row(trajectory.id, trajectory.tenant, trajectory.domain, hash, uri.value, c.clock(n), trajectory.rest);
      var ok := metadata.Insert(c.env, row);
      if !ok {
        return Raised(InsertFailed(row));
      }
    }
    reply := Replied(Accepted(hash, trajectory.id, uri.value));
  }

  /** The batch loop; an exception leaves the state it was raised in. */
  method IngestBatch(c: Call, store: FilesystemObjectStore, metadata: MetadataStore?,
                     records: seq<Record>) returns (response: Response)
    requires c.track == (metadata != null)
    modifies Footprint(store, metadata)
    ensures var p := Run(c, old(Now(store, metadata)), records);
      response == ResponseOf(p) && Now(store, metadata) == p.state
  {
    var results: seq<Outcome> := [];
    var i := 0;
    ghost var start := Now(store, metadata);
    while i < |records|
      invariant 0 <= i <= |records|
      invariant Run(c, start, records[..i]) == Progress(Now(store, metadata), results, None)
    {
      ghost var before := Now(store, metadata);
      var reply := IngestOne(c, store, metadata, i, records[i]);
      RunAdvances(c, start, records, i, Progress(before, results, None), Now(store, metadata), reply);
      if reply.Raised? {
        return Failed(reply.error);
      }
      results := results + [reply.outcome];
      i := i + 1;
    }
    assert records[..|records|] == records;
    var accepted := CountStatus(results, IsAccepted);
    var duplicates := CountStatus(results, IsDuplicate);
    var quarantined := CountStatus(results, IsQuarantined);
    response := Response(accepted, duplicates, quarantined, results);
  }
}
