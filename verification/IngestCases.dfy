/** What a batch answers and stores, record by record, with the keys and the bytes written out. */
module IngestCases {
  import opened Ingest

  /** There is a row for these bytes under this tenant and domain. */
  ghost predicate IsKnown(c: Call, s: State, body: Body, hash: string) {
    c.track && exists r :: r in s.rows && r.tenant == c.tenant && r.hash == hash
                           && r.domain == (if body.domain.None? then "" else body.domain.value)
  }

  /** The bytes can go under the key: nothing is there, or they are. */
  predicate IsFree(blobs: map<string, string>, key: string, data: string) {
    key !in blobs || blobs[key] == data
  }

  /** What the table refuses: an unknown tenant or domain, and another row of the same insertion time with
      the same id or the same content. */
  ghost predicate Clashes(env: Env, rows: seq<Row>, row: Row) {
    || row.tenant !in env.tenants || row.domain !in env.domains
    || exists r :: r in rows && r.created == row.created
         && (r.id == row.id || (r.tenant == row.tenant && r.domain == row.domain && r.hash == row.hash))
  }

  /** A record the normaliser refuses: its refusal goes under the quarantine prefix, and to no row. */
  ghost predicate AnswersRefusal(c: Call, s: State, body: Body, hash: string, why: Refusal, next: State, reply: Reply) {
    var domain := if body.domain.None? then "unknown" else body.domain.value;
    var key, data := "_quarantine/" + c.tenant + "/" + domain + "/" + c.stamp + "/" + hash + ".json", c.env.refusalBytes(why, body);
    if IsFree(s.blobs, key, data) then next == State(s.blobs[key := data], s.rows) && reply == Replied(Quarantined(hash, why))
    else next == s && reply == Raised(WriteOnce(key))
  }

  /** A record it takes: the bytes go under the tenant of the batch, whatever the body says, and one row
      for them to the table; where the row is refused the bytes stay. */
  ghost predicate AnswersRecord(c: Call, s: State, n: nat, body: Body, hash: string, t: Canonical, next: State, reply: Reply) {
    var key, data := c.tenant + "/" + t.domain + "/" + c.stamp + "/" + hash + ".json", c.env.encode(body);
    var row := Row(t.id, c.tenant, t.domain, hash, "file://" + key, c.clock(n), t.rest);
    if !IsFree(s.blobs, key, data) then next == s && reply == Raised(WriteOnce(key))
    else
      && next.blobs == s.blobs[key := data]
      && if c.track && Clashes(c.env, s.rows, row) then next.rows == s.rows && reply == Raised(InsertFailed(row))
         else reply == Replied(Accepted(hash, t.id, "file://" + key)) && next.rows == if c.track then s.rows + [row] else s.rows
  }

  /** One record: known already, refused, or taken. */
  lemma StepAnswers(c: Call, s: State, n: nat, record: Record, hash: string)
    requires hash == c.env.sha(c.env.encode(record.body))
    ensures var (next, reply) := Step(c, s, n, record);
      if IsKnown(c, s, record.body, hash) then next == s && reply == Replied(Duplicate(hash))
      else match c.env.normalize(record.body, record.sourceFormat)
           case Refused(why) => AnswersRefusal(c, s, record.body, hash, why, next, reply)
           case Normal(t) => AnswersRecord(c, s, n, record.body, hash, t, next, reply)
  {
    match c.env.normalize(record.body, record.sourceFormat)
    case Refused(why) => RefuseAnswers(c, s, record.body, hash, why);
    case Normal(t) => AcceptAnswers(c, s, n, record.body, hash, t);
  }

  lemma RefuseAnswers(c: Call, s: State, body: Body, hash: string, why: Refusal)
    requires hash == c.env.sha(c.env.encode(body))
    ensures var (next, reply) := Refuse(c, s, body, why); AnswersRefusal(c, s, body, hash, why, next, reply)
  {
    var domain := if body.domain.None? then "unknown" else body.domain.value;
    QuarantineKeySpelled(c.tenant, domain, hash, c.stamp);
  }

  lemma QuarantineKeySpelled(tenant: string, domain: string, hash: string, stamp: string)
    ensures QuarantineKey(tenant, domain, hash, stamp) == "_quarantine/" + tenant + "/" + domain + "/" + stamp + "/" + hash + ".json"
  {
  }

  lemma AcceptAnswers(c: Call, s: State, n: nat, body: Body, hash: string, t: Canonical)
    requires hash == c.env.sha(c.env.encode(body))
    ensures var (next, reply) := Accept(c, s, n, body, t); AnswersRecord(c, s, n, body, hash, t, next, reply)
  {
    var key := BodyKey(c.tenant, t.domain, hash, c.stamp);
    AdmitsUnlessItClashes(c.env, s.rows, Row(t.id, c.tenant, t.domain, hash, "file://" + key, c.clock(n), t.rest));
  }

  lemma AdmitsUnlessItClashes(env: Env, rows: seq<Row>, row: Row)
    ensures Admits(env, rows, row) <==> !Clashes(env, rows, row)
  {
  }

  /** A batch: one answer for each record in order, each from the state the last one left, up to the first
      exception. */
  lemma {:induction false} BatchAnswers(c: Call, s: State, records: seq<Record>) returns (states: seq<State>)
    ensures var p := Run(c, s, records);
      && |states| == |p.results| + 1 && states[0] == s && |p.results| <= |records|
      && (forall i :: 0 <= i < |p.results| ==> Step(c, states[i], i, records[i]) == (states[i + 1], Replied(p.results[i])))
      && (p.error.None? ==> |p.results| == |records| && p.state == states[|records|])
      && var n := |p.results|;
         (p.error.Some? ==> n < |records| && Step(c, states[n], n, records[n]) == (p.state, Raised(p.error.value)))
  {
    if records == [] {
      states := [s];
    } else {
      var n := |records| - 1;
      states := BatchAnswers(c, s, records[..n]);
      var p := Run(c, s, records[..n]);
      assert Stepping(c)(p.state, n, records[n]) == Step(c, p.state, n, records[n]);
      if p.error.None? && Step(c, p.state, n, records[n]).1.Replied? {
        states := states + [Step(c, p.state, n, records[n]).0];
      }
    }
  }

  lemma {:induction false} CountIs(results: seq<Outcome>, status: Status, at: set<nat>)
    requires forall i: nat :: i in at <==> i < |results| && StatusOf(results[i]) == status
    ensures Count(results, status) == |at|
  {
    if results == [] {
      assert at == {};
    } else {
      var n := |results| - 1;
      CountIs(results[..n], status, at - {n});
      if StatusOf(results[n]) == status { assert at == (at - {n}) + {n}; } else { assert at == at - {n}; }
    }
  }

  /** The three counts of the response: how many of its results are accepted, duplicate, quarantined. */
  lemma ResponseCounts(c: Call, s: State, records: seq<Record>, accepted: set<nat>, duplicates: set<nat>, quarantined: set<nat>)
    requires Run(c, s, records).error.None?
    requires forall i: nat :: i in accepted <==> i < |Run(c, s, records).results| && Run(c, s, records).results[i].Accepted?
    requires forall i: nat :: i in duplicates <==> i < |Run(c, s, records).results| && Run(c, s, records).results[i].Duplicate?
    requires forall i: nat :: i in quarantined <==> i < |Run(c, s, records).results| && Run(c, s, records).results[i].Quarantined?
    ensures ResponseOf(Run(c, s, records)) == Response(|accepted|, |duplicates|, |quarantined|, Run(c, s, records).results)
  {
    var results := Run(c, s, records).results;
    CountIs(results, IsAccepted, accepted);
    CountIs(results, IsDuplicate, duplicates);
    CountIs(results, IsQuarantined, quarantined);
  }
}
