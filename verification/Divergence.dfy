/**
 * When a run refuses a record for diverging from what was already asserted. The rule is written for two
 * frames of one run; the code also applies it to the current state a session was seeded with.
 */
module Divergence {
  import opened Wrappers
  import opened Codes
  import opened Manifests
  import opened Protocol
  import opened Utf8
  import opened Session
  import opened SessionRuns
  import opened Replay
  import DA = DeletionAuthority

  predicate Asserts(p: RecordPayload, key: SourceKey) { KeyOf(p) == key }

  /** Some accepted frame of the run already asserted this source key. */
  predicate AssertedInRun(ps: seq<RecordPayload>, key: SourceKey) {
    exists p :: p in ps && Asserts(p, key)
  }

  /** Some accepted frame of the run asserted another state under the same source key. */
  predicate ContradictedInRun(ps: seq<RecordPayload>, payload: RecordPayload) {
    exists p :: p in ps && Asserts(p, KeyOf(payload)) && p != payload
  }

  /** The seed the session started with holds another state under the same source key. */
  predicate DiffersFromSeed(seed: map<SourceKey, Fingerprint>, payload: RecordPayload) {
    KeyOf(payload) in seed && seed[KeyOf(payload)] != payload
  }

  /** Without version ordering, a seeded state is never replaced, and every other seen key was asserted. */
  predicate SeenFrom(seed: map<SourceKey, Fingerprint>, seen: map<SourceKey, Fingerprint>, ps: seq<RecordPayload>) {
    && (forall key :: key in seed ==> key in seen && seen[key] == seed[key])
    && (forall key :: key in seen && key !in seed ==> AssertedInRun(ps, key))
  }

  lemma SeenStep(s: State, op: Op)
    requires !s.manifest.versionOrderingSupported
    ensures var (t, reply) := Step(s, op);
            var e := Entry(op, reply);
            if AcceptedRecordEntry(e) then
              var p := e.op.event.record.payload;
              t.seenKeys == s.seenKeys[KeyOf(p) := p] && (KeyOf(p) in s.seenKeys ==> s.seenKeys[KeyOf(p)] == p)
            else t.seenKeys == s.seenKeys
  {
    hide Accept, Charge, PayloadDefect, CheckpointDefect;
    match op
    case DoAccept(event) => if Accept(s, event).1.Err? { AcceptRefused(s, event); } else { AcceptGranted(s, event); }
    case _ =>
  }

  lemma AssertedSnoc(ps: seq<RecordPayload>, p: RecordPayload, key: SourceKey)
    ensures AssertedInRun(ps + [p], key) <==> AssertedInRun(ps, key) || Asserts(p, key)
  {
    if AssertedInRun(ps, key) {
      var q :| q in ps && Asserts(q, key);
      assert q in ps + [p];
    }
    if Asserts(p, key) { assert p in ps + [p]; }
  }

  lemma {:induction false} SeenIsHistory(s: State, ops: seq<Op>)
    requires Inv(s) && !s.manifest.versionOrderingSupported
    ensures SeenFrom(s.seenKeys, Run(s, ops).seenKeys, AcceptedPayloads(Trace(s, ops)))
    decreases |ops|
  {
    hide Step, AssertedInRun;
    if ops != [] {
      var n := |ops| - 1;
      SeenIsHistory(s, ops[..n]);
      RunOnward(s, ops[..n]);
      var t, h := Run(s, ops[..n]), Trace(s, ops[..n]);
      var e := Entry(ops[n], Step(t, ops[n]).1);
      assert (h + [e])[..|h|] == h;
      SeenStep(t, ops[n]);
      if AcceptedRecordEntry(e) {
        var p := e.op.event.record.payload;
        forall key ensures AssertedInRun(AcceptedPayloads(h) + [p], key)
                           <==> AssertedInRun(AcceptedPayloads(h), key) || Asserts(p, key)
        {
          AssertedSnoc(AcceptedPayloads(h), p, key);
        }
      } else {
        assert AcceptedPayloads(h) + [] == AcceptedPayloads(h);
      }
    }
  }

  /**
   * Exactly what the code refuses, told from the run's history and its seed: a state another frame of
   * the run contradicts, or one that differs from the seed.
   */
  lemma RefusedExactly(s: State, ops: seq<Op>, payload: RecordPayload)
    requires Inv(s) && s.recordCount == 0 && !s.manifest.versionOrderingSupported
    ensures Disposition(Run(s, ops), payload).None?
            <==> ContradictedInRun(AcceptedPayloads(Trace(s, ops)), payload) || DiffersFromSeed(s.seenKeys, payload)
  {
    var ps, key := AcceptedPayloads(Trace(s, ops)), KeyOf(payload);
    var t := Run(s, ops);
    RunOnward(s, ops);
    SeenIsHistory(s, ops);
    AcceptedStaysCurrent(s, ops);
    hide Run, Trace, AcceptedPayloads, Inv, PayloadDefect;
    if key in t.seenKeys && key !in s.seenKeys {
      var p :| p in ps && Asserts(p, key);
      assert Recognised(t.manifest, t.limits, t.properties, t.seenKeys, p);
    }
    if ContradictedInRun(ps, payload) {
      var p :| p in ps && Asserts(p, key) && p != payload;
      assert Recognised(t.manifest, t.limits, t.properties, t.seenKeys, p);
    }
  }

  /**
   * The documented rule, that only two frames of a single run can contradict each other, is what the
   * code does for a record if and only if a seed it differs from was already re-asserted in the run.
   */
  lemma InRunRuleHoldsExactly(s: State, ops: seq<Op>, payload: RecordPayload)
    requires Inv(s) && s.recordCount == 0 && !s.manifest.versionOrderingSupported
    ensures var ps := AcceptedPayloads(Trace(s, ops));
            (Disposition(Run(s, ops), payload).None? <==> ContradictedInRun(ps, payload))
            <==> (DiffersFromSeed(s.seenKeys, payload) ==> AssertedInRun(ps, KeyOf(payload)))
  {
    var ps, key := AcceptedPayloads(Trace(s, ops)), KeyOf(payload);
    var t := Run(s, ops);
    RefusedExactly(s, ops, payload);
    SeenIsHistory(s, ops);
    AcceptedStaysCurrent(s, ops);
    hide Run, Trace, AcceptedPayloads, Inv, PayloadDefect, Disposition;
    if DiffersFromSeed(s.seenKeys, payload) && AssertedInRun(ps, key) {
      var p :| p in ps && Asserts(p, key);
      assert Recognised(t.manifest, t.limits, t.properties, t.seenKeys, p);
      assert ContradictedInRun(ps, payload);
    }
  }

  // ---- A run that one changed object fails ----

  function SamplePayload(body: string): RecordPayload {
    RecordPayload(Upsert, "local-root", "file/1", Some("file"), Some("file"), Some(body), None, None, "")
  }

  lemma SamplePayloadIsSound(limits: Limits, index: Index)
    requires limits.maxBodyBytes >= 1
    ensures PayloadDefect(DA.SampleManifest(), limits, index, SamplePayload("b")).None?
  {
    assert DA.SampleManifest().capabilities[0].objectKind == "file";
    assert ByteLen("b") == 1 by { assert "b"[1..] == []; }
  }

  /** An object collected earlier and changed since: its one record fails the seeded run that reports it. */
  lemma ChangedObjectFailsSeededRun(limits: Limits, registry: Registry)
    requires limits.maxBodyBytes >= 1 && limits.maxRunRecords >= 1
    ensures var old_, new_ := SamplePayload("a"), SamplePayload("b");
            var index := IndexOf(DA.SampleManifest(), registry);
            var s := Initial(DA.SampleRequest(limits), DA.SampleManifest(), index, map[KeyOf(old_) := old_]);
            var (t, r) := Accept(s, RecordFrame(RecordEvent(DA.SAMPLE_RUN, 1, new_)));
            r == Err(RecordDuplicateDivergentInRun) && t.rejected && t.recordCount == 0
  {
    var index := IndexOf(DA.SampleManifest(), registry);
    SamplePayloadIsSound(limits, index);
    hide PayloadDefect;
    var old_, new_ := SamplePayload("a"), SamplePayload("b");
    assert old_.body != new_.body;
    var s := Initial(DA.SampleRequest(limits), DA.SampleManifest(), index, map[KeyOf(old_) := old_]);
    var record := RecordEvent(DA.SAMPLE_RUN, 1, new_);
    assert Accept(s, RecordFrame(record)) == AcceptRecord(s, record);
  }
}
