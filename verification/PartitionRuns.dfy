/**
 Runs of a partitioned store: the operations of `StoreRuns` with ingest through the router and
 `forget_before`.  Timestamps stay in their partitions' periods, so no forget of any run ever touches
 a record at or after its cutoff.
 */
module PartitionRuns {
  import opened Basics
  import opened Keys
  import opened Engine
  import opened Identity
  import opened SchemaDoc
  import opened Schema
  import opened Store
  import opened StoreProofs
  import opened StoreView
  import opened Declare
  import opened Compact
  import opened StoreRuns
  import opened Civil
  import opened Partition
  import opened Forget

  datatype Action =
    | Plain(op: Op)
    | Ingest(key: Key, rec: Record, routed: int, stored: int)
    | ForgetAt(cutoff: int)

  /** A put that names a partition itself keeps to its period. */
  predicate KeepsToPeriod(unit: By, base: string, op: Op)
  {
    op.Put? && PeriodOf(unit, base, op.coll).Some? ==>
      PeriodOf(unit, base, op.coll).value.0 <= StoredTime(op.rec, op.now) < PeriodOf(unit, base, op.coll).value.1
  }

  /**
   What the callers owe: real keys and handles, partitions fed through the router with both clock
   readings in one period, and a forget with a fresh writer and nothing expired still pending.
   */
  ghost predicate Allowed(env: Env, unit: By, base: string, s: StoreState, act: Action)
    requires !unit.Custom?
  {
    && KeepsLength(env.decode)
    && match act
       case Plain(op) => Legal(env, s, op) && KeepsToPeriod(unit, base, op)
       case Ingest(key, rec, routed, stored) =>
         && WellFormed(key) && RoutingTime(rec, routed) <= I64_MAX
         && (rec.createdAt.None? ==> PeriodAt(unit, routed).0 <= stored < PeriodAt(unit, routed).1)
       case ForgetAt(cutoff) => s.staged == [] && NothingPendingIn(s, ExpiredIds(s.reg, unit, base, cutoff))
  }

  ghost function Act(env: Env, unit: By, base: string, s: StoreState, act: Action): Result<StoreState>
    requires Coherent(s) && !unit.Custom?
  {
    match act
    case Plain(op) => Step(env, s, op)
    case Ingest(key, rec, routed, stored) => PutTo(s, Route(unit, base, rec, routed), key, rec, stored)
    case ForgetAt(cutoff) =>
      (match ForgetTo(s, unit, base, cutoff, true)
       case Ok(r) => Ok(r.0)
       case Err(e) => Err(e))
  }

  lemma ActCoherent(env: Env, unit: By, base: string, s: StoreState, act: Action)
    requires Coherent(s) && !unit.Custom? && Allowed(env, unit, base, s, act) && Act(env, unit, base, s, act).Ok?
    ensures Coherent(Act(env, unit, base, s, act).value)
  {
    hide Coherent, Step, PutTo, ForgetTo, Route, Legal, PeriodAt, NothingPendingIn, ExpiredIds;
    match act
    case Plain(op) => StepCoherent(env, s, op);
    case Ingest(key, rec, routed, stored) => PutCoherent(s, Route(unit, base, rec, routed), key, rec, stored);
    case ForgetAt(cutoff) => ForgetCoherentIff(s, unit, base, cutoff);
  }

  // ------------------------------------------------------------------ timestamps stay in their periods

  /** Frame `i` of `t` is active and was, in its collection and with its time, active in `s`. */
  predicate CarriedOver(s: StoreState, f: Frame, j: FrameId)
  {
    j < |s.file.frames| && s.file.frames[j].active && s.file.frames[j].coll == f.coll
        && s.file.frames[j].createdAt == f.createdAt
  }

  ghost predicate NothingNew(s: StoreState, frames: seq<Frame>)
  {
    forall i :: 0 <= i < |frames| && frames[i].active ==> exists j :: CarriedOver(s, frames[i], j)
  }

  lemma CarriedFits(s: StoreState, t: StoreState, unit: By, base: string)
    requires TimestampsFit(s, unit, base) && t.reg.collections == s.reg.collections && NothingNew(s, t.file.frames)
    ensures TimestampsFit(t, unit, base)
  {
    hide PeriodOf;
    forall i, n | 0 <= i < |t.file.frames| && t.file.frames[i].active && n in t.reg.collections
                  && t.reg.collections[n].id == t.file.frames[i].coll && PeriodOf(unit, base, n).Some?
      ensures PeriodOf(unit, base, n).value.0 <= t.file.frames[i].createdAt < PeriodOf(unit, base, n).value.1
    {
      var j :| CarriedOver(s, t.file.frames[i], j);
    }
  }

  lemma SameOrKilled(s: StoreState, frames: seq<Frame>)
    requires |frames| == |s.file.frames|
    requires forall i :: 0 <= i < |frames| ==> frames[i] == s.file.frames[i] || !frames[i].active
    ensures NothingNew(s, frames)
  {
    forall i | 0 <= i < |frames| && frames[i].active ensures exists j :: CarriedOver(s, frames[i], j) {
      assert CarriedOver(s, frames[i], i);
    }
  }

  lemma StreamedIsOld(s: StoreState)
    ensures NothingNew(s, NewFrames(s.file, |s.file.frames|))
  {
    var frames := NewFrames(s.file, |s.file.frames|);
    forall r | 0 <= r < |frames| && frames[r].active ensures exists j :: CarriedOver(s, frames[r], j) {
      var i := NewFramesFrom(s.file, |s.file.frames|, r);
      NewFramesAt(s.file, |s.file.frames|, i);
      assert CarriedOver(s, frames[r], i);
    }
  }

  /** A document's collection is none that has a period: partition names hold a colon. */
  lemma NoPeriod(unit: By, base: string)
    ensures PeriodOf(unit, base, SCHEMA_COLLECTION) == None
  {
    assert forall i :: 0 <= i < |SCHEMA_COLLECTION| ==> SCHEMA_COLLECTION[i] != ':';
    if InBase(base, SCHEMA_COLLECTION) { HasColon(base, SCHEMA_COLLECTION); }
  }

  lemma HasColon(base: string, name: string)
    requires InBase(base, name)
    ensures exists i :: 0 <= i < |name| && name[i] == ':'
  {
    assert name[|base|] == (base + ":")[|base|];
  }

  lemma DeclareFits(s: StoreState, read: DocReader, parse: SpecParser, coll: string, name: Bytes, shape: Shape,
      doc: Doc,
                    payload: Bytes, now: int, unit: By, base: string)
    requires Coherent(s) && TimestampsFit(s, unit, base) && ShapeBound(s.reg, shape)
    requires DeclareTo(s, read, parse, coll, DocUri(name), shape, doc, payload, now).Ok?
    ensures TimestampsFit(DeclareTo(s, read, parse, coll, DocUri(name), shape, doc, payload, now).value, unit, base)
  {
    var t := DeclareTo(s, read, parse, coll, DocUri(name), shape, doc, payload, now).value;
    DeclareCoherent(s, read, parse, coll, name, shape, doc, payload, now);
    CollectionFacts(s);
    CollectionFacts(t);
    DeclareFrames(s, read, parse, coll, name, shape, doc, payload, now);
    DeclareShape(s, read, parse, coll, name, shape, doc, payload, now);
    BoundTo(s, coll, shape, doc);
    NoPeriod(unit, base);
    hide *;
    FitsAfterDeclare(s, t, unit, base, coll);
  }

  lemma CollectionFacts(s: StoreState)
    requires Coherent(s)
    ensures CollectionsFit(s.reg, s.file) && forall i :: 0 <= i < |s.file.frames| ==>
            s.file.frames[i].coll < |s.file.collections|
  {
    hide IsKey, IndexMatchesFrames, EntriesListVectors, OwnersLive, SchemaFits, CommitStatus, StagedFits,
         CollectionsFit;
  }

  lemma FitsAfterDeclare(s: StoreState, t: StoreState, unit: By, base: string, coll: string)
    requires TimestampsFit(s, unit, base) && CollectionsFit(t.reg, t.file)
             && PeriodOf(unit, base, SCHEMA_COLLECTION) == None
    requires forall i :: 0 <= i < |s.file.frames| ==> s.file.frames[i].coll < |s.file.collections|
    requires coll in t.reg.collections && t.reg.collections == s.reg.collections[coll := t.reg.collections[coll]]
    requires t.reg.collections[coll].id == if coll in s.reg.collections then s.reg.collections[coll].id
             else |s.file.collections|
    requires |s.file.frames| <= |t.file.frames| <= |s.file.frames| + 1
    requires forall i :: 0 <= i < |s.file.frames| ==> t.file.frames[i] == s.file.frames[i] || !t.file.frames[i].active
    requires |t.file.frames| > |s.file.frames| ==>
               var c := t.file.frames[|s.file.frames|].coll;
               c < |t.file.collections| && t.file.collections[c].name == SCHEMA_COLLECTION
    ensures TimestampsFit(t, unit, base)
  {
    hide PeriodOf;
    forall i, n | 0 <= i < |t.file.frames| && t.file.frames[i].active && n in t.reg.collections
                  && t.reg.collections[n].id == t.file.frames[i].coll && PeriodOf(unit, base, n).Some?
      ensures PeriodOf(unit, base, n).value.0 <= t.file.frames[i].createdAt < PeriodOf(unit, base, n).value.1
    {
      if i < |s.file.frames| { assert t.file.frames[i] == s.file.frames[i]; }
    }
  }

  /** A declaration leaves each old frame as it was or tombstoned, and appends at most one document. */
  lemma DeclareFrames(s: StoreState, read: DocReader, parse: SpecParser, coll: string, name: Bytes, shape: Shape,
      doc: Doc,
                      payload: Bytes, now: int)
    requires DeclareTo(s, read, parse, coll, DocUri(name), shape, doc, payload, now).Ok?
    ensures var t := DeclareTo(s, read, parse, coll, DocUri(name), shape, doc, payload, now).value.file;
            && |s.file.frames| <= |t.frames| <= |s.file.frames| + 1 && |s.file.collections| <= |t.collections|
            && (forall i :: 0 <= i < |s.file.frames| ==> t.frames[i] == s.file.frames[i] || !t.frames[i].active)
            && (|t.frames| > |s.file.frames| ==>
                  var c := t.frames[|s.file.frames|].coll;
                  c < |t.collections| && t.collections[c].name == SCHEMA_COLLECTION)
  {
    PlannedIsDoc(s.file, read, parse, DocUri(name), doc);
    var withColl := WithCollection(s, coll, now);
    var plan := PlanSync(s.file, read, parse, DocUri(name), doc).value;
    hide PlanSync, Watermark, InProcess;
    if plan.Write? { SyncedFramesOf(withColl, DocUri(name), payload, plan.replace, now); }
    hide Synced;
  }

  lemma SyncedFramesOf(fs: FileState, uri: Bytes, payload: Bytes, replace: Option<FrameId>, now: int)
    requires replace.Some? ==> replace.value < |fs.frames|
    ensures var t := Synced(fs, uri, payload, replace, now);
            && |t.frames| == |fs.frames| + 1 && |fs.collections| <= |t.collections|
            && (forall i :: 0 <= i < |fs.frames| ==> t.frames[i] == fs.frames[i] || !t.frames[i].active)
            && var c := t.frames[|fs.frames|].coll; c < |t.collections| && t.collections[c].name == SCHEMA_COLLECTION
  {
    hide Watermark;
  }

  lemma PutFits(s: StoreState, coll: string, key: Key, rec: Record, now: int, unit: By, base: string)
    requires Coherent(s) && TimestampsFit(s, unit, base) && KeepsToPeriod(unit, base, Put(coll, key, rec, now))
    requires PutTo(s, coll, key, rec, now).Ok?
    ensures TimestampsFit(PutTo(s, coll, key, rec, now).value, unit, base)
  {
    PutKeepsCollections(s, coll, key, rec, now);
    DistinctIds(s, coll);
    var left, f := PutFrames(s, coll, key, rec, now);
    PutColl(s, coll, key, rec, now);
    hide Coherent, PutTo, PeriodOf;
    FitsAfterAppend(s, PutTo(s, coll, key, rec, now).value, unit, base, coll, left, f);
  }

  lemma StepFits(env: Env, unit: By, base: string, s: StoreState, op: Op)
    requires Coherent(s) && TimestampsFit(s, unit, base) && Legal(env, s, op) && KeepsToPeriod(unit, base, op)
             && Step(env, s, op).Ok?
    ensures TimestampsFit(Step(env, s, op).value, unit, base)
  {
    hide *;
    match op
    case Declare(coll, name, shape, doc, payload, now) =>
      StepIs(env, s, op);
      DeclareFits(s, env.read, env.parse, coll, name, shape, doc, payload, now, unit, base);
    case Put(coll, key, rec, now) =>
      StepIs(env, s, op);
      PutFits(s, coll, key, rec, now, unit, base);
    case _ =>
      NothingNewAfter(env, s, op);
      CarriedFits(s, Step(env, s, op).value, unit, base);
  }

  lemma StepIs(env: Env, s: StoreState, op: Op)
    requires Coherent(s) && Legal(env, s, op)
    ensures op.Declare? ==>
              && ShapeBound(s.reg, op.shape)
              && Step(env, s, op) ==
                 DeclareTo(s, env.read, env.parse, op.coll, DocUri(op.name), op.shape, op.doc, op.payload, op.now)
    ensures op.Put? ==> Step(env, s, op) == PutTo(s, op.coll, op.key, op.rec, op.now)
  {
    hide Coherent, DeclareTo, PutTo, DefineSpace, DeleteFrom, CommitOf, CompactOf;
  }

  /** Definitions, deletes, commits and compactions bring no new frame. */
  lemma NothingNewAfter(env: Env, s: StoreState, op: Op)
    requires Coherent(s) && Legal(env, s, op) && Step(env, s, op).Ok? && !op.Declare? && !op.Put?
    ensures var t := Step(env, s, op).value; t.reg.collections == s.reg.collections && NothingNew(s, t.file.frames)
  {
    hide Coherent, NothingNew, CommitOf, DeleteFrom, NewFrames, NewVectors, TimeOrdered;
    match op
    case Define(space, dim, spec) => SameOrKilled(s, Step(env, s, op).value.file.frames);
    case Delete(coll, key) => DeleteBringsNone(s, coll, key);
    case Commit => CommitBringsNone(s);
    case Compact(recalibrate) =>
      SameOrKilled(s, s.file.frames);
      StreamedIsOld(s);
    case _ =>
  }

  lemma DeleteBringsNone(s: StoreState, coll: string, key: Key)
    requires Coherent(s) && DeleteFrom(s, coll, key).Ok?
    ensures var t := DeleteFrom(s, coll, key).value.0;
            t.reg.collections == s.reg.collections && NothingNew(s, t.file.frames)
  {
    DeletedReg(s, coll, key);
    var t, k := DeleteFrom(s, coll, key).value.0, (s.reg.collections[coll].id, Encode(key));
    if k in s.index { DeleteShape(s, k); }
    hide Coherent, DeleteFrom, DeleteApplied, NothingNew;
    SameOrKilled(s, t.file.frames);
  }

  lemma CommitBringsNone(s: StoreState)
    requires Coherent(s) && CommitOf(s, true).Ok?
    ensures var t := CommitOf(s, true).value; t.reg.collections == s.reg.collections && NothingNew(s, t.file.frames)
  {
    FlushCoherent(s);
    FlushedCollections(s);
    hide Coherent, Flushed, TimeOrdered, NothingNew;
    SameOrKilled(s, CommitOf(s, true).value.file.frames);
  }

  lemma FlushedCollections(s: StoreState)
    requires Coherent(s)
    ensures Flushed(s).reg.collections == s.reg.collections
  {
    FlushShape(s);
    hide Coherent, Flushed;
  }

  lemma ForgetFits(s: StoreState, unit: By, base: string, cutoff: int)
    requires Coherent(s) && TimestampsFit(s, unit, base) && ForgetTo(s, unit, base, cutoff, true).Ok?
    ensures TimestampsFit(ForgetTo(s, unit, base, cutoff, true).value.0, unit, base)
  {
    hide *;
    ForgetKills(s, unit, base, cutoff);
    var t := ForgetTo(s, unit, base, cutoff, true).value.0;
    SameOrKilled(s, t.file.frames);
    CarriedFits(s, t, unit, base);
  }

  lemma ForgetKills(s: StoreState, unit: By, base: string, cutoff: int)
    requires Coherent(s) && ForgetTo(s, unit, base, cutoff, true).Ok?
    ensures var t := ForgetTo(s, unit, base, cutoff, true).value.0;
            && t.reg == s.reg && |t.file.frames| == |s.file.frames|
            && forall i :: 0 <= i < |s.file.frames| ==> t.file.frames[i] == s.file.frames[i] || !t.file.frames[i].active
  {
    assert WellFormedFile(s.file);
    hide Coherent;
    KilledFacts(s.file, ExpiredIds(s.reg, unit, base, cutoff));
    hide KilledIn, ExpiredIds, TimeOrdered, WellFormedFile, MemberFrames, MemberVectors, Marked, WithoutCollections;
  }

  lemma ActFits(env: Env, unit: By, base: string, s: StoreState, act: Action)
    requires Coherent(s) && !unit.Custom? && TimestampsFit(s, unit, base)
    requires Allowed(env, unit, base, s, act) && Act(env, unit, base, s, act).Ok?
    ensures TimestampsFit(Act(env, unit, base, s, act).value, unit, base)
  {
    hide Coherent, TimestampsFit, Step, PutTo, ForgetTo, Route, Legal, PeriodAt, NothingPendingIn, ExpiredIds;
    match act
    case Plain(op) => StepFits(env, unit, base, s, op);
    case Ingest(key, rec, routed, stored) => RoutedPutFits(s, unit, base, key, rec, routed, stored);
    case ForgetAt(cutoff) => ForgetFits(s, unit, base, cutoff);
  }

  // ------------------------------------------------------------------ over runs

  ghost predicate Runs(env: Env, unit: By, base: string, s: StoreState, acts: seq<Action>, t: StoreState)
    requires Coherent(s) && !unit.Custom?
    decreases |acts|
  {
    if acts == [] then s == t
    else
      && Allowed(env, unit, base, s, acts[0]) && Act(env, unit, base, s, acts[0]).Ok?
      && (ActCoherent(env, unit, base, s, acts[0]); Runs(env, unit, base, Act(env, unit, base, s, acts[0]).value,
         acts[1..], t))
  }

  lemma {:induction false} RunFits(env: Env, unit: By, base: string, s: StoreState, acts: seq<Action>, t: StoreState)
    requires Coherent(s) && !unit.Custom? && TimestampsFit(s, unit, base) && Runs(env, unit, base, s, acts, t)
    ensures Coherent(t) && TimestampsFit(t, unit, base)
    decreases |acts|
  {
    hide Coherent, TimestampsFit, Allowed, Act;
    if acts != [] {
      ActCoherent(env, unit, base, s, acts[0]);
      ActFits(env, unit, base, s, acts[0]);
      RunFits(env, unit, base, Act(env, unit, base, s, acts[0]).value, acts[1..], t);
    }
  }

  /** After any run from an empty store, a forget tombstones only frames older than its cutoff. */
  lemma RunForgetsOnlyOld(env: Env, unit: By, base: string, acts: seq<Action>, t: StoreState, cutoff: int, i: FrameId)
    requires !unit.Custom? && Coherent(EMPTY_STORE) && Runs(env, unit, base, EMPTY_STORE, acts, t)
    requires Coherent(t) && ForgetTo(t, unit, base, cutoff, true).Ok?
    requires i < |t.file.frames| && t.file.frames[i].active
             && !ForgetTo(t, unit, base, cutoff, true).value.0.file.frames[i].active
    ensures t.file.frames[i].createdAt < cutoff
  {
    hide Coherent, ForgetTo, Runs;
    assert TimestampsFit(EMPTY_STORE, unit, base);
    hide TimestampsFit;
    RunFits(env, unit, base, EMPTY_STORE, acts, t);
    ForgetsOnlyOld(t, unit, base, cutoff, i);
  }

  const EMPTY_STORE := StoreState(EMPTY_FILE, Registry(map[], {}, map[]), map[], [], [])

  // ------------------------------------------------------------------ what a forget does to the records

  lemma ForgetLookups(s: StoreState, unit: By, base: string, cutoff: int)
    requires Coherent(s) && ForgetTo(s, unit, base, cutoff, true).Ok?
    requires s.staged == [] && NothingPendingIn(s, ExpiredIds(s.reg, unit, base, cutoff))
    ensures var es, t := ExpiredIds(s.reg, unit, base, cutoff), ForgetTo(s, unit, base, cutoff, true).value.0;
            t.reg == s.reg && forall k: KeyRef :: Lookup(t, k) == if k.0 in es then None else Lookup(s, k)
  {
    var es, t := ExpiredIds(s.reg, unit, base, cutoff), ForgetTo(s, unit, base, cutoff, true).value.0;
    assert es != {} ==> t == Forgotten(s, es);
    hide Coherent, KilledIn, NothingPendingIn, ExpiredIds, Lookup, TimeOrdered, Marked, WithoutCollections,
         CommittedFile, Forgotten;
    forall k: KeyRef ensures Lookup(t, k) == if k.0 in es then None else Lookup(s, k) {
      if es != {} { ForgetMeaning(s, es, k); }
    }
  }
}
