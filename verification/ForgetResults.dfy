/**
 What `forget_before` removes, said of instants, partitions and records: a partition goes exactly if
 every instant of its period precedes the cutoff (`src/db/partition.rs`).
 */
module ForgetResults {
  import opened Basics
  import opened Keys
  import opened Engine
  import opened Identity
  import opened Schema
  import opened Store
  import opened StoreProofs
  import opened StoreView
  import opened StoreRuns
  import opened Civil
  import opened Partition
  import opened Forget
  import opened PartitionRuns

  predicate Holds(period: (int, int), t: int)
  {
    period.0 <= t < period.1
  }

  /** Every instant of the partition is older than the cutoff. */
  ghost predicate AllBefore(unit: By, base: string, name: string, cutoff: int)
  {
    PeriodOf(unit, base, name).Some?
    && forall t :: Holds(PeriodOf(unit, base, name).value, t) ==> t < cutoff
  }

  /** Nothing live in such a partition is uncommitted. */
  ghost predicate NothingOldPending(s: StoreState, unit: By, base: string, cutoff: int)
  {
    forall n :: n in s.reg.collections && AllBefore(unit, base, n, cutoff) ==>
      NothingPendingIn(s, {s.reg.collections[n].id})
  }

  lemma MonthNotEmpty(y: int, m: nat)
    ensures MonthPeriod(y, m).0 < MonthPeriod(y, m).1
  {
    var n := MonthAfter(y, m);
    DaysClosedForm(y, m, 1);
    DaysClosedForm(n.0, n.1, 1);
    hide DaysFromCivil, YearDays;
    YearsApart(y - 1, y);
  }

  /** A name that parses has a period with an instant in it, even for months and days no calendar has. */
  lemma PeriodNotEmpty(unit: By, base: string, name: string)
    requires PeriodOf(unit, base, name).Some?
    ensures PeriodOf(unit, base, name).value.0 < PeriodOf(unit, base, name).value.1
  {
    var suffix := name[|base| + 1..];
    if unit.ByMonth? { MonthNotEmpty(ParseYm(suffix).value.0, ParseYm(suffix).value.1); }
    hide ParseYmd, ParseYm, DaysFromCivil, MonthAfter;
  }

  lemma ExpiredIffAllBefore(unit: By, base: string, name: string, cutoff: int)
    ensures Expired(unit, base, name, cutoff) <==> AllBefore(unit, base, name, cutoff)
  {
    if PeriodOf(unit, base, name).Some? {
      PeriodNotEmpty(unit, base, name);
      var p := PeriodOf(unit, base, name).value;
      hide PeriodOf;
      if AllBefore(unit, base, name, cutoff) { assert Holds(p, p.1 - 1); }
    }
  }

  lemma ExpiredMembers(s: StoreState, unit: By, base: string, cutoff: int)
    requires Coherent(s)
    ensures forall n :: n in s.reg.collections ==>
              (s.reg.collections[n].id in ExpiredIds(s.reg, unit, base, cutoff) <==> AllBefore(unit, base, n, cutoff))
    ensures NothingOldPending(s, unit, base, cutoff) <==>
              NothingPendingIn(s, ExpiredIds(s.reg, unit, base, cutoff))
  {
    var es := ExpiredIds(s.reg, unit, base, cutoff);
    forall n | n in s.reg.collections ensures s.reg.collections[n].id in es <==> AllBefore(unit, base, n, cutoff) {
      DistinctIds(s, n);
      ExpiredIffAllBefore(unit, base, n, cutoff);
      hide Coherent, Expired, AllBefore;
    }
    forall c | c in es ensures exists n :: n in s.reg.collections && AllBefore(unit, base, n, cutoff)
                                      && s.reg.collections[n].id == c
    {
      var n :| n in s.reg.collections && Expired(unit, base, n, cutoff) && s.reg.collections[n].id == c;
      ExpiredIffAllBefore(unit, base, n, cutoff);
    }
    assert WellFormedFile(s.file);
    hide Coherent, Expired, AllBefore, ExpiredIds, NothingPendingIn;
    PendingOneByOne(s, es);
  }

  ghost predicate MembersFiled(fs: FileState)
  {
    && |fs.memberFrames| <= |fs.frames| && |fs.memberVectors| <= |fs.vectors|
    && (forall i :: 0 <= i < |fs.memberFrames| ==> fs.memberFrames[i].coll == fs.frames[i].coll)
    && (forall v :: 0 <= v < |fs.memberVectors| ==> fs.memberVectors[v].coll == fs.vectors[v].coll)
  }

  /** Nothing is pending in a set of collections exactly if nothing is in each. */
  lemma PendingOneByOne(s: StoreState, es: set<CollectionId>)
    requires MembersFiled(s.file)
    ensures NothingPendingIn(s, es) <==> forall c :: c in es ==> NothingPendingIn(s, {c})
  {
    hide LiveKey;
    forall i, c | i in MemberFrames(s.file, {c}) ensures c == s.file.frames[i].coll { }
    forall v, c | v in MemberVectors(s.file, {c}) ensures c == s.file.vectors[v].coll { }
    if NothingPendingIn(s, es) {
      forall c | c in es ensures NothingPendingIn(s, {c}) {
        forall i | 0 <= i < |s.file.frames| && LiveKey(s.file.frames[i]).Some? && s.file.frames[i].coll == c
          ensures i in MemberFrames(s.file, {c})
        {
          assert i in MemberFrames(s.file, es);
        }
        forall v | 0 <= v < |s.file.vectors| && s.file.vectors[v].active && s.file.vectors[v].coll == c
          ensures v in MemberVectors(s.file, {c})
        {
          assert v in MemberVectors(s.file, es);
        }
      }
    }
    if forall c :: c in es ==> NothingPendingIn(s, {c}) {
      forall i | 0 <= i < |s.file.frames| && LiveKey(s.file.frames[i]).Some? && s.file.frames[i].coll in es
        ensures i in MemberFrames(s.file, es)
      {
        assert i in MemberFrames(s.file, {s.file.frames[i].coll});
      }
      forall v | 0 <= v < |s.file.vectors| && s.file.vectors[v].active && s.file.vectors[v].coll in es
        ensures v in MemberVectors(s.file, es)
      {
        assert v in MemberVectors(s.file, {s.file.vectors[v].coll});
      }
    }
  }

  /**
   After a forget every key of a partition that lies before the cutoff reads as nothing, and every
   key of every other collection reads as before; the count is that of the frames it tombstoned.
   */
  lemma ForgetExact(s: StoreState, unit: By, base: string, cutoff: int, name: string, key: Bytes)
    requires Coherent(s) && s.staged == [] && NothingOldPending(s, unit, base, cutoff)
    requires ForgetTo(s, unit, base, cutoff, true).Ok?
    ensures var t := ForgetTo(s, unit, base, cutoff, true).value.0;
            RecordIn(t, name, key) == if AllBefore(unit, base, name, cutoff) then None else RecordIn(s, name, key)
  {
    ExpiredMembers(s, unit, base, cutoff);
    ForgetLookups(s, unit, base, cutoff);
    hide Coherent, AllBefore, ExpiredIds, NothingPendingIn, NothingOldPending, ForgetTo, Lookup;
  }

  /** The answer counts the frames that were active and no longer are. */
  lemma ForgetCounts(s: StoreState, unit: By, base: string, cutoff: int)
    requires Coherent(s) && ForgetTo(s, unit, base, cutoff, true).Ok?
    ensures var (t, count) := ForgetTo(s, unit, base, cutoff, true).value;
            && |t.file.frames| == |s.file.frames|
            && count == |set i: nat | i < |s.file.frames| && s.file.frames[i].active && !t.file.frames[i].active|
  {
    var es := ExpiredIds(s.reg, unit, base, cutoff);
    var t := ForgetTo(s, unit, base, cutoff, true).value.0;
    assert WellFormedFile(s.file);
    KilledFacts(s.file, es);
    hide Coherent, WellFormedFile, ExpiredIds, TimeOrdered, Marked, WithoutCollections, MemberFrames, MemberVectors;
    var gone := set i: nat | i < |s.file.frames| && s.file.frames[i].active && !t.file.frames[i].active;
    if es == {} {
      assert gone == {};
    } else {
      assert gone == ActiveMembers(s.file, es);
    }
  }

  /** The map without the partitions that lie before the cutoff. */
  ghost function Expire(a: Abstract, unit: By, base: string, cutoff: int): Abstract
  {
    a.(recs := map k | k in a.recs && !AllBefore(unit, base, k.0, cutoff) :: a.recs[k])
  }

  /** A forget does to the records what dropping the partitions before the cutoff does to the map. */
  lemma ForgetRefines(s: StoreState, a: Abstract, unit: By, base: string, cutoff: int)
    requires Coherent(s) && Represents(s, a) && ForgetTo(s, unit, base, cutoff, true).Ok?
    requires s.staged == [] && NothingOldPending(s, unit, base, cutoff)
    ensures Represents(ForgetTo(s, unit, base, cutoff, true).value.0, Expire(a, unit, base, cutoff))
  {
    var t, b := ForgetTo(s, unit, base, cutoff, true).value.0, Expire(a, unit, base, cutoff);
    ForgetKills(s, unit, base, cutoff);
    hide Coherent, AllBefore, NothingOldPending, ForgetTo, Lookup, RecordIn;
    forall c, k ensures RecordIn(t, c, k) == AbstractIn(b, c, k) {
      ForgetExact(s, unit, base, cutoff, c, k);
      assert RecordIn(s, c, k) == AbstractIn(a, c, k);
    }
  }

  // ------------------------------------------------------------------ over runs

  ghost function SpecAct(a: Abstract, unit: By, base: string, act: Action): Abstract
  {
    match act
    case Plain(op) => SpecStep(a, op)
    case Ingest(key, rec, routed, stored) => SpecStep(a, Put(Route(unit, base, rec, routed), key, rec, stored))
    case ForgetAt(cutoff) => Expire(a, unit, base, cutoff)
  }

  ghost function SpecActs(a: Abstract, unit: By, base: string, acts: seq<Action>): Abstract
    decreases |acts|
  {
    if acts == [] then a else SpecActs(SpecAct(a, unit, base, acts[0]), unit, base, acts[1..])
  }

  lemma ActRefines(env: Env, unit: By, base: string, s: StoreState, a: Abstract, act: Action)
    requires Coherent(s) && !unit.Custom? && Represents(s, a) && (act.Plain? ==> !act.op.Compact?)
    requires Allowed(env, unit, base, s, act) && Act(env, unit, base, s, act).Ok?
    ensures Represents(Act(env, unit, base, s, act).value, SpecAct(a, unit, base, act))
  {
    hide Coherent, Represents, Step, SpecStep, PutTo, ForgetTo, Route, Legal, PeriodAt, NothingPendingIn, ExpiredIds,
         NothingOldPending, Expire;
    match act
    case Plain(op) => StepRefines(env, s, a, op);
    case Ingest(key, rec, routed, stored) => PutRefines(s, a, Route(unit, base, rec, routed), key, rec, stored);
    case ForgetAt(cutoff) =>
      ExpiredMembers(s, unit, base, cutoff);
      ForgetRefines(s, a, unit, base, cutoff);
  }

  /** Over every run of a partitioned store, ingest and forgets included, the records are the map's. */
  lemma {:induction false} ActsRefine(env: Env, unit: By, base: string, s: StoreState, a: Abstract, acts: seq<Action>,
      t: StoreState)
    requires Coherent(s) && !unit.Custom? && Represents(s, a) && Runs(env, unit, base, s, acts, t)
    requires forall i :: 0 <= i < |acts| && acts[i].Plain? ==> !acts[i].op.Compact?
    ensures Represents(t, SpecActs(a, unit, base, acts))
    decreases |acts|
  {
    hide Coherent, Represents, Allowed, Act, SpecAct;
    if acts != [] {
      ActCoherent(env, unit, base, s, acts[0]);
      ActRefines(env, unit, base, s, a, acts[0]);
      ActsRefine(env, unit, base, Act(env, unit, base, s, acts[0]).value, SpecAct(a, unit, base, acts[0]), acts[1..],
          t);
    }
  }
}
