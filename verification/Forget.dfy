/** Soft forgetting of whole time partitions (`forget_before` in `src/db/partition.rs`). */
module Forget {
  import opened Basics
  import opened Keys
  import opened Engine
  import opened Identity
  import opened Schema
  import opened Store
  import opened StoreProofs
  import opened StoreView
  import opened StoreRuns
  import opened Civil
  import opened Partition

  // ------------------------------------------------------------------ the operation, on values

  predicate Expired(unit: By, base: string, name: string, cutoff: int)
  {
    PeriodOf(unit, base, name).Some? && PeriodOf(unit, base, name).value.1 <= cutoff
  }

  /** Ids of the partitions whose whole period precedes the cutoff. */
  function ExpiredIds(reg: Registry, unit: By, base: string, cutoff: int): set<CollectionId>
  {
    set n | n in reg.collections && Expired(unit, base, n, cutoff) :: reg.collections[n].id
  }

  /** Members as of the last commit: what the collection's member lists hold. */
  function MemberFrames(fs: FileState, es: set<CollectionId>): set<FrameId>
  {
    set i | 0 <= i < |fs.memberFrames| && fs.memberFrames[i].active && fs.memberFrames[i].coll in es
  }

  function MemberVectors(fs: FileState, es: set<CollectionId>): set<VectorId>
  {
    set v | 0 <= v < |fs.memberVectors| && fs.memberVectors[v].active && fs.memberVectors[v].coll in es
  }

  function KilledFrames(frames: seq<Frame>, ids: set<FrameId>): (r: seq<Frame>)
    ensures |r| == |frames|
  {
    seq(|frames|, i requires 0 <= i < |frames| => if i in ids then frames[i].(active := false) else frames[i])
  }

  /** The engine after every listed member of `es` is tombstoned. */
  function KilledIn(fs: FileState, es: set<CollectionId>): FileState
  {
    fs.(frames := KilledFrames(fs.frames, MemberFrames(fs, es)),
        vectors := KilledVectors(fs.vectors, MemberVectors(fs, es)))
  }

  /** Those still active: the ones a tombstone is counted for. */
  function ActiveMembers(fs: FileState, es: set<CollectionId>): set<FrameId>
  {
    ActiveOf(fs.frames, MemberFrames(fs, es))
  }

  function ActiveOf(frames: seq<Frame>, ids: set<FrameId>): set<FrameId>
  {
    set i | i in ids && i < |frames| && frames[i].active
  }

  function WithoutCollections(m: Index, es: set<CollectionId>): Index
  {
    map k | k in m && k.0 !in es :: m[k]
  }

  /** `forget_before` on a store whose writer has nothing staged: a new writer starts that way. */
  function ForgetTo(s: StoreState, unit: By, base: string, cutoff: int, fsyncOk: bool): Result<(StoreState, nat)>
  {
    if unit.Custom? then Err(NotTimePartition)
    else
      var es := ExpiredIds(s.reg, unit, base, cutoff);
      if es == {} then Ok((s, 0))
      else if !TimeOrdered(KilledIn(s.file, es).frames) then Err(TimeOrder)
      else if !fsyncOk then Err(FsyncFailed)
      else
        Ok((StoreState(CommittedFile(KilledIn(s.file, es)), s.reg, WithoutCollections(Marked(s.index, s.dirty), es),
            [], []),
            |ActiveMembers(s.file, es)|))
  }

  // ------------------------------------------------------------------ coherence, exactly when

  /** Nothing live in these collections is still pending. */
  ghost predicate NothingPendingIn(s: StoreState, es: set<CollectionId>)
  {
    && (forall i :: 0 <= i < |s.file.frames| && LiveKey(s.file.frames[i]).Some? && s.file.frames[i].coll in es ==>
          i in MemberFrames(s.file, es))
    && (forall v :: 0 <= v < |s.file.vectors| && s.file.vectors[v].active && s.file.vectors[v].coll in es ==>
          v in MemberVectors(s.file, es))
  }

  /** The store as a forget of `es` leaves it. */
  function Forgotten(s: StoreState, es: set<CollectionId>): StoreState
  {
    StoreState(CommittedFile(KilledIn(s.file, es)), s.reg, WithoutCollections(Marked(s.index, s.dirty), es), [], [])
  }

  lemma KilledFacts(fs: FileState, es: set<CollectionId>)
    requires WellFormedFile(fs)
    ensures var t := KilledIn(fs, es);
            && |t.frames| == |fs.frames| && |t.vectors| == |fs.vectors|
            && (forall i :: 0 <= i < |fs.frames| ==>
                  t.frames[i] == if i in MemberFrames(fs, es) then fs.frames[i].(active := false) else fs.frames[i])
            && (forall v :: 0 <= v < |fs.vectors| ==>
                  t.vectors[v] == if v in MemberVectors(fs, es) then fs.vectors[v].(active := false) else fs.vectors[v])
            && (forall i :: i in MemberFrames(fs, es) ==> i < |fs.frames| && fs.frames[i].coll in es)
            && (forall v :: v in MemberVectors(fs, es) ==> v < |fs.vectors| && fs.vectors[v].coll in es)
  {
  }

  lemma ForgottenWellFormed(fs: FileState, es: set<CollectionId>)
    requires WellFormedFile(fs)
    ensures WellFormedFile(CommittedFile(KilledIn(fs, es)))
  {
    KilledFacts(fs, es);
    hide KilledIn, MemberFrames, MemberVectors;
  }

  /** What is outside the expired collections is untouched. */
  lemma OutsideKept(s: StoreState, es: set<CollectionId>, k: KeyRef)
    requires Coherent(s) && k in s.index && k.0 !in es
    ensures s.index[k].frame < |s.file.frames| && LiveKey(s.file.frames[s.index[k].frame]) == Some(k)
    ensures s.index[k].frame !in MemberFrames(s.file, es)
    ensures forall v :: 0 <= v < |s.file.vectors| && s.file.vectors[v].owner == s.index[k].frame ==>
            v !in MemberVectors(s.file, es)
  {
    KilledFacts(s.file, es);
    assert OwnersAgree(s.file) by { hide IndexMatchesFrames, EntriesListVectors, OwnersLive, SchemaFits,
      CollectionsFit, CommitStatus; }
    hide IsKey, WellFormedFile, EntriesListVectors, OwnersLive, SchemaFits, CollectionsFit, CommitStatus, StagedFits,
         MemberFrames, MemberVectors, KilledIn;
  }

  /** A vector is filed under its owner's collection. */
  predicate OwnersAgree(fs: FileState)
  {
    forall v :: 0 <= v < |fs.vectors| ==>
      fs.vectors[v].owner < |fs.frames| && fs.vectors[v].coll == fs.frames[fs.vectors[v].owner].coll
  }

  lemma ForgottenIndex(s: StoreState, es: set<CollectionId>)
    requires Coherent(s)
    ensures var t := Forgotten(s, es);
            && (forall k :: k in t.index <==> k in s.index && k.0 !in es)
            && forall k :: k in t.index ==>
                 && t.index[k].frame == s.index[k].frame && t.index[k].vectors == s.index[k].vectors
                 && t.index[k].committed
  {
    hide IsKey, LiveKey, WellFormedFile, EntriesListVectors, OwnersLive, SchemaFits, CollectionsFit, StagedFits,
         IndexMatchesFrames, KilledIn;
  }

  ghost predicate Named(frames: seq<Frame>, m: Index, k: KeyRef)
  {
    k in m ==> m[k].frame < |frames| && LiveKey(frames[m[k].frame]) == Some(k)
  }

  ghost predicate Found(frames: seq<Frame>, m: Index, i: FrameId)
  {
    i < |frames| && LiveKey(frames[i]).Some? ==> LiveKey(frames[i]).value in m && m[LiveKey(frames[i]).value].frame == i
  }

  lemma MatchesByParts(frames: seq<Frame>, m: Index)
    requires (forall k :: Named(frames, m, k)) && forall i: nat :: Found(frames, m, i)
    ensures IndexMatchesFrames(frames, m)
  {
    hide LiveKey;
    forall k | k in m ensures m[k].frame < |frames| && LiveKey(frames[m[k].frame]) == Some(k) {
      assert Named(frames, m, k);
    }
    forall i | 0 <= i < |frames| && LiveKey(frames[i]).Some?
      ensures LiveKey(frames[i]).value in m && m[LiveKey(frames[i]).value].frame == i
    {
      assert Found(frames, m, i);
    }
  }

  lemma ForgottenNamed(s: StoreState, es: set<CollectionId>, k: KeyRef)
    requires Coherent(s)
    ensures Named(Forgotten(s, es).file.frames, Forgotten(s, es).index, k)
  {
    ForgottenIndex(s, es);
    var t := Forgotten(s, es);
    if k in t.index {
      OutsideKept(s, es, k);
      assert WellFormedFile(s.file);
      KilledFacts(s.file, es);
      hide Coherent, LiveKey, WellFormedFile, MemberFrames, MemberVectors, KilledIn;
    }
  }

  lemma ForgottenFound(s: StoreState, es: set<CollectionId>, i: FrameId)
    requires Coherent(s) && NothingPendingIn(s, es)
    ensures Found(Forgotten(s, es).file.frames, Forgotten(s, es).index, i)
  {
    ForgottenIndex(s, es);
    var t := Forgotten(s, es);
    assert WellFormedFile(s.file);
    KilledFacts(s.file, es);
    hide IsKey, WellFormedFile, EntriesListVectors, OwnersLive, SchemaFits, CollectionsFit, CommitStatus, StagedFits,
         MemberFrames, MemberVectors, KilledIn;
    if i < |t.file.frames| && LiveKey(t.file.frames[i]).Some? {
      assert t.file.frames[i] == s.file.frames[i];
    }
  }

  lemma ForgottenMatches(s: StoreState, es: set<CollectionId>)
    requires Coherent(s) && NothingPendingIn(s, es)
    ensures IndexMatchesFrames(Forgotten(s, es).file.frames, Forgotten(s, es).index)
  {
    hide *;
    var t := Forgotten(s, es);
    forall k ensures Named(t.file.frames, t.index, k) { ForgottenNamed(s, es, k); }
    forall i: nat ensures Found(t.file.frames, t.index, i) { ForgottenFound(s, es, i); }
    MatchesByParts(t.file.frames, t.index);
  }

  lemma ForgottenRefs(s: StoreState, es: set<CollectionId>, k: KeyRef, p: (SpaceId, VectorId))
    requires Coherent(s) && k in s.index && k.0 !in es
    ensures RefMatches(Forgotten(s, es).file.vectors, s.index[k].frame, p) <==>
            RefMatches(s.file.vectors, s.index[k].frame, p)
  {
    OutsideKept(s, es, k);
    assert WellFormedFile(s.file);
    KilledFacts(s.file, es);
    hide Coherent, LiveKey, WellFormedFile, MemberFrames, MemberVectors, KilledIn;
  }

  lemma ForgottenEntries(s: StoreState, es: set<CollectionId>)
    requires Coherent(s)
    ensures EntriesListVectors(Forgotten(s, es).file.vectors, Forgotten(s, es).index)
  {
    var t := Forgotten(s, es);
    ForgottenIndex(s, es);
    assert EntriesListVectors(s.file.vectors, s.index);
    hide Coherent, Forgotten, RefMatches;
    forall k, p: (SpaceId, VectorId) | k in t.index
      ensures RefMatches(t.file.vectors, t.index[k].frame, p) <==> RefMatches(s.file.vectors, s.index[k].frame, p)
    {
      ForgottenRefs(s, es, k, p);
    }
  }

  lemma ForgottenOwners(s: StoreState, es: set<CollectionId>)
    requires Coherent(s) && NothingPendingIn(s, es)
    ensures OwnersLive(Forgotten(s, es).file.frames, Forgotten(s, es).file.vectors)
  {
    KilledFacts(s.file, es);
    assert OwnersAgree(s.file) by { hide IndexMatchesFrames, EntriesListVectors, OwnersLive, SchemaFits,
      CollectionsFit, CommitStatus; }
    hide IsKey, LiveKey, WellFormedFile, EntriesListVectors, SchemaFits, CollectionsFit, CommitStatus, StagedFits,
         IndexMatchesFrames,
         MemberFrames, MemberVectors, KilledIn;
  }

  lemma EntryInFile(s: StoreState, k: KeyRef)
    requires Coherent(s) && k in s.index
    ensures s.index[k].frame < |s.file.frames| && forall p :: p in s.index[k].vectors ==> p.1 < |s.file.vectors|
  {
    hide IsKey, WellFormedFile, OwnersLive, SchemaFits, CollectionsFit, CommitStatus, StagedFits;
    forall p | p in s.index[k].vectors ensures p.1 < |s.file.vectors| {
      assert RefMatches(s.file.vectors, s.index[k].frame, p);
    }
  }

  lemma ForgottenStatus(s: StoreState, es: set<CollectionId>)
    requires Coherent(s)
    ensures var t := Forgotten(s, es);
            && CommitStatus(t.file, t.index, t.dirty) && SchemaFits(t.reg, t.file.spaces)
               && CollectionsFit(t.reg, t.file)
  {
    var t := Forgotten(s, es);
    ForgottenIndex(s, es);
    assert t.file.flushedFrames == |s.file.frames| && t.file.flushedVectors == |s.file.vectors|;
    assert t.reg == s.reg && t.file.spaces == s.file.spaces && t.file.collections == s.file.collections;
    assert SchemaFits(s.reg, s.file.spaces) && CollectionsFit(s.reg, s.file);
    hide Coherent, SchemaFits, Forgotten;
    forall k | k in t.index
      ensures t.index[k].frame < t.file.flushedFrames && forall p :: p in t.index[k].vectors ==>
              p.1 < t.file.flushedVectors
    {
      EntryInFile(s, k);
    }
  }

  lemma ForgottenCoherent(s: StoreState, es: set<CollectionId>)
    requires Coherent(s) && NothingPendingIn(s, es)
    ensures Coherent(Forgotten(s, es))
  {
    ForgottenMatches(s, es);
    ForgottenEntries(s, es);
    ForgottenOwners(s, es);
    ForgottenStatus(s, es);
    assert WellFormedFile(s.file) && Forgotten(s, es).staged == [];
    ForgottenWellFormed(s.file, es);
    assert Forgotten(s, es).file == CommittedFile(KilledIn(s.file, es));
    hide WellFormedFile, IndexMatchesFrames, EntriesListVectors, OwnersLive, CommitStatus, SchemaFits, CollectionsFit,
         Forgotten,
         NothingPendingIn;
  }

  lemma StrandedFrame(s: StoreState, es: set<CollectionId>, i: FrameId)
    requires Coherent(s) && i < |s.file.frames| && LiveKey(s.file.frames[i]).Some?
    requires s.file.frames[i].coll in es && i !in MemberFrames(s.file, es)
    ensures !IndexMatchesFrames(Forgotten(s, es).file.frames, Forgotten(s, es).index)
  {
    assert WellFormedFile(s.file);
    KilledFacts(s.file, es);
    ForgottenIndex(s, es);
    var t := Forgotten(s, es);
    assert t.file.frames[i] == s.file.frames[i];
    hide Coherent, IsKey, WellFormedFile, MemberFrames, MemberVectors, KilledIn, Forgotten;
  }

  lemma StrandedVector(s: StoreState, es: set<CollectionId>, v: VectorId)
    requires Coherent(s) && v < |s.file.vectors| && s.file.vectors[v].active
    requires s.file.vectors[v].coll in es && v !in MemberVectors(s.file, es)
    ensures var t := Forgotten(s, es);
            !IndexMatchesFrames(t.file.frames, t.index) || !OwnersLive(t.file.frames, t.file.vectors)
  {
    assert WellFormedFile(s.file);
    KilledFacts(s.file, es);
    ForgottenIndex(s, es);
    var t := Forgotten(s, es);
    assert OwnersAgree(s.file);
    assert t.file.vectors[v] == s.file.vectors[v] && t.file.frames[t.file.vectors[v].owner].coll in es;
    hide Coherent, IsKey, WellFormedFile, MemberFrames, MemberVectors, KilledIn, Forgotten, OwnersAgree;
  }

  /** Something live and pending stays behind without an entry. */
  lemma PendingStrands(s: StoreState, es: set<CollectionId>)
    requires Coherent(s) && !NothingPendingIn(s, es)
    ensures var t := Forgotten(s, es);
            !IndexMatchesFrames(t.file.frames, t.index) || !OwnersLive(t.file.frames, t.file.vectors)
  {
    hide Coherent, LiveKey, MemberFrames, MemberVectors, Forgotten, IndexMatchesFrames, OwnersLive;
    if i: nat :| && i < |s.file.frames| && LiveKey(s.file.frames[i]).Some?
                 && s.file.frames[i].coll in es && i !in MemberFrames(s.file, es) {
      StrandedFrame(s, es, i);
    } else {
      var v: nat :| v < |s.file.vectors| && s.file.vectors[v].active && s.file.vectors[v].coll in es
        && v !in MemberVectors(s.file, es);
      StrandedVector(s, es, v);
    }
  }

  lemma CoherentParts(s: StoreState)
    ensures Coherent(s) ==> IndexMatchesFrames(s.file.frames, s.index) && OwnersLive(s.file.frames, s.file.vectors)
  {
  }

  /** A forget leaves the index in agreement with the file exactly if nothing expired was pending. */
  lemma ForgetCoherentIff(s: StoreState, unit: By, base: string, cutoff: int)
    requires Coherent(s) && ForgetTo(s, unit, base, cutoff, true).Ok?
    requires s.staged == []
    ensures Coherent(ForgetTo(s, unit, base, cutoff, true).value.0) <==>
            NothingPendingIn(s, ExpiredIds(s.reg, unit, base, cutoff))
  {
    var es := ExpiredIds(s.reg, unit, base, cutoff);
    assert es == {} ==> NothingPendingIn(s, es) by { hide Coherent, ExpiredIds; }
    hide Coherent, NothingPendingIn, ExpiredIds, KilledIn, Marked, WithoutCollections, CommittedFile,
         IndexMatchesFrames, OwnersLive;
    if es != {} {
      assert ForgetTo(s, unit, base, cutoff, true).value.0 == Forgotten(s, es);
      if NothingPendingIn(s, es) { ForgottenCoherent(s, es); }
      if !NothingPendingIn(s, es) { PendingStrands(s, es); CoherentParts(Forgotten(s, es)); }
    }
  }

  /** Right after a commit nothing is pending anywhere. */
  lemma NothingPendingAfterCommit(s: StoreState, es: set<CollectionId>)
    requires Quiescent(s)
    ensures NothingPendingIn(s, es)
  {
    hide Coherent, IsKey;
    assert s.file.memberFrames == s.file.frames && s.file.memberVectors == s.file.vectors;
  }

  // ------------------------------------------------------------------ what is forgotten

  /** The expired partitions are emptied and every other record is as it was. */
  lemma ForgetMeaning(s: StoreState, es: set<CollectionId>, k: KeyRef)
    requires Coherent(s) && s.staged == [] && NothingPendingIn(s, es)
    ensures Lookup(Forgotten(s, es), k) == if k.0 in es then None else Lookup(s, k)
  {
    var t := Forgotten(s, es);
    ForgottenCoherent(s, es);
    LookupByIndex(s, k);
    LookupByIndex(t, k);
    ForgottenIndex(s, es);
    if k in s.index && k.0 !in es {
      ForgottenRec(s, es, k);
    }
    hide Coherent, Lookup, RecAt, Forgotten, NothingPendingIn;
  }

  lemma ForgottenRec(s: StoreState, es: set<CollectionId>, k: KeyRef)
    requires Coherent(s) && s.staged == [] && k in s.index && k.0 !in es
    ensures s.index[k].frame < |s.file.frames| && RecAt(Forgotten(s, es), s.index[k].frame) ==
            RecAt(s, s.index[k].frame)
  {
    var i, t := s.index[k].frame, Forgotten(s, es);
    OutsideKept(s, es, k);
    assert WellFormedFile(s.file);
    KilledFacts(s.file, es);
    assert forall v :: 0 <= v < |s.file.vectors| ==> s.file.vectors[v].space < |s.file.spaces|;
    assert t.file.frames == KilledIn(s.file, es).frames && t.file.vectors == KilledIn(s.file, es).vectors
      && t.file.spaces == s.file.spaces;
    assert t.staged == s.staged;
    hide *;
    SameButKilled(s, t, i);
  }

  lemma SameButKilled(s: StoreState, t: StoreState, i: FrameId)
    requires i < |s.file.frames| == |t.file.frames| && t.file.frames[i] == s.file.frames[i] && t.staged == s.staged
    requires forall j :: 0 <= j < |s.file.frames| ==>
             t.file.frames[j] == s.file.frames[j] || t.file.frames[j] == s.file.frames[j].(active := false)
    requires |t.file.vectors| == |s.file.vectors| && t.file.spaces == s.file.spaces
    requires forall v :: 0 <= v < |s.file.vectors| ==> s.file.vectors[v].space < |s.file.spaces|
    requires forall v :: 0 <= v < |s.file.vectors| ==>
               t.file.vectors[v] == s.file.vectors[v] || (s.file.vectors[v].owner != i && t.file.vectors[v].owner != i)
    ensures RecAt(t, i) == RecAt(s, i)
  {
    hide EngineVectors, StagedVectors, RecAt;
    EngineVectorsSame(s.file.vectors, t.file.vectors, s.file.spaces, t.file.spaces, i);
    SameRec(s, t, i);
  }

  // ------------------------------------------------------------------ only old records

  /** Every record of a partition has its timestamp in the partition's period. */
  ghost predicate TimestampsFit(s: StoreState, unit: By, base: string)
  {
    forall i, n ::
      (0 <= i < |s.file.frames| && s.file.frames[i].active && n in s.reg.collections
       && s.reg.collections[n].id == s.file.frames[i].coll && PeriodOf(unit, base, n).Some?) ==>
        PeriodOf(unit, base, n).value.0 <= s.file.frames[i].createdAt < PeriodOf(unit, base, n).value.1
  }

  /** Where timestamps fit their partitions, a forget tombstones only what is older than the cutoff. */
  lemma ForgetsOnlyOld(s: StoreState, unit: By, base: string, cutoff: int, i: FrameId)
    requires Coherent(s) && TimestampsFit(s, unit, base) && ForgetTo(s, unit, base, cutoff, true).Ok?
    requires i < |s.file.frames| && s.file.frames[i].active
             && !ForgetTo(s, unit, base, cutoff, true).value.0.file.frames[i].active
    ensures s.file.frames[i].createdAt < cutoff
  {
    var es := ExpiredIds(s.reg, unit, base, cutoff);
    assert WellFormedFile(s.file);
    KilledFacts(s.file, es);
    hide Coherent, WellFormedFile, MemberFrames, MemberVectors, KilledIn, PeriodOf, TimeOrdered;
    assert i in MemberFrames(s.file, es);
    var n :| n in s.reg.collections && Expired(unit, base, n, cutoff)
      && s.reg.collections[n].id == s.file.frames[i].coll;
  }

  /** The timestamp a stored record ends up with. */
  function StoredTime(rec: Record, now: int): int
  {
    if rec.createdAt.Some? then rec.createdAt.value else now
  }

  /**
   Ingest through the router keeps timestamps in their partitions, given that the clock read by the
   engine is still in the period of the one read by the router; an explicit timestamp always is.
   */
  lemma RoutedPutFits(s: StoreState, unit: By, base: string, key: Key, rec: Record, routed: int, stored: int)
    requires Coherent(s) && TimestampsFit(s, unit, base) && !unit.Custom?
    requires RoutingTime(rec, routed) <= I64_MAX
    requires rec.createdAt.None? ==> PeriodAt(unit, routed).0 <= stored < PeriodAt(unit, routed).1
    requires PutTo(s, Route(unit, base, rec, routed), key, rec, stored).Ok?
    ensures TimestampsFit(PutTo(s, Route(unit, base, rec, routed), key, rec, stored).value, unit, base)
  {
    var name := Route(unit, base, rec, routed);
    PutKeepsCollections(s, name, key, rec, stored);
    RoutedPeriod(unit, base, rec, routed);
    PeriodHolds(unit, RoutingTime(rec, routed));
    RoutingIsStored(rec, routed);
    DistinctIds(s, name);
    var left, f := PutFrames(s, name, key, rec, stored);
    PutColl(s, name, key, rec, stored);
    hide Coherent, PutTo, PeriodOf, PeriodAt, Route, DateOf, RoutingTime;
    FitsAfterAppend(s, PutTo(s, name, key, rec, stored).value, unit, base, name, left, f);
  }

  lemma FitsAfterAppend(s: StoreState, t: StoreState, unit: By, base: string, name: string, left: seq<Frame>, f: Frame)
    requires TimestampsFit(s, unit, base) && t.reg == s.reg && t.file.frames == left + [f]
    requires left == s.file.frames || exists i: nat :: i < |s.file.frames| && left == KilledFrame(s.file.frames, i)
    requires name in s.reg.collections && f.coll == s.reg.collections[name].id
    requires forall d :: d in s.reg.collections && d != name ==> s.reg.collections[name].id != s.reg.collections[d].id
    requires PeriodOf(unit, base, name).Some? ==>
             PeriodOf(unit, base, name).value.0 <= f.createdAt < PeriodOf(unit, base, name).value.1
    ensures TimestampsFit(t, unit, base)
  {
    hide PeriodOf;
    forall i, n | 0 <= i < |t.file.frames| && t.file.frames[i].active && n in t.reg.collections
                  && t.reg.collections[n].id == t.file.frames[i].coll && PeriodOf(unit, base, n).Some?
      ensures PeriodOf(unit, base, n).value.0 <= t.file.frames[i].createdAt < PeriodOf(unit, base, n).value.1
    {
      if i < |left| {
        assert left[i].active ==> s.file.frames[i] == left[i];
      }
    }
  }

  lemma RoutingIsStored(rec: Record, now: int)
    ensures RoutingTime(rec, now) == StoredTime(rec, now)
  {
  }

  lemma PutColl(s: StoreState, coll: string, key: Key, rec: Record, now: int)
    requires Coherent(s) && PutTo(s, coll, key, rec, now).Ok?
    ensures coll in s.reg.collections
    ensures var frames := PutTo(s, coll, key, rec, now).value.file.frames;
            frames != [] && frames[|frames| - 1].coll == s.reg.collections[coll].id
  {
    hide Coherent, FirstFieldError, NamedVectors, ReadyPart, DeferredPart, ParentOf, Encode, NotOwnedBy;
  }

  // ------------------------------------------------------------------ the loops

  /** Members of one collection below `n`. */
  ghost function FramesBelow(fs: FileState, c: CollectionId, n: nat): set<FrameId>
  {
    set i | i in MemberFrames(fs, {c}) && i < n
  }

  ghost function VectorsBelow(fs: FileState, c: CollectionId, n: nat): set<VectorId>
  {
    set v | v in MemberVectors(fs, {c}) && v < n
  }

  lemma KillOneVector(vectors: seq<VectorRow>, ids: set<VectorId>, v: VectorId)
    requires v < |vectors|
    ensures KilledVectors(vectors, ids + {v}) == KilledVectors(KilledVectors(vectors, ids), {v})
    ensures v in ids || !vectors[v].active ==> KilledVectors(vectors, ids + {v}) == KilledVectors(vectors, ids)
  {
  }

  lemma KillOneFrame(frames: seq<Frame>, ids: set<FrameId>, i: FrameId)
    requires i < |frames|
    ensures KilledFrames(frames, ids + {i}) == KilledFrame(KilledFrames(frames, ids), i)
    ensures i in ids || !frames[i].active ==> KilledFrames(frames, ids + {i}) == KilledFrames(frames, ids)
  {
  }

  /** A tombstone that may already be there: the refusal is ignored. */
  method TryDeleteVector(file: ValiseFile, v: VectorId, ghost vectors: seq<VectorRow>, ghost gone: set<VectorId>)
    requires v < |vectors| && v < file.flushedVectors && file.vectors == KilledVectors(vectors, gone)
    modifies file
    ensures file.State() == old(file.State()).(vectors := KilledVectors(vectors, gone + {v}))
  {
    KillOneVector(vectors, gone, v);
    var ignored := file.DeleteVector(v);
  }

  /** Answers whether the frame was still there to tombstone. */
  method TryDeleteFrame(file: ValiseFile, i: FrameId, ghost frames: seq<Frame>,
      ghost gone: set<FrameId>) returns (ok: bool)
    requires i < |frames| && file.frames == KilledFrames(frames, gone)
    modifies file
    ensures file.State() == old(file.State()).(frames := KilledFrames(frames, gone + {i}))
    ensures ok <==> i !in gone && frames[i].active
  {
    KillOneFrame(frames, gone, i);
    var r := file.DeleteFrame(i);
    ok := r.Ok?;
  }

  lemma VectorsBelowStep(fs: FileState, c: CollectionId, v: VectorId)
    requires v < |fs.memberVectors|
    ensures VectorsBelow(fs, c, 0) == {}
    ensures VectorsBelow(fs, c, v + 1) ==
            VectorsBelow(fs, c, v) + (if fs.memberVectors[v].active && fs.memberVectors[v].coll == c then {v} else {})
  {
  }

  lemma VectorsBelowEnds(fs: FileState, c: CollectionId)
    ensures VectorsBelow(fs, c, 0) == {} && VectorsBelow(fs, c, |fs.memberVectors|) == MemberVectors(fs, {c})
  {
  }

  lemma FramesBelowStep(fs: FileState, c: CollectionId, i: FrameId)
    requires i < |fs.memberFrames|
    ensures FramesBelow(fs, c, i + 1) ==
            FramesBelow(fs, c, i) + (if fs.memberFrames[i].active && fs.memberFrames[i].coll == c then {i} else {})
  {
  }

  lemma FramesBelowEnds(fs: FileState, c: CollectionId)
    ensures FramesBelow(fs, c, 0) == {} && FramesBelow(fs, c, |fs.memberFrames|) == MemberFrames(fs, {c})
  {
  }

  /** Tombstones the member vectors of a collection; one already gone is tolerated. */
  method DeleteMemberVectors(file: ValiseFile, c: CollectionId, ghost vectors: seq<VectorRow>,
      ghost gone: set<VectorId>)
    requires |file.memberVectors| <= file.flushedVectors <= |vectors| && file.vectors == KilledVectors(vectors, gone)
    modifies file
    ensures file.State() ==
            old(file.State()).(vectors := KilledVectors(vectors, gone + MemberVectors(old(file.State()), {c})))
  {
    ghost var fs := file.State();
    VectorsBelowEnds(fs, c);
    hide KilledVectors, VectorsBelow, MemberVectors;
    assert gone + {} == gone;
    for v := 0 to |file.memberVectors|
      invariant file.State() == fs.(vectors := KilledVectors(vectors, gone + VectorsBelow(fs, c, v)))
    {
      VectorsBelowStep(fs, c, v);
      ghost var below := VectorsBelow(fs, c, v);
      if file.memberVectors[v].active && file.memberVectors[v].coll == c {
        TryDeleteVector(file, v, vectors, gone + below);
        assert gone + below + {v} == gone + (below + {v});
      } else {
        assert below + {} == below;
      }
    }
  }

  lemma ActiveOfMore(frames: seq<Frame>, ids: set<FrameId>, i: FrameId)
    requires i < |frames|
    ensures |ActiveOf(frames, ids + {i})| == |ActiveOf(frames, ids)| + (if i !in ids && frames[i].active then 1 else 0)
  {
    if i !in ids && frames[i].active {
      assert ActiveOf(frames, ids + {i}) == ActiveOf(frames, ids) + {i};
    } else {
      assert ActiveOf(frames, ids + {i}) == ActiveOf(frames, ids);
    }
  }

  /** Tombstones the member frames of a collection and counts those still active. */
  method DeleteMemberFrames(file: ValiseFile, c: CollectionId, count: nat, ghost frames: seq<Frame>,
      ghost gone: set<FrameId>)
    returns (total: nat)
    requires |file.memberFrames| <= |frames| && file.frames == KilledFrames(frames, gone)
             && count == |ActiveOf(frames, gone)|
    modifies file
    ensures file.State() ==
            old(file.State()).(frames := KilledFrames(frames, gone + MemberFrames(old(file.State()), {c})))
    ensures total == |ActiveOf(frames, gone + MemberFrames(old(file.State()), {c}))|
  {
    ghost var fs := file.State();
    FramesBelowEnds(fs, c);
    hide KilledFrames, FramesBelow, MemberFrames, ActiveOf;
    assert gone + {} == gone;
    total := count;
    for i := 0 to |file.memberFrames|
      invariant file.State() == fs.(frames := KilledFrames(frames, gone + FramesBelow(fs, c, i)))
      invariant total == |ActiveOf(frames, gone + FramesBelow(fs, c, i))|
    {
      FramesBelowStep(fs, c, i);
      ghost var below := FramesBelow(fs, c, i);
      if file.memberFrames[i].active && file.memberFrames[i].coll == c {
        ActiveOfMore(frames, gone + below, i);
        var ok := TryDeleteFrame(file, i, frames, gone + below);
        assert gone + below + {i} == gone + (below + {i});
        if ok { total := total + 1; }
      } else {
        assert below + {} == below;
      }
    }
  }

  lemma MembersOfMore(fs: FileState, fs': FileState, es: set<CollectionId>, c: CollectionId)
    requires fs'.memberFrames == fs.memberFrames && fs'.memberVectors == fs.memberVectors
    ensures MemberFrames(fs, es) + MemberFrames(fs', {c}) == MemberFrames(fs, es + {c})
    ensures MemberVectors(fs, es) + MemberVectors(fs', {c}) == MemberVectors(fs, es + {c})
  {
  }

  lemma NoneKilled(fs: FileState)
    ensures KilledIn(fs, {}) == fs && ActiveMembers(fs, {}) == {}
  {
    assert MemberFrames(fs, {}) == {} && MemberVectors(fs, {}) == {};
    assert KilledFrames(fs.frames, {}) == fs.frames && KilledVectors(fs.vectors, {}) == fs.vectors;
  }

  /** Tombstones everything listed in the expired collections, in whatever order they come. */
  method TombstoneAll(file: ValiseFile, es: set<CollectionId>) returns (count: nat)
    requires WellFormedFile(file.State())
    modifies file
    ensures file.State() == KilledIn(old(file.State()), es) && count == |ActiveMembers(old(file.State()), es)|
  {
    ghost var fs := file.State();
    assert |fs.memberVectors| <= fs.flushedVectors <= |fs.vectors| && |fs.memberFrames| <= |fs.frames|;
    NoneKilled(fs);
    hide WellFormedFile, MemberFrames, MemberVectors, KilledFrames, KilledVectors, ActiveOf;
    count := 0;
    var rest := es;
    assert es - rest == {};
    while rest != {}
      invariant rest <= es
      invariant file.State() == KilledIn(fs, es - rest)
      invariant count == |ActiveMembers(fs, es - rest)|
      decreases rest
    {
      var c :| c in rest;
      ghost var done := es - rest;
      MembersOfMore(fs, file.State(), done, c);
      DeleteMemberVectors(file, c, fs.vectors, MemberVectors(fs, done));
      MembersOfMore(fs, file.State(), done, c);
      count := DeleteMemberFrames(file, c, count, fs.frames, MemberFrames(fs, done));
      rest := rest - {c};
      assert es - rest == done + {c};
    }
    assert es - {} == es;
  }

  /** `forget_before`, holding the only writer; the writer is new, so it has nothing staged to flush. */
  method ForgetBefore(file: ValiseFile, identity: IdentityIndex, reg: Registry, unit: By, base: string, cutoff: int,
      fsyncOk: bool)
    returns (r: Result<nat>)
    requires WellFormedFile(file.State())
    modifies file, identity
    ensures var s := StoreState(old(file.State()), reg, old(identity.entries), old(identity.uncommitted), []);
            var spec := ForgetTo(s, unit, base, cutoff, fsyncOk);
            && (spec.Ok? ==> r == Ok(spec.value.1)
                             && StoreState(file.State(), reg, identity.entries, identity.uncommitted, []) ==
                                spec.value.0)
            && (spec.Err? ==> r == Err(spec.error))
  {
    if unit.Custom? { return Err(NotTimePartition); }
    var es := ExpiredIds(reg, unit, base, cutoff);
    if es == {} { return Ok(0); }
    hide WellFormedFile, ExpiredIds, KilledIn, ActiveMembers, Marked, TimeOrdered;
    var count := TombstoneAll(file, es);
    var c := file.Commit(fsyncOk);
    if c.Err? { return Err(c.error); }
    identity.MarkAllCommitted();
    RemoveCollections(identity, es);
    r := Ok(count);
  }

  method RemoveCollections(identity: IdentityIndex, es: set<CollectionId>)
    requires identity.uncommitted == []
    modifies identity
    ensures identity.entries == WithoutCollections(old(identity.entries), es) && identity.uncommitted == []
  {
    var rest := es;
    while rest != {}
      invariant rest <= es && identity.uncommitted == []
      invariant identity.entries == WithoutCollections(old(identity.entries), es - rest)
      decreases rest
    {
      var c :| c in rest;
      identity.RemoveCollection(c);
      rest := rest - {c};
    }
  }
}
