/**
 Whole bulk loads.  A load does on the store what `BulkCatalog.Load` does on its catalog, so it
 commits the same records whatever its threshold, and the one thing a threshold can change is whether
 a commit meets timestamps out of order.
 */
module BulkRuns {
  import opened Basics
  import opened Keys
  import opened Engine
  import opened Identity
  import opened SchemaDoc
  import opened Schema
  import opened Store
  import opened StoreProofs
  import opened StoreView
  import opened StoreRuns
  import opened Loader
  import opened BulkCatalog

  predicate KeysWellFormed(items: seq<Item>)
  {
    forall i :: 0 <= i < |items| ==> WellFormed(items[i].key)
  }

  /** Put every item, then flush the tail. */
  function BulkRun(s: StoreState, w: Window, threshold: nat, digest: Digest, items: seq<Item>): Result<StoreState>
    requires Coherent(s) && KeysWellFormed(items)
    decreases |items|
  {
    if items == [] then
      (match FlushTo(s, w, true)
       case Ok(r) => Ok(r.0)
       case Err(e) => Err(e))
    else
      match BulkPutTo(s, w, threshold, digest, items[0], true)
      case Err(e) => Err(e)
      case Ok(r) =>
        BulkPutCoherent(s, w, threshold, digest, items[0], true);
        BulkRun(r.0, r.1, threshold, digest, items[1..])
  }

  /** Put and commit, item by item. */
  function OneByOne(s: StoreState, items: seq<Item>): Result<StoreState>
    requires Coherent(s) && KeysWellFormed(items)
    decreases |items|
  {
    if items == [] then Ok(s)
    else
      match PutCommitted(s, items[0])
      case Err(e) => Err(e)
      case Ok(t) => PutCommittedCoherent(s, items[0]); OneByOne(t, items[1..])
  }

  function PutCommitted(s: StoreState, item: Item): Result<StoreState>
    requires Coherent(s) && WellFormed(item.key)
  {
    match PutTo(s, item.coll, item.key, item.rec, item.now)
    case Err(e) => Err(e)
    case Ok(t) => PutCoherent(s, item.coll, item.key, item.rec, item.now); CommitOf(t, true)
  }

  lemma PutCommittedCoherent(s: StoreState, item: Item)
    requires Coherent(s) && WellFormed(item.key) && PutCommitted(s, item).Ok?
    ensures Quiescent(PutCommitted(s, item).value)
  {
    PutCoherent(s, item.coll, item.key, item.rec, item.now);
    hide Coherent, PutTo, CommitOf;
    CommitCoherent(PutTo(s, item.coll, item.key, item.rec, item.now).value, true);
  }

  // ------------------------------------------------------------------ what a catalog decides

  lemma FlushKeepsCatalog(s: StoreState)
    requires Coherent(s)
    ensures CatalogOf(Flushed(s)) == CatalogOf(s)
  {
    FlushShape(s);
    CalibrationFacts(s);
    var c := CalibrationOf(s);
    PushAllEntries(s.index, c.vectorSpaces, s.staged, |s.file.vectors|);
    hide Coherent, Flushed, PushAll, FlushedRows, CalibrationOf, PushedRefs;
  }

  /** A commit succeeds exactly on a catalog in time order, and leaves the catalog as it was. */
  lemma CommitVerdict(s: StoreState)
    requires Coherent(s)
    ensures if TimeOrdered(s.file.frames) then CommitOf(s, true).Ok? else CommitOf(s, true) == Err(TimeOrder)
    ensures CommitOf(s, true).Ok? ==> CatalogOf(CommitOf(s, true).value) == CatalogOf(s)
  {
    FlushCoherent(s);
    FlushKeepsCatalog(s);
    MarkKeepsCatalog(Flushed(s));
    hide Coherent, Flushed, TimeOrdered, CatalogOf, CommittedFile, Marked;
  }

  lemma MarkKeepsCatalog(f: StoreState)
    ensures CatalogOf(f.(file := CommittedFile(f.file), index := Marked(f.index, f.dirty), dirty := [])) == CatalogOf(f)
  {
  }

  /** The plan of a put is accepted or refused by names and shapes alone. */
  lemma SamePlan(a: Registry, b: Registry, item: Item)
    requires a.collections == b.collections && a.textSpaces == b.textSpaces
             && a.vectorSpaces.Keys == b.vectorSpaces.Keys
    ensures var p, q := PlanFor(a, item.coll, item.rec), PlanFor(b, item.coll, item.rec);
            (p.Ok? <==> q.Ok?) && (p.Err? ==> p == q) && (p.Ok? ==> p.value.coll == q.value.coll)
  {
    hide FirstFieldError, NamedVectors, ReadyPart, DeferredPart;
  }

  lemma PlanInCatalog(s: StoreState, item: Item)
    ensures var p, q := PlanFor(s.reg, item.coll, item.rec), PlanFor(RegistryOf(CatalogOf(s)), item.coll, item.rec);
            (p.Ok? <==> q.Ok?) && (p.Err? ==> p == q) && (p.Ok? ==> p.value.coll == q.value.coll)
    ensures forall coll, parent :: ParentOf(s, coll, parent) == ParentIn(CatalogOf(s), coll, parent)
  {
    hide PlanFor, Encode;
    assert RegistryOf(CatalogOf(s)).vectorSpaces.Keys == s.reg.vectorSpaces.Keys;
    SamePlan(s.reg, RegistryOf(CatalogOf(s)), item);
  }

  /** Errors of a put whose key is free to be replaced: the plan's, or a missing parent. */
  lemma PutVerdict(s: StoreState, item: Item)
    requires Coherent(s) && Unblocked(s, item)
    ensures var plan, r := PlanFor(s.reg, item.coll, item.rec), PutTo(s, item.coll, item.key, item.rec, item.now);
            && (plan.Err? ==> r == Err(plan.error))
            && (plan.Ok? && ParentOf(s, plan.value.coll, item.rec.parent).Err? ==> r == Err(ParentNotFound))
            && (plan.Ok? && ParentOf(s, plan.value.coll, item.rec.parent).Ok? ==> r.Ok?)
  {
    PlanErrors(s.reg, item.coll, item.rec);
    hide Coherent, PlanFor, Encode, PutApplied;
  }

  lemma IndexBounds(s: StoreState)
    requires Coherent(s)
    ensures forall k :: k in s.index ==> s.index[k].frame < |s.file.frames|
  {
    hide WellFormedFile, EntriesListVectors, OwnersLive, SchemaFits, CollectionsFit, CommitStatus, StagedFits;
  }

  lemma PutCatalog(s: StoreState, item: Item)
    requires Coherent(s) && PutTo(s, item.coll, item.key, item.rec, item.now).Ok?
    requires forall k :: k in s.index ==> s.index[k].frame < |s.file.frames|
    ensures item.coll in s.reg.collections
    ensures var k := (s.reg.collections[item.coll].id, Encode(item.key));
            && ParentOf(s, k.0, item.rec.parent).Ok?
            && CatalogOf(PutTo(s, item.coll, item.key, item.rec, item.now).value) ==
               Appending(CatalogOf(s), k, item, ParentOf(s, k.0, item.rec.parent).value)
  {
    PutIndex(s, item);
    PutAppends(s, item);
    hide *;
    var k := (s.reg.collections[item.coll].id, Encode(item.key));
    AppendingIs(s, PutTo(s, item.coll, item.key, item.rec, item.now).value, k, item,
        ParentOf(s, k.0, item.rec.parent).value);
  }

  lemma AppendingIs(s: StoreState, t: StoreState, k: KeyRef, item: Item, parent: Option<FrameId>)
    requires t.reg == s.reg && (forall j :: j in s.index ==> s.index[j].frame < |s.file.frames|)
    requires t.file.frames == (if k in s.index then KilledFrame(s.file.frames, s.index[k].frame) else s.file.frames)
                              + [NewFrame(PutPlan(k.0, [], []), k.1, item.rec, parent, item.now)]
    requires t.index.Keys == s.index.Keys + {k} && t.index[k].frame == |s.file.frames|
    requires forall j :: j in s.index && j != k ==> t.index[j] == s.index[j]
    ensures CatalogOf(t) == Appending(CatalogOf(s), k, item, parent)
  {
    hide NewFrame, KilledFrame;
    assert CatalogOf(t).live == CatalogOf(s).live[k := |s.file.frames|];
  }

  lemma PutAppends(s: StoreState, item: Item)
    requires Coherent(s) && PutTo(s, item.coll, item.key, item.rec, item.now).Ok? && item.coll in s.reg.collections
    requires forall k :: k in s.index ==> s.index[k].frame < |s.file.frames|
    ensures var k, t := (s.reg.collections[item.coll].id, Encode(item.key)),
            PutTo(s, item.coll, item.key, item.rec, item.now).value;
            && t.reg == s.reg && ParentOf(s, k.0, item.rec.parent).Ok?
            && t.file.frames == (if k in s.index then KilledFrame(s.file.frames, s.index[k].frame) else s.file.frames)
                                + [NewFrame(PutPlan(k.0, [], []), k.1, item.rec,
                                    ParentOf(s, k.0, item.rec.parent).value, item.now)]
  {
    PlanErrors(s.reg, item.coll, item.rec);
    var plan := PlanFor(s.reg, item.coll, item.rec).value;
    var k, parent := (plan.coll, Encode(item.key)), ParentOf(s, plan.coll, item.rec.parent).value;
    assert NewFrame(plan, k.1, item.rec, parent, item.now) ==
      NewFrame(PutPlan(plan.coll, [], []), k.1, item.rec, parent, item.now);
    hide Coherent, PlanFor, Encode, ParentOf, NewFrame, NotOwnedBy;
  }

  /** A put on the store is the put on its catalog, errors included. */
  lemma PutIsCatPut(s: StoreState, item: Item)
    requires Coherent(s) && Unblocked(s, item)
    ensures var p, q := PutTo(s, item.coll, item.key, item.rec, item.now), CatPut(CatalogOf(s), item);
            (p.Ok? <==> q.Ok?) && (p.Err? ==> q == Err(p.error)) && (p.Ok? ==> q == Ok(CatalogOf(p.value)))
  {
    hide Coherent, Unblocked, PutTo, PlanFor, Appending, Encode, RegistryOf, CatalogOf;
    PlanInCatalog(s, item);
    PlanErrors(s.reg, item.coll, item.rec);
    PutVerdict(s, item);
    if PutTo(s, item.coll, item.key, item.rec, item.now).Ok? {
      IndexBounds(s);
      PutCatalog(s, item);
    }
  }

  /** A result that says of the catalog what another says of the store. */
  predicate Mirrors(r: Result<StoreState>, c: Result<Catalog>)
  {
    match r
    case Ok(t) => c == Ok(CatalogOf(t))
    case Err(e) => c == Err(e)
  }

  lemma PreparedMirrors(s: StoreState, w: Window, digest: Digest, item: Item)
    requires Coherent(s) && WindowFits(s, w, digest) && WellFormed(item.key)
    ensures var p := Prepared(s, w, digest, item, true);
            if CommitsBefore(w, digest, item) && !TimeOrdered(s.file.frames) then p == Err(TimeOrder)
            else
              && p.Ok? && p.value.1 == WindowBefore(w, digest, item) && Coherent(p.value.0)
              && CatalogOf(p.value.0) == CatalogOf(s) && WindowFits(p.value.0, p.value.1, digest)
                 && Unblocked(p.value.0, item)
  {
    hide Coherent, WindowFits, Unblocked, CommitOf, TimeOrdered, CatalogOf;
    CommitVerdict(s);
    if Prepared(s, w, digest, item, true).Ok? {
      PreparedFits(s, w, digest, item);
      PreparedCoherent(s, w, digest, item, true);
    }
  }

  lemma FlushMirrors(s: StoreState, w: Window, digest: Digest)
    requires Coherent(s) && WindowFits(s, w, digest) && w.pending != 0
    ensures var p := FlushTo(s, w, true);
            if !TimeOrdered(s.file.frames) then p == Err(TimeOrder)
            else
              && p.Ok? && p.value.1 == EMPTY_WINDOW && Coherent(p.value.0)
              && CatalogOf(p.value.0) == CatalogOf(s) && WindowFits(p.value.0, p.value.1, digest)
  {
    hide Coherent, WindowFits, CommitOf, TimeOrdered, CatalogOf;
    CommitVerdict(s);
    if FlushTo(s, w, true).Ok? {
      FlushedWindowFits(s, w, digest, true);
      FlushToCoherent(s, w, true);
    }
  }

  /** One put of a bulk load: what it commits, refuses and appends is decided by the catalog and the window. */
  lemma BulkPutMirrors(s: StoreState, w: Window, threshold: nat, digest: Digest, item: Item)
    requires Coherent(s) && WindowFits(s, w, digest) && WellFormed(item.key)
    ensures var r, c := BulkPutTo(s, w, threshold, digest, item, true), CatPut(CatalogOf(s), item);
            if CommitsBefore(w, digest, item) && !TimeOrdered(s.file.frames) then r == Err(TimeOrder)
            else if c.Err? then r == Err(c.error)
            else if CommitsAfter(w, threshold, digest, item) && !TimeOrdered(c.value.frames) then r == Err(TimeOrder)
            else
              && r.Ok? && r.value.1 == WindowAfter(w, threshold, digest, item) && Coherent(r.value.0)
              && CatalogOf(r.value.0) == c.value && WindowFits(r.value.0, r.value.1, digest)
  {
    hide Coherent, WindowFits, Unblocked, TimeOrdered, CatalogOf, CatPut, PutTo, Prepared, FlushTo, WellFormed,
         WindowBefore, CommitsBefore;
    CatalogFrames(s);
    PreparedMirrors(s, w, digest, item);
    if Prepared(s, w, digest, item, true).Ok? {
      var p := Prepared(s, w, digest, item, true).value;
      PutIsCatPut(p.0, item);
      if PutTo(p.0, item.coll, item.key, item.rec, item.now).Ok? {
        var t := PutTo(p.0, item.coll, item.key, item.rec, item.now).value;
        PutCoherent(p.0, item.coll, item.key, item.rec, item.now);
        PutWindowFits(p.0, p.1, digest, item);
        FlushMirrors(t, Noted(p.1, digest, item), digest);
        CatalogFrames(t);
      }
    }
  }

  /** A whole bulk load on the store is the load of its catalog. */
  lemma {:induction false} RunIsLoad(s: StoreState, w: Window, threshold: nat, digest: Digest, items: seq<Item>)
    requires Coherent(s) && WindowFits(s, w, digest) && KeysWellFormed(items)
    ensures Mirrors(BulkRun(s, w, threshold, digest, items), Load(CatalogOf(s), w, threshold, digest, items))
    decreases |items|
  {
    CatalogFrames(s);
    hide Coherent, WindowFits, TimeOrdered, CatalogOf, CatPut, BulkPutTo, WellFormed, CommitsBefore, CommitsAfter,
         WindowAfter;
    if items == [] {
      if w.pending != 0 { FlushMirrors(s, w, digest); }
    } else {
      BulkPutMirrors(s, w, threshold, digest, items[0]);
      if BulkPutTo(s, w, threshold, digest, items[0], true).Ok? {
        var r := BulkPutTo(s, w, threshold, digest, items[0], true).value;
        RunIsLoad(r.0, r.1, threshold, digest, items[1..]);
      }
    }
  }

  lemma CatalogFrames(s: StoreState)
    ensures CatalogOf(s).frames == s.file.frames
  {
  }

  lemma CommittedAll(t: StoreState, item: Item)
    requires forall k :: k in t.index ==> t.index[k].committed
    ensures Unblocked(t, item)
  {
  }

  lemma AllCommittedFits(s: StoreState, digest: Digest)
    requires forall k :: k in s.index ==> s.index[k].committed
    ensures WindowFits(s, EMPTY_WINDOW, digest)
  {
  }

  /** Committing after every put is the load of threshold one. */
  lemma {:induction false} OneByOneIsLoad(t: StoreState, digest: Digest, items: seq<Item>)
    requires Coherent(t) && KeysWellFormed(items) && forall k :: k in t.index ==> t.index[k].committed
    ensures Mirrors(OneByOne(t, items), Load(CatalogOf(t), EMPTY_WINDOW, 1, digest, items))
    decreases |items|
  {
    hide Coherent, TimeOrdered, CatalogOf, CatPut, PutTo, CommitOf, WellFormed, Unblocked;
    if items != [] {
      var item := items[0];
      assert !CommitsBefore(EMPTY_WINDOW, digest, item) && CommitsAfter(EMPTY_WINDOW, 1, digest, item);
      assert WindowAfter(EMPTY_WINDOW, 1, digest, item) == EMPTY_WINDOW;
      CommittedAll(t, item);
      PutIsCatPut(t, item);
      if PutTo(t, item.coll, item.key, item.rec, item.now).Ok? {
        var p := PutTo(t, item.coll, item.key, item.rec, item.now).value;
        PutCoherent(t, item.coll, item.key, item.rec, item.now);
        CatalogFrames(p);
        CommitVerdict(p);
        if CommitOf(p, true).Ok? {
          PutCommittedCoherent(t, item);
          OneByOneIsLoad(PutCommitted(t, item).value, digest, items[1..]);
        }
      }
    }
  }

  // ------------------------------------------------------------------ batch independence

  /**
   When a bulk load succeeds: every put is accepted and the catalog is in time order wherever the
   window makes it commit.  It then ends in the catalog of the items alone.
   */
  lemma SucceedsExactly(s: StoreState, w: Window, threshold: nat, digest: Digest, items: seq<Item>)
    requires Coherent(s) && WindowFits(s, w, digest) && KeysWellFormed(items)
    ensures BulkRun(s, w, threshold, digest, items).Ok? <==>
            Accepted(CatalogOf(s), items) && OrderedAtCommits(CatalogOf(s), w, threshold, digest, items)
    ensures BulkRun(s, w, threshold, digest, items).Ok? ==>
              CatalogAfter(CatalogOf(s), items, |items|) == Ok(CatalogOf(BulkRun(s, w, threshold, digest, items).value))
  {
    hide Coherent, WindowFits, BulkRun, Load, CatalogOf, OrderedAtCommits, CatalogAfter;
    RunIsLoad(s, w, threshold, digest, items);
    LoadExact(CatalogOf(s), w, threshold, digest, items);
  }

  /**
   For any threshold, items and digest: if committing after every put succeeds, so does the bulk load,
   with the same frames and keys; if it fails for any reason but time order, the bulk load fails with
   the same error.
   */
  lemma BatchSizeIndependent(s: StoreState, w: Window, t: StoreState, threshold: nat, digest: Digest, items: seq<Item>)
    requires Coherent(s) && WindowFits(s, w, digest) && KeysWellFormed(items)
             && (w.pending != 0 ==> TimeOrdered(s.file.frames))
    requires Coherent(t) && (forall k :: k in t.index ==> t.index[k].committed) && CatalogOf(t) == CatalogOf(s)
    ensures OneByOne(t, items).Ok? ==>
              BulkRun(s, w, threshold, digest, items).Ok?
              && CatalogOf(BulkRun(s, w, threshold, digest, items).value) == CatalogOf(OneByOne(t, items).value)
    ensures OneByOne(t, items).Err? && OneByOne(t, items) != Err(TimeOrder) ==>
              BulkRun(s, w, threshold, digest, items) == Err(OneByOne(t, items).error)
  {
    CatalogFrames(s);
    hide Coherent, WindowFits, BulkRun, OneByOne, Load, CatalogOf, CatalogAfter, OrderedAfter, CommitsAt, TimeOrdered;
    var c := CatalogOf(s);
    RunIsLoad(s, w, threshold, digest, items);
    OneByOneIsLoad(t, digest, items);
    LoadExact(c, w, threshold, digest, items);
    LoadExact(c, EMPTY_WINDOW, 1, digest, items);
    if OneByOne(t, items).Ok? {
      forall n: nat | n <= |items| && CommitsAt(w, threshold, digest, items, n) ensures OrderedAfter(c, items, n) {
        if n > 0 {
          CommitsEverywhere(digest, items, n);
        } else {
          AtStart(c, w, threshold, digest, items);
        }
      }
    } else if OneByOne(t, items) != Err(TimeOrder) {
      SameRefusal(c, w, threshold, digest, items);
    }
  }

  lemma AtStart(c: Catalog, w: Window, threshold: nat, digest: Digest, items: seq<Item>)
    requires (w.pending != 0 ==> TimeOrdered(c.frames)) && CommitsAt(w, threshold, digest, items, 0)
    ensures OrderedAfter(c, items, 0)
  {
    hide TimeOrdered;
  }

  /**
   Accepted items, two loads: they end alike exactly if the catalog is in time order after every put
   or out of it at a moment the batches commit too.
   */
  lemma AgreesWithOneByOne(s: StoreState, threshold: nat, digest: Digest, items: seq<Item>)
    requires Coherent(s) && KeysWellFormed(items) && (forall k :: k in s.index ==> s.index[k].committed)
    requires Accepted(CatalogOf(s), items)
    ensures (BulkRun(s, EMPTY_WINDOW, threshold, digest, items).Ok? <==> OneByOne(s, items).Ok?) <==>
            AlwaysOrdered(CatalogOf(s), items)
                || !OrderedAtCommits(CatalogOf(s), EMPTY_WINDOW, threshold, digest, items)
    ensures OneByOne(s, items).Ok? <==> AlwaysOrdered(CatalogOf(s), items)
  {
    hide Coherent, BulkRun, OneByOne, Load, CatalogOf, AlwaysOrdered, OrderedAtCommits, Accepted;
    AllCommittedFits(s, digest);
    RunIsLoad(s, EMPTY_WINDOW, threshold, digest, items);
    OneByOneIsLoad(s, digest, items);
    LoadExact(CatalogOf(s), EMPTY_WINDOW, threshold, digest, items);
    AgreesExactly(CatalogOf(s), threshold, digest, items);
    AcceptedErrors(CatalogOf(s), EMPTY_WINDOW, threshold, digest, items);
    AcceptedErrors(CatalogOf(s), EMPTY_WINDOW, 1, digest, items);
  }

  /** Items that come oldest first load for every threshold and digest, if their puts are accepted. */
  lemma OldestFirstLoads(s: StoreState, w: Window, threshold: nat, digest: Digest, items: seq<Item>)
    requires Coherent(s) && WindowFits(s, w, digest) && KeysWellFormed(items)
    requires TimeOrdered(s.file.frames) && OldestFirst(s.file.frames, items)
    ensures BulkRun(s, w, threshold, digest, items).Ok? <==> Accepted(CatalogOf(s), items)
  {
    CatalogFrames(s);
    hide Coherent, WindowFits, BulkRun, Load, CatalogOf, TimeOrdered, OldestFirst, Accepted;
    RunIsLoad(s, w, threshold, digest, items);
    OldestFirstSucceeds(CatalogOf(s), w, threshold, digest, items);
  }

  /** No load, for any threshold and digest, ever meets the same-batch restriction. */
  lemma LoadNeverNotYetCommitted(s: StoreState, w: Window, threshold: nat, digest: Digest, items: seq<Item>)
    requires Coherent(s) && WindowFits(s, w, digest) && KeysWellFormed(items)
    ensures BulkRun(s, w, threshold, digest, items) != Err(NotYetCommitted)
  {
    hide Coherent, WindowFits, BulkRun, Load, CatalogOf;
    RunIsLoad(s, w, threshold, digest, items);
    LoadErrors(CatalogOf(s), w, threshold, digest, items);
  }

  // ------------------------------------------------------------------ the same records

  function SpecItem(item: Item): Op
  {
    Put(item.coll, item.key, item.rec, item.now)
  }

  /** What a sequence of puts does to the map. */
  function SpecItems(a: Abstract, items: seq<Item>): Abstract
    decreases |items|
  {
    if items == [] then a else SpecItems(SpecStep(a, SpecItem(items[0])), items[1..])
  }

  lemma CommitRefines(s: StoreState, a: Abstract)
    requires Coherent(s) && Represents(s, a) && CommitOf(s, true).Ok?
    ensures Represents(CommitOf(s, true).value, a)
  {
    CommitVerdict(s);
    assert CommitOf(s, true).value.reg.collections == CatalogOf(CommitOf(s, true).value).collections;
    forall k ensures Lookup(CommitOf(s, true).value, k) == Lookup(s, k) { CommitMeaning(s, true, k); }
    hide Coherent, CommitOf, Lookup, Represents;
    SameRecords(s, a, CommitOf(s, true).value);
  }

  lemma FlushRefines(s: StoreState, w: Window, a: Abstract)
    requires Coherent(s) && Represents(s, a) && FlushTo(s, w, true).Ok?
    ensures Represents(FlushTo(s, w, true).value.0, a)
  {
    hide Coherent, CommitOf, Represents;
    if w.pending != 0 { CommitRefines(s, a); }
  }

  lemma BulkPutRefines(s: StoreState, w: Window, a: Abstract, threshold: nat, digest: Digest, item: Item)
    requires Coherent(s) && Represents(s, a) && WellFormed(item.key)
             && BulkPutTo(s, w, threshold, digest, item, true).Ok?
    ensures Represents(BulkPutTo(s, w, threshold, digest, item, true).value.0, SpecStep(a, SpecItem(item)))
  {
    hide Coherent, FlushTo, Represents, PutTo, SpecStep;
    PreparedCoherent(s, w, digest, item, true);
    var p := Prepared(s, w, digest, item, true).value;
    if digest(item.coll, item.key) in w.seen { FlushRefines(s, w, a); }
    PutRefines(p.0, a, item.coll, item.key, item.rec, item.now);
    PutCoherent(p.0, item.coll, item.key, item.rec, item.now);
    var t, w' := PutTo(p.0, item.coll, item.key, item.rec, item.now).value, Noted(p.1, digest, item);
    if w'.pending >= threshold { FlushRefines(t, w', SpecStep(a, SpecItem(item))); }
  }

  /** A bulk load leaves each key with the record its last put gave it, whatever the batching. */
  lemma {:induction false} BulkRunRefines(s: StoreState, w: Window, a: Abstract, threshold: nat, digest: Digest,
      items: seq<Item>)
    requires Coherent(s) && Represents(s, a) && KeysWellFormed(items) && BulkRun(s, w, threshold, digest, items).Ok?
    ensures Represents(BulkRun(s, w, threshold, digest, items).value, SpecItems(a, items))
    decreases |items|
  {
    hide Coherent, Represents, BulkPutTo, FlushTo, SpecStep;
    if items == [] {
      FlushRefines(s, w, a);
    } else {
      BulkPutCoherent(s, w, threshold, digest, items[0], true);
      BulkPutRefines(s, w, a, threshold, digest, items[0]);
      var r := BulkPutTo(s, w, threshold, digest, items[0], true).value;
      BulkRunRefines(r.0, r.1, SpecStep(a, SpecItem(items[0])), threshold, digest, items[1..]);
    }
  }

  lemma {:induction false} OneByOneRefines(s: StoreState, a: Abstract, items: seq<Item>)
    requires Coherent(s) && Represents(s, a) && KeysWellFormed(items) && OneByOne(s, items).Ok?
    ensures Represents(OneByOne(s, items).value, SpecItems(a, items))
    decreases |items|
  {
    hide Coherent, Represents, PutTo, CommitOf, SpecStep;
    if items != [] {
      var item := items[0];
      PutCommittedCoherent(s, item);
      PutRefines(s, a, item.coll, item.key, item.rec, item.now);
      PutCoherent(s, item.coll, item.key, item.rec, item.now);
      CommitRefines(PutTo(s, item.coll, item.key, item.rec, item.now).value, SpecStep(a, SpecItem(item)));
      OneByOneRefines(PutCommitted(s, item).value, SpecStep(a, SpecItem(item)), items[1..]);
    }
  }

  /** After the last flush every key holds what committing each put would have left. */
  lemma BulkEqualsOneByOne(s: StoreState, a: Abstract, threshold: nat, digest: Digest, items: seq<Item>, coll: string,
      key: Bytes)
    requires Coherent(s) && Represents(s, a) && (forall k :: k in s.index ==> s.index[k].committed)
             && KeysWellFormed(items)
    requires OneByOne(s, items).Ok?
    ensures BulkRun(s, EMPTY_WINDOW, threshold, digest, items).Ok?
    ensures RecordIn(BulkRun(s, EMPTY_WINDOW, threshold, digest, items).value, coll, key) ==
            RecordIn(OneByOne(s, items).value, coll, key)
  {
    AllCommittedFits(s, digest);
    BatchSizeIndependent(s, EMPTY_WINDOW, s, threshold, digest, items);
    BulkRunRefines(s, EMPTY_WINDOW, a, threshold, digest, items);
    OneByOneRefines(s, a, items);
    var x, y, b := BulkRun(s, EMPTY_WINDOW, threshold, digest, items).value, OneByOne(s, items).value,
      SpecItems(a, items);
    assert RecordIn(x, coll, key) == AbstractIn(b, coll, key) == RecordIn(y, coll, key) by {
      hide Coherent, BulkRun, OneByOne, SpecItems, RecordIn, AbstractIn;
    }
  }

  // ------------------------------------------------------------------ what a threshold can change

  const TINY_COLLECTIONS := map["m" := CollectionRecord(0, Some(Shape([])), None)]

  const TINY_STORE := StoreState(EMPTY_FILE.(collections := [CollectionDesc("m", 0)]),
                                 Registry(map[], {}, TINY_COLLECTIONS), map[], [], [])

  function TinyItem(x: Byte, at: int): Item
  {
    Item("m", Raw([x]), Record([], Some(at), None), 0)
  }

  function TinyFrame(x: Byte, at: int): Frame
  {
    Frame(0, Document, Some([TAG_BYTES, x]), [], at, None, true)
  }

  function TinyDigest(coll: string, key: Key): nat
  {
    if key.Raw? && key.bytes != [] then key.bytes[0] else 0
  }

  function TinyKey(x: Byte): KeyRef
  {
    (0, [TAG_BYTES, x])
  }

  function TinyCatalog(frames: seq<Frame>, live: map<KeyRef, FrameId>): Catalog
  {
    Catalog(frames, TINY_COLLECTIONS, {}, {}, live)
  }

  const A: Byte := 1
  const B: Byte := 2
  const C: Byte := 3

  const TINY_ITEMS := [TinyItem(C, 0), TinyItem(A, 5), TinyItem(B, 3), TinyItem(A, 6)]

  const CAT0 := TinyCatalog([], map[])
  const CAT1 := TinyCatalog([TinyFrame(C, 0)], map[TinyKey(C) := 0])
  const CAT2 := TinyCatalog([TinyFrame(C, 0), TinyFrame(A, 5)], map[TinyKey(C) := 0, TinyKey(A) := 1])
  const CAT3 := TinyCatalog([TinyFrame(C, 0), TinyFrame(A, 5), TinyFrame(B, 3)],
                            map[TinyKey(C) := 0, TinyKey(A) := 1, TinyKey(B) := 2])
  const CAT4 := TinyCatalog([TinyFrame(C, 0), TinyFrame(A, 5).(active := false), TinyFrame(B, 3), TinyFrame(A, 6)],
                            map[TinyKey(C) := 0, TinyKey(A) := 3, TinyKey(B) := 2])

  lemma TinyPut(frames: seq<Frame>, live: map<KeyRef, FrameId>, x: Byte, t: int)
    ensures var c := TinyCatalog(frames, live);
            var left := if TinyKey(x) in live && live[TinyKey(x)] < |frames| then KilledFrame(frames, live[TinyKey(x)])
              else frames;
            CatPut(c, TinyItem(x, t)) == Ok(TinyCatalog(left + [TinyFrame(x, t)], live[TinyKey(x) := |frames|]))
  {
    var c, item := TinyCatalog(frames, live), TinyItem(x, t);
    assert PlanFor(RegistryOf(c), item.coll, item.rec) == Ok(PutPlan(0, [], []));
    assert Encode(item.key) == TinyKey(x).1;
    hide PlanFor, Encode, KilledFrame;
  }

  lemma TinyKeysDiffer()
    ensures TinyKey(A) != TinyKey(B) && TinyKey(A) != TinyKey(C) && TinyKey(B) != TinyKey(C)
  {
    assert TinyKey(A).1[1] == 1 && TinyKey(B).1[1] == 2 && TinyKey(C).1[1] == 3;
  }

  lemma TinySteps()
    ensures CatPut(CAT0, TinyItem(C, 0)) == Ok(CAT1) && CatPut(CAT1, TinyItem(A, 5)) == Ok(CAT2)
    ensures CatPut(CAT2, TinyItem(B, 3)) == Ok(CAT3) && CatPut(CAT3, TinyItem(A, 6)) == Ok(CAT4)
  {
    TinyKeysDiffer();
    TinyPut(CAT0.frames, CAT0.live, C, 0);
    TinyPut(CAT1.frames, CAT1.live, A, 5);
    TinyPut(CAT2.frames, CAT2.live, B, 3);
    TinyPut(CAT3.frames, CAT3.live, A, 6);
    hide CatPut, TinyKey, TinyItem;
    assert CAT0.live[TinyKey(C) := 0] == CAT1.live && CAT1.live[TinyKey(A) := 1] == CAT2.live;
    assert CAT2.live[TinyKey(B) := 2] == CAT3.live && CAT3.live[TinyKey(A) := 3] == CAT4.live;
    assert CAT0.frames + [TinyFrame(C, 0)] == CAT1.frames && CAT1.frames + [TinyFrame(A, 5)] == CAT2.frames;
    assert CAT2.frames + [TinyFrame(B, 3)] == CAT3.frames
      && KilledFrame(CAT3.frames, 1) + [TinyFrame(A, 6)] == CAT4.frames;
  }

  lemma TinyOrders()
    ensures TimeOrdered(CAT1.frames) && TimeOrdered(CAT2.frames) && TimeOrdered(CAT4.frames)
            && !TimeOrdered(CAT3.frames)
  {
    assert CAT3.frames[1].createdAt > CAT3.frames[2].createdAt;
  }

  lemma TinyCoherent()
    ensures Coherent(TINY_STORE)
  {
  }

  lemma TinyStart(digest: Digest)
    ensures Coherent(TINY_STORE) && CatalogOf(TINY_STORE) == CAT0 && KeysWellFormed(TINY_ITEMS)
    ensures forall k :: k in TINY_STORE.index ==> TINY_STORE.index[k].committed
    ensures WindowFits(TINY_STORE, EMPTY_WINDOW, digest)
  {
    TinyCoherent();
    hide Coherent, Covered;
    assert CatalogOf(TINY_STORE).live == map[];
    assert CatalogOf(TINY_STORE).vectorSpaces == {};
  }

  lemma TinyTails()
    ensures TINY_ITEMS[0] == TinyItem(C, 0) && TINY_ITEMS[1..][0] == TinyItem(A, 5)
    ensures TINY_ITEMS[1..][1..] == TINY_ITEMS[2..] && TINY_ITEMS[2..][0] == TinyItem(B, 3)
    ensures TINY_ITEMS[2..][1..] == TINY_ITEMS[3..] && TINY_ITEMS[3..][0] == TinyItem(A, 6)
            && TINY_ITEMS[3..][1..] == []
  {
  }

  /** Committing after the third put meets `b` at 3 behind a live `a` at 5. */
  lemma OneByOneOutOfOrder()
    ensures Coherent(TINY_STORE) && KeysWellFormed(TINY_ITEMS) && OneByOne(TINY_STORE, TINY_ITEMS) == Err(TimeOrder)
  {
    TinyStart(TinyDigest);
    OneByOneIsLoad(TINY_STORE, TinyDigest, TINY_ITEMS);
    TinySteps();
    TinyOrders();
    TinyTails();
    hide Coherent, TimeOrdered, CatPut, TinyItem, TinyCatalog, OneByOne, CatalogOf;
    assert Load(CAT2, EMPTY_WINDOW, 1, TinyDigest, TINY_ITEMS[2..]) == Err(TimeOrder);
    assert Load(CAT1, EMPTY_WINDOW, 1, TinyDigest, TINY_ITEMS[1..]) == Err(TimeOrder);
  }

  lemma TinyWindows()
    ensures WindowAfter(EMPTY_WINDOW, 2, TinyDigest, TinyItem(C, 0)) == Window(1, {3})
    ensures CommitsAfter(Window(1, {3}), 2, TinyDigest, TinyItem(A, 5))
            && WindowAfter(Window(1, {3}), 2, TinyDigest, TinyItem(A, 5)) == EMPTY_WINDOW
    ensures !CommitsAfter(EMPTY_WINDOW, 2, TinyDigest, TinyItem(B, 3))
            && WindowAfter(EMPTY_WINDOW, 2, TinyDigest, TinyItem(B, 3)) == Window(1, {2})
    ensures WindowAfter(Window(1, {2}), 2, TinyDigest, TinyItem(A, 6)) == EMPTY_WINDOW
    ensures !CommitsAfter(EMPTY_WINDOW, 2, TinyDigest, TinyItem(C, 0))
    ensures !CommitsBefore(Window(1, {3}), TinyDigest, TinyItem(A, 5))
            && !CommitsBefore(Window(1, {2}), TinyDigest, TinyItem(A, 6))
  {
  }

  /** Two batches of two never look at that moment, and succeed. */
  lemma BatchesOfTwoInOrder()
    ensures Coherent(TINY_STORE) && KeysWellFormed(TINY_ITEMS)
            && BulkRun(TINY_STORE, EMPTY_WINDOW, 2, TinyDigest, TINY_ITEMS).Ok?
  {
    TinyStart(TinyDigest);
    RunIsLoad(TINY_STORE, EMPTY_WINDOW, 2, TinyDigest, TINY_ITEMS);
    TinySteps();
    TinyOrders();
    TinyTails();
    TinyWindows();
    hide Coherent, TimeOrdered, CatPut, TinyItem, TinyCatalog, BulkRun, CatalogOf, WindowAfter, CommitsAfter;
    assert Load(CAT4, EMPTY_WINDOW, 2, TinyDigest, []).Ok?;
    assert Load(CAT3, Window(1, {2}), 2, TinyDigest, TINY_ITEMS[3..]).Ok?;
    assert Load(CAT2, EMPTY_WINDOW, 2, TinyDigest, TINY_ITEMS[2..]).Ok?;
    assert Load(CAT1, Window(1, {3}), 2, TinyDigest, TINY_ITEMS[1..]).Ok?;
  }
}
