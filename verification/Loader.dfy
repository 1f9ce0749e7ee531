/**
 Bulk ingest (`src/db/loader.rs`): puts grouped into commits by a threshold, with a flush before any
 key that may already be in the current window.
 */
module Loader {
  import opened Basics
  import opened Keys
  import opened Engine
  import opened Identity
  import opened SchemaDoc
  import opened Schema
  import opened Store
  import opened StoreProofs
  import opened StoreView
  import opened StoreRuns
  import Compact
  import Writer

  datatype Item = Item(coll: string, key: Key, rec: Record, now: int)

  /** A 64-bit digest of collection and key.  Nothing is assumed of it: distinct keys may collide. */
  type Digest = (string, Key) -> nat

  datatype Window = Window(pending: nat, seen: set<nat>)

  const EMPTY_WINDOW := Window(0, {})

  // ------------------------------------------------------------------ the operations, on values

  function FlushTo(s: StoreState, w: Window, fsyncOk: bool): Result<(StoreState, Window)>
    requires Coherent(s)
  {
    if w.pending == 0 then Ok((s, w))
    else
      match CommitOf(s, fsyncOk)
      case Ok(t) => Ok((t, EMPTY_WINDOW))
      case Err(e) => Err(e)
  }

  lemma FlushToCoherent(s: StoreState, w: Window, fsyncOk: bool)
    requires Coherent(s) && FlushTo(s, w, fsyncOk).Ok?
    ensures Coherent(FlushTo(s, w, fsyncOk).value.0)
  {
    hide Coherent, CommitOf;
    if w.pending != 0 { CommitCoherent(s, fsyncOk); }
  }

  /** The flush a repeated digest forces. */
  function Prepared(s: StoreState, w: Window, digest: Digest, item: Item, fsyncOk: bool): Result<(StoreState, Window)>
    requires Coherent(s)
  {
    if digest(item.coll, item.key) in w.seen then FlushTo(s, w, fsyncOk) else Ok((s, w))
  }

  function Noted(w: Window, digest: Digest, item: Item): Window
  {
    Window(w.pending + 1, w.seen + {digest(item.coll, item.key)})
  }

  function BulkPutTo(s: StoreState, w: Window, threshold: nat, digest: Digest, item: Item,
      fsyncOk: bool): Result<(StoreState, Window)>
    requires Coherent(s) && WellFormed(item.key)
  {
    match Prepared(s, w, digest, item, fsyncOk)
    case Err(e) => Err(e)
    case Ok(p) =>
      PreparedCoherent(s, w, digest, item, fsyncOk);
      match PutTo(p.0, item.coll, item.key, item.rec, item.now)
      case Err(e) => Err(e)
      case Ok(t) =>
        PutCoherent(p.0, item.coll, item.key, item.rec, item.now);
        var w' := Noted(p.1, digest, item);
        if w'.pending >= threshold then FlushTo(t, w', fsyncOk) else Ok((t, w'))
  }

  lemma PreparedCoherent(s: StoreState, w: Window, digest: Digest, item: Item, fsyncOk: bool)
    requires Coherent(s) && Prepared(s, w, digest, item, fsyncOk).Ok?
    ensures Coherent(Prepared(s, w, digest, item, fsyncOk).value.0)
  {
    hide Coherent, FlushTo;
    if digest(item.coll, item.key) in w.seen { FlushToCoherent(s, w, fsyncOk); }
  }

  lemma BulkPutCoherent(s: StoreState, w: Window, threshold: nat, digest: Digest, item: Item, fsyncOk: bool)
    requires Coherent(s) && WellFormed(item.key) && BulkPutTo(s, w, threshold, digest, item, fsyncOk).Ok?
    ensures Coherent(BulkPutTo(s, w, threshold, digest, item, fsyncOk).value.0)
  {
    hide Coherent, Prepared, PutTo, FlushTo;
    PreparedCoherent(s, w, digest, item, fsyncOk);
    var p := Prepared(s, w, digest, item, fsyncOk).value;
    PutCoherent(p.0, item.coll, item.key, item.rec, item.now);
    var t := PutTo(p.0, item.coll, item.key, item.rec, item.now).value;
    var w' := Noted(p.1, digest, item);
    if w'.pending >= threshold { FlushToCoherent(t, w', fsyncOk); }
  }

  // ------------------------------------------------------------------ the loader object

  class Bulk {
    const writer: Writer.WriterCore
    const digest: Digest
    const threshold: nat
    var pending: nat
    var seen: set<nat>

    constructor (writer: Writer.WriterCore, digest: Digest, threshold: nat)
      ensures this.writer == writer && this.digest == digest
      ensures this.threshold >= 1 && (threshold >= 1 ==> this.threshold == threshold)
      ensures Current() == EMPTY_WINDOW
    {
      this.writer, this.digest := writer, digest;
      this.threshold := if threshold == 0 then 1 else threshold;
      pending, seen := 0, {};
    }

    function Current(): Window
      reads this
    {
      Window(pending, seen)
    }

    /** Commits the window; after an error the caller discards the batch. */
    method Flush(fsyncOk: bool) returns (r: Result<()>)
      requires Coherent(writer.State())
      modifies this, writer, writer.file, writer.identity
      ensures var spec := FlushTo(old(writer.State()), old(Current()), fsyncOk);
              && (spec.Ok? ==> r == Ok(()) && writer.State() == spec.value.0 && Current() == spec.value.1)
              && (spec.Err? ==> r == Err(spec.error))
    {
      if pending == 0 { return Ok(()); }
      r := writer.Commit(fsyncOk);
      if r.Err? { return; }
      pending, seen := 0, {};
    }

    method Put(item: Item, fsyncOk: bool) returns (r: Result<()>)
      requires Coherent(writer.State()) && WellFormed(item.key)
      modifies this, writer, writer.file, writer.identity
      ensures var spec := BulkPutTo(old(writer.State()), old(Current()), threshold, digest, item, fsyncOk);
              && (spec.Ok? ==> r == Ok(()) && writer.State() == spec.value.0 && Current() == spec.value.1)
              && (spec.Err? ==> r == Err(spec.error))
    {
      hide Coherent, FlushTo, PutTo;
      PreparedNote(writer.State(), Current(), digest, item, fsyncOk);
      var d := digest(item.coll, item.key);
      if d in seen {
        r := Flush(fsyncOk);
        if r.Err? { return; }
      }
      r := writer.Put(item.coll, item.key, item.rec, item.now);
      if r.Err? { return; }
      PutNote(old(writer.State()), old(Current()), digest, item, fsyncOk);
      seen := seen + {d};
      pending := pending + 1;
      if pending >= threshold {
        r := Flush(fsyncOk);
      }
    }
  }

  lemma PreparedNote(s: StoreState, w: Window, digest: Digest, item: Item, fsyncOk: bool)
    requires Coherent(s)
    ensures Prepared(s, w, digest, item, fsyncOk).Ok? ==> Coherent(Prepared(s, w, digest, item, fsyncOk).value.0)
  {
    hide *;
    if Prepared(s, w, digest, item, fsyncOk).Ok? { PreparedCoherent(s, w, digest, item, fsyncOk); }
  }

  lemma PutNote(s: StoreState, w: Window, digest: Digest, item: Item, fsyncOk: bool)
    requires Coherent(s) && WellFormed(item.key) && Prepared(s, w, digest, item, fsyncOk).Ok?
    ensures Coherent(Prepared(s, w, digest, item, fsyncOk).value.0)
    ensures var p := PutTo(Prepared(s, w, digest, item, fsyncOk).value.0, item.coll, item.key, item.rec, item.now);
            p.Ok? ==> Coherent(p.value)
  {
    PreparedCoherent(s, w, digest, item, fsyncOk);
    var p := Prepared(s, w, digest, item, fsyncOk).value;
    hide *;
    if PutTo(p.0, item.coll, item.key, item.rec, item.now).Ok? {
      PutCoherent(p.0, item.coll, item.key, item.rec, item.now);
    }
  }

  // ------------------------------------------------------------------ never "not yet committed"

  /** The key of an uncommitted entry was put, under its digest, in this window. */
  ghost predicate Covered(reg: Registry, seen: set<nat>, digest: Digest, k: KeyRef)
  {
    exists coll, key ::
      coll in reg.collections && WellFormed(key) && reg.collections[coll].id == k.0 && Encode(key) == k.1
      && digest(coll, key) in seen
  }

  ghost predicate WindowFits(s: StoreState, w: Window, digest: Digest)
  {
    && (w.pending == 0 ==> w.seen == {})
    && forall k :: k in s.index && !s.index[k].committed ==> Covered(s.reg, w.seen, digest, k)
  }

  /** A digest not seen means the key has no uncommitted version. */
  lemma UnseenIsCommitted(s: StoreState, w: Window, digest: Digest, coll: string, key: Key)
    requires Coherent(s) && WindowFits(s, w, digest) && WellFormed(key)
    requires coll in s.reg.collections && digest(coll, key) !in w.seen
    ensures var k := (s.reg.collections[coll].id, Encode(key)); k in s.index ==> s.index[k].committed
  {
    var k := (s.reg.collections[coll].id, Encode(key));
    DistinctIds(s, coll);
    hide Coherent, WellFormed, Encode;
    if k in s.index && !s.index[k].committed {
      var coll', key' :| coll' in s.reg.collections && WellFormed(key') && s.reg.collections[coll'].id == k.0
                         && Encode(key') == k.1 && digest(coll', key') in w.seen;
      EncodeInjective(key, key');
    }
  }

  lemma FlushedWindowFits(s: StoreState, w: Window, digest: Digest, fsyncOk: bool)
    requires Coherent(s) && WindowFits(s, w, digest) && FlushTo(s, w, fsyncOk).Ok?
    ensures var r := FlushTo(s, w, fsyncOk).value;
            WindowFits(r.0, r.1, digest) && (w.pending != 0 || w.seen == {} ==> r.1.seen == {})
  {
    if w.pending != 0 { CommitCoherent(s, fsyncOk); }
    hide Coherent, CommitOf;
  }

  lemma PutWindowFits(s: StoreState, w: Window, digest: Digest, item: Item)
    requires Coherent(s) && WindowFits(s, w, digest) && WellFormed(item.key)
    requires PutTo(s, item.coll, item.key, item.rec, item.now).Ok?
    ensures WindowFits(PutTo(s, item.coll, item.key, item.rec, item.now).value, Noted(w, digest, item), digest)
  {
    var t := PutTo(s, item.coll, item.key, item.rec, item.now).value;
    PutKeepsCollections(s, item.coll, item.key, item.rec, item.now);
    var k := (s.reg.collections[item.coll].id, Encode(item.key));
    PutIndex(s, item);
    var w' := Noted(w, digest, item);
    hide Coherent, PutTo, WellFormed, Encode;
    forall j | j in t.index && !t.index[j].committed ensures Covered(t.reg, w'.seen, digest, j) {
      if j != k {
        assert Covered(s.reg, w.seen, digest, j);
        var coll', key' :| coll' in s.reg.collections && WellFormed(key') && s.reg.collections[coll'].id == j.0
                           && Encode(key') == j.1 && digest(coll', key') in w.seen;
        assert digest(coll', key') in w'.seen;
      }
    }
  }

  lemma PutIndex(s: StoreState, item: Item)
    requires Coherent(s) && PutTo(s, item.coll, item.key, item.rec, item.now).Ok?
    ensures item.coll in s.reg.collections
    ensures var k := (s.reg.collections[item.coll].id, Encode(item.key));
            var t := PutTo(s, item.coll, item.key, item.rec, item.now).value;
            && t.index.Keys == s.index.Keys + {k} && t.index[k].frame == |s.file.frames|
            && forall j :: j in s.index && j != k ==> t.index[j] == s.index[j]
  {
    hide IsKey, WellFormedFile, EntriesListVectors, OwnersLive, SchemaFits, CommitStatus, StagedFits, CollectionsFit,
         FirstFieldError, NamedVectors, ReadyPart, DeferredPart, Encode;
  }

  /** Whatever the threshold and the digest, no put of a bulk load meets the same-batch restriction. */
  lemma NeverNotYetCommitted(s: StoreState, w: Window, threshold: nat, digest: Digest, item: Item)
    requires Coherent(s) && WindowFits(s, w, digest) && WellFormed(item.key)
    ensures BulkPutTo(s, w, threshold, digest, item, true) != Err(NotYetCommitted)
    ensures BulkPutTo(s, w, threshold, digest, item, true).Ok? ==>
              var r := BulkPutTo(s, w, threshold, digest, item, true).value; WindowFits(r.0, r.1, digest)
  {
    if Prepared(s, w, digest, item, true).Ok? {
      PreparedFits(s, w, digest, item);
      PreparedCoherent(s, w, digest, item, true);
      var p := Prepared(s, w, digest, item, true).value;
      PutNotBlocked(p.0, item);
      if PutTo(p.0, item.coll, item.key, item.rec, item.now).Ok? {
        PutWindowFits(p.0, p.1, digest, item);
        PutCoherent(p.0, item.coll, item.key, item.rec, item.now);
        var t, w' := PutTo(p.0, item.coll, item.key, item.rec, item.now).value, Noted(p.1, digest, item);
        if w'.pending >= threshold && FlushTo(t, w', true).Ok? { FlushedWindowFits(t, w', digest, true); }
      }
    }
    hide Coherent, PutTo, WindowFits, Flushed;
  }

  /** Before the put itself, the key's current version, if any, is committed. */
  ghost predicate Unblocked(s: StoreState, item: Item)
  {
    item.coll in s.reg.collections ==>
      var k := (s.reg.collections[item.coll].id, Encode(item.key)); k in s.index ==> s.index[k].committed
  }

  lemma PreparedFits(s: StoreState, w: Window, digest: Digest, item: Item)
    requires Coherent(s) && WindowFits(s, w, digest) && WellFormed(item.key) && Prepared(s, w, digest, item, true).Ok?
    ensures var p := Prepared(s, w, digest, item, true).value; WindowFits(p.0, p.1, digest) && Unblocked(p.0, item)
  {
    PreparedCoherent(s, w, digest, item, true);
    var p := Prepared(s, w, digest, item, true).value;
    if digest(item.coll, item.key) in w.seen { FlushedWindowFits(s, w, digest, true); }
    assert digest(item.coll, item.key) !in p.1.seen;
    hide Coherent, FlushTo;
    if item.coll in p.0.reg.collections { UnseenIsCommitted(p.0, p.1, digest, item.coll, item.key); }
  }

  lemma PutNotBlocked(s: StoreState, item: Item)
    requires Coherent(s) && Unblocked(s, item)
    ensures PutTo(s, item.coll, item.key, item.rec, item.now) != Err(NotYetCommitted)
  {
    PlanErrors(s.reg, item.coll, item.rec);
    hide Coherent, PlanFor;
  }

  lemma PlanErrors(reg: Registry, coll: string, rec: Record)
    ensures PlanFor(reg, coll, rec) != Err(NotYetCommitted) && PlanFor(reg, coll, rec) != Err(TimeOrder)
    ensures PlanFor(reg, coll, rec).Ok? ==>
            coll in reg.collections && PlanFor(reg, coll, rec).value.coll == reg.collections[coll].id
  {
    if coll in reg.collections && reg.collections[coll].shape.Some? {
      FieldErrors(reg.collections[coll].shape.value, rec.fields);
    }
  }

  lemma {:induction false} FieldErrors(shape: Shape, fields: seq<(string, Value)>)
    ensures FirstFieldError(shape, fields) in {None, Some(UnknownField), Some(KindMismatch), Some(DimensionMismatch)}
  {
    if fields != [] { FieldErrors(shape, fields[1..]); }
  }
}
