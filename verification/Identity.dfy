/**
 The identity index: record key to current engine ids (`src/db/identity.rs`).  It is never
 persisted; `Rebuild` recovers it from the active frames and vectors of a file.
 */
module Identity {
  import opened Basics
  import opened Keys
  import opened Engine

  datatype Entry = Entry(frame: FrameId, vectors: seq<(SpaceId, VectorId)>, committed: bool)

  type Index = map<KeyRef, Entry>

  // ------------------------------------------------------------------ a plain scan of the file

  /** The key a frame is live under: it is active and carries a uri this layer wrote. */
  function LiveKey(f: Frame): Option<KeyRef>
  {
    if f.active && f.uri.Some? && IsKey(f.uri.value) then Some((f.coll, f.uri.value)) else None
  }

  /** The same, as a scan of the file finds it: only flushed frames have a readable uri. */
  function KeyAt(fs: FileState, i: FrameId): (k: Option<KeyRef>)
    requires i < |fs.frames|
    ensures k == if ReadUri(fs, i).Some? then LiveKey(fs.frames[i]) else None
  {
    if i < fs.flushedFrames then LiveKey(fs.frames[i]) else None
  }

  /** One entry per key live below `n`, pointing at the newest frame live under it. */
  function FramesIndexed(fs: FileState, n: nat): Index
    requires n <= |fs.frames|
  {
    if n == 0 then map[]
    else
      var before := FramesIndexed(fs, n - 1);
      var k := KeyAt(fs, n - 1);
      if k.Some? then before[k.value := Entry(n - 1, [], true)] else before
  }

  /** Those of `ids` whose owner is live under `k`, tagged with their space. */
  function OwnedAmong(fs: FileState, k: KeyRef, space: SpaceId, ids: seq<VectorId>): (r: seq<(SpaceId, VectorId)>)
    requires OwnersKnown(fs)
    requires forall j :: 0 <= j < |ids| ==> ids[j] < |fs.vectors|
  {
    if ids == [] then []
    else
      var v := ids[|ids| - 1];
      OwnedAmong(fs, k, space, ids[..|ids| - 1])
      + (if KeyAt(fs, fs.vectors[v].owner) == Some(k) then [(space, v)] else [])
  }

  /** All active vectors of spaces below `n` owned by frames live under `k`, space by space. */
  function OwnedRefs(fs: FileState, k: KeyRef, n: nat): (r: seq<(SpaceId, VectorId)>)
    requires OwnersKnown(fs) && n <= |fs.spaces|
  {
    if n == 0 then []
    else
      OwnedRefs(fs, k, n - 1) + OwnedAmong(fs, k, n - 1, ActiveIds(fs, n - 1))
  }

  function ActiveIds(fs: FileState, space: SpaceId): (ids: seq<VectorId>)
    ensures Distinct(ids)
    ensures forall j :: 0 <= j < |ids| ==> ids[j] < |fs.vectors|
    ensures forall v: nat :: v in ids <==> v < |fs.vectors| && fs.vectors[v].active && fs.vectors[v].space == space
  {
    var ids := ActiveVectors(fs, space, |fs.vectors|);
    assert forall j :: 0 <= j < |ids| ==> ids[j] in ids;
    ids
  }

  /** `m` with the vectors of each entry replaced by the live vectors of spaces below `n`. */
  function WithVectors(fs: FileState, m: Index, n: nat): Index
    requires OwnersKnown(fs) && n <= |fs.spaces|
  {
    map k | k in m :: m[k].(vectors := OwnedRefs(fs, k, n))
  }

  /** What a reopened store sees: the newest live frame of each key, with all its live vectors. */
  function RebuiltIndex(fs: FileState): Index
    requires OwnersKnown(fs)
  {
    WithVectors(fs, FramesIndexed(fs, |fs.frames|), |fs.spaces|)
  }

  // ------------------------------------------------------------------ updates, on values

  /** Entries named in `dirty` become committed. */
  function Marked(m: Index, dirty: seq<KeyRef>): Index
  {
    map k | k in m :: if k in dirty then m[k].(committed := true) else m[k]
  }

  /** Adds each pushed vector to its entry, in order; pushes to missing keys vanish. */
  function Pushed(m: Index, k: KeyRef, ref: (SpaceId, VectorId)): Index
  {
    if k in m then m[k := m[k].(vectors := m[k].vectors + [ref])] else m
  }

  function WithoutCollection(m: Index, c: CollectionId): Index
  {
    map k | k in m && k.0 != c :: m[k]
  }

  function OutsideCollection(dirty: seq<KeyRef>, c: CollectionId): (r: seq<KeyRef>)
    ensures forall k :: k in r <==> k in dirty && k.0 != c
  {
    if dirty == [] then []
    else OutsideCollection(dirty[..|dirty| - 1], c) + (if dirty[|dirty| - 1].0 != c then [dirty[|dirty| - 1]] else [])
  }

  // ------------------------------------------------------------------ the index object

  class IdentityIndex {
    /** The source nests this map by collection; the pair of collection and key is the key here. */
    var entries: Index
    /** Keys inserted as uncommitted since the last commit. */
    var uncommitted: seq<KeyRef>

    constructor ()
      ensures entries == map[] && uncommitted == []
    {
      entries, uncommitted := map[], [];
    }

    function Get(k: KeyRef): (r: Option<Entry>)
      reads this
      ensures r == None <==> k !in entries
    {
      if k in entries then Some(entries[k]) else None
    }

    /** Keys of `c` that a crash would not erase. */
    function CommittedKeys(c: CollectionId): (r: set<Bytes>)
      reads this
      ensures forall b :: b in r <==> (c, b) in entries && entries[(c, b)].committed
    {
      set k | k in entries && k.0 == c && entries[k].committed :: k.1
    }

    method Insert(k: KeyRef, e: Entry)
      modifies this
      ensures entries == old(entries)[k := e]
      ensures uncommitted == old(uncommitted) + (if e.committed then [] else [k])
    {
      if !e.committed {
        uncommitted := uncommitted + [k];
      }
      entries := entries[k := e];
    }

    method Remove(k: KeyRef) returns (removed: Option<Entry>)
      modifies this
      ensures entries == old(entries) - {k} && uncommitted == old(uncommitted)
      ensures removed == old(Get(k))
    {
      removed := Get(k);
      entries := entries - {k};
    }

    method RemoveCollection(c: CollectionId)
      modifies this
      ensures entries == WithoutCollection(old(entries), c)
      ensures uncommitted == OutsideCollection(old(uncommitted), c)
    {
      entries := WithoutCollection(entries, c);
      var kept := [];
      for i := 0 to |uncommitted|
        invariant kept == OutsideCollection(uncommitted[..i], c)
      {
        assert uncommitted[..i + 1][..i] == uncommitted[..i];
        if uncommitted[i].0 != c {
          kept := kept + [uncommitted[i]];
        }
      }
      assert uncommitted[..|uncommitted|] == uncommitted;
      uncommitted := kept;
    }

    method PushVector(k: KeyRef, space: SpaceId, v: VectorId)
      modifies this
      ensures entries == Pushed(old(entries), k, (space, v)) && uncommitted == old(uncommitted)
    {
      if k in entries {
        entries := entries[k := entries[k].(vectors := entries[k].vectors + [(space, v)])];
      }
    }

    /** Drains the dirty list; cost follows the batch, not the store. */
    method MarkAllCommitted()
      modifies this
      ensures entries == Marked(old(entries), old(uncommitted)) && uncommitted == []
    {
      for i := 0 to |uncommitted|
        invariant uncommitted == old(uncommitted)
        invariant entries == Marked(old(entries), uncommitted[..i])
      {
        var k := uncommitted[i];
        assert uncommitted[..i + 1] == uncommitted[..i] + [k];
        if k in entries {
          entries := entries[k := entries[k].(committed := true)];
        }
      }
      assert uncommitted[..|uncommitted|] == uncommitted;
      uncommitted := [];
    }

    /** Recovers the index from a file with one pass over frames and one over each space. */
    method Rebuild(file: ValiseFile)
      requires OwnersKnown(file.State())
      modifies this
      ensures entries == RebuiltIndex(file.State()) && uncommitted == []
    {
      var fs := file.State();
      entries, uncommitted := map[], [];
      var byFrame := RebuildFrames(fs);
      NoVectorsYet(fs, |fs.frames|);
      ghost var m := entries;
      for space := 0 to |fs.spaces|
        invariant uncommitted == []
        invariant entries == WithVectors(fs, m, space)
      {
        RebuildSpace(fs, m, space, byFrame);
      }
    }

    method RebuildFrames(fs: FileState) returns (byFrame: map<FrameId, KeyRef>)
      requires entries == map[] && uncommitted == []
      modifies this
      ensures byFrame == ByFrame(fs, |fs.frames|)
      ensures entries == FramesIndexed(fs, |fs.frames|) && uncommitted == []
    {
      byFrame := map[];
      for i := 0 to |fs.frames|
        invariant uncommitted == [] && byFrame == ByFrame(fs, i)
        invariant entries == FramesIndexed(fs, i)
      {
        ByFrameStep(fs, i);
        var k := KeyAt(fs, i);
        if k.Some? {
          byFrame := byFrame[i := k.value];
          Insert(k.value, Entry(i, [], true));
        }
      }
    }

    method RebuildSpace(fs: FileState, ghost m: Index, space: SpaceId, byFrame: map<FrameId, KeyRef>)
      requires OwnersKnown(fs) && space < |fs.spaces| && byFrame == ByFrame(fs, |fs.frames|)
      requires entries == WithVectors(fs, m, space) && uncommitted == []
      modifies this
      ensures entries == WithVectors(fs, m, space + 1) && uncommitted == []
    {
      var ids := ActiveIds(fs, space);
      AttachNone(fs, m, space);
      for j := 0 to |ids|
        invariant uncommitted == []
        invariant entries == Attached(fs, m, space, ids[..j])
      {
        assert ids[..j + 1] == ids[..j] + [ids[j]];
        AttachStep(fs, m, space, ids[..j], ids[j]);
        if fs.vectors[ids[j]].owner in byFrame {
          PushVector(byFrame[fs.vectors[ids[j]].owner], space, ids[j]);
        }
      }
      assert ids[..|ids|] == ids;
    }
  }

  /** The transient reverse map: each live frame below `n` with its key. */
  ghost function ByFrame(fs: FileState, n: nat): map<FrameId, KeyRef>
    requires n <= |fs.frames|
  {
    hide KeyAt;
    map j: nat | j < n && KeyAt(fs, j).Some? :: KeyAt(fs, j).value
  }

  lemma ByFrameStep(fs: FileState, i: FrameId)
    requires i < |fs.frames|
    ensures ByFrame(fs, i + 1) ==
            if KeyAt(fs, i).Some? then ByFrame(fs, i)[i := KeyAt(fs, i).value] else ByFrame(fs, i)
  {
  }

  lemma {:induction false} NoVectorsYet(fs: FileState, n: nat)
    requires n <= |fs.frames|
    ensures forall k :: k in FramesIndexed(fs, n) ==> FramesIndexed(fs, n)[k].vectors == []
  {
    if n > 0 {
      NoVectorsYet(fs, n - 1);
    }
  }

  /** Within one space: `m` after the vectors `ids` of `space` have been attached. */
  ghost function Attached(fs: FileState, m: Index, space: SpaceId, ids: seq<VectorId>): Index
    requires OwnersKnown(fs) && space < |fs.spaces|
    requires forall j :: 0 <= j < |ids| ==> ids[j] < |fs.vectors|
  {
    map k | k in m :: m[k].(vectors := OwnedRefs(fs, k, space) + OwnedAmong(fs, k, space, ids))
  }

  lemma AttachNone(fs: FileState, m: Index, space: SpaceId)
    requires OwnersKnown(fs) && space < |fs.spaces|
    ensures Attached(fs, m, space, []) == WithVectors(fs, m, space)
    ensures Attached(fs, m, space, ActiveIds(fs, space)) == WithVectors(fs, m, space + 1)
  {
    forall k | k in m ensures OwnedRefs(fs, k, space) + OwnedAmong(fs, k, space, []) == OwnedRefs(fs, k, space) {
    }
  }

  lemma AttachStep(fs: FileState, m: Index, space: SpaceId, ids: seq<VectorId>, v: VectorId)
    requires OwnersKnown(fs) && space < |fs.spaces| && v < |fs.vectors|
    requires forall j :: 0 <= j < |ids| ==> ids[j] < |fs.vectors|
    ensures var k := KeyAt(fs, fs.vectors[v].owner);
            Attached(fs, m, space, ids + [v]) ==
            if k.Some? then Pushed(Attached(fs, m, space, ids), k.value, (space, v))
            else Attached(fs, m, space, ids)
  {
    hide KeyAt, OwnedRefs;
    var owner := KeyAt(fs, fs.vectors[v].owner);
    forall k | k in m
      ensures Attached(fs, m, space, ids + [v])[k] ==
              if owner == Some(k)
                  then Attached(fs, m, space, ids)[k].(vectors := Attached(fs, m, space, ids)[k].vectors + [(space, v)])
              else Attached(fs, m, space, ids)[k]
    {
      OwnedAmongStep(fs, k, space, ids, v);
      hide OwnedAmong;
      var before, added := OwnedRefs(fs, k, space) + OwnedAmong(fs, k, space, ids), [(space, v)];
      assert OwnedRefs(fs, k, space) + (OwnedAmong(fs, k, space, ids) + added) == before + added;
      assert OwnedRefs(fs, k, space) + (OwnedAmong(fs, k, space, ids) + []) == before;
    }
    hide OwnedAmong;
  }

  lemma OwnedAmongStep(fs: FileState, k: KeyRef, space: SpaceId, ids: seq<VectorId>, v: VectorId)
    requires OwnersKnown(fs) && v < |fs.vectors|
    requires forall j :: 0 <= j < |ids| ==> ids[j] < |fs.vectors|
    ensures OwnedAmong(fs, k, space, ids + [v]) ==
            OwnedAmong(fs, k, space, ids) + (if KeyAt(fs, fs.vectors[v].owner) == Some(k) then [(space, v)] else [])
  {
    assert (ids + [v])[..|ids|] == ids;
  }

  // ------------------------------------------------------------------ the scan, stated directly

  predicate LiveUnder(fs: FileState, i: FrameId, k: KeyRef)
  {
    i < |fs.frames| && KeyAt(fs, i) == Some(k)
  }

  /** Vector `v` is active in `space` and its owner is live under `k`. */
  predicate OwnedUnder(fs: FileState, k: KeyRef, p: (SpaceId, VectorId))
    requires OwnersKnown(fs)
  {
    && p.1 < |fs.vectors| && fs.vectors[p.1].active && fs.vectors[p.1].space == p.0
    && KeyAt(fs, fs.vectors[p.1].owner) == Some(k)
  }

  predicate Distinct<T(==)>(s: seq<T>)
  {
    forall i, j :: 0 <= i < j < |s| ==> s[i] != s[j]
  }

  lemma {:induction false} FramesIndexedIsScan(fs: FileState, n: nat)
    requires n <= |fs.frames|
    ensures forall k, i: nat :: i < n && LiveUnder(fs, i, k) ==> k in FramesIndexed(fs, n)
    ensures forall k :: k in FramesIndexed(fs, n) ==>
              var e := FramesIndexed(fs, n)[k];
              && e.frame < n && LiveUnder(fs, e.frame, k) && e.committed
              && forall i: nat :: i < n && LiveUnder(fs, i, k) ==> i <= e.frame
  {
    hide KeyAt;
    if n > 0 {
      FramesIndexedIsScan(fs, n - 1);
      forall k, i: nat | i < n && LiveUnder(fs, i, k) ensures k in FramesIndexed(fs, n) {
        if i < n - 1 {
          assert k in FramesIndexed(fs, n - 1);
        }
      }
    }
  }

  lemma DistinctConcat<T>(a: seq<T>, b: seq<T>)
    requires Distinct(a) && Distinct(b)
    requires forall x :: x in a ==> x !in b
    ensures Distinct(a + b)
  {
    var c := a + b;
    forall i: nat, j: nat | i < j < |c| ensures c[i] != c[j] {
      if i < |a| <= j {
        assert a[i] in a && b[j - |a|] in b;
      }
    }
  }

  lemma {:induction false} OwnedAmongMembers(fs: FileState, k: KeyRef, space: SpaceId, ids: seq<VectorId>)
    requires OwnersKnown(fs)
    requires forall j :: 0 <= j < |ids| ==> ids[j] < |fs.vectors|
    requires Distinct(ids)
    ensures forall p: (SpaceId, VectorId) {:trigger p in OwnedAmong(fs, k, space, ids)} ::
              p in OwnedAmong(fs, k, space, ids) <==>
              p.0 == space && p.1 in ids && KeyAt(fs, fs.vectors[p.1].owner) == Some(k)
    ensures Distinct(OwnedAmong(fs, k, space, ids))
  {
    hide KeyAt;
    if ids != [] {
      var before := ids[..|ids| - 1];
      var v := ids[|ids| - 1];
      OwnedAmongMembers(fs, k, space, before);
      assert ids == before + [v];
      assert v !in before;
      assert (space, v) !in OwnedAmong(fs, k, space, before);
    }
  }

  lemma {:induction false} OwnedRefsMembers(fs: FileState, k: KeyRef, n: nat)
    requires OwnersKnown(fs) && n <= |fs.spaces|
    ensures forall p: (SpaceId, VectorId) {:trigger p in OwnedRefs(fs, k, n)} ::
              p in OwnedRefs(fs, k, n) <==> p.0 < n && OwnedUnder(fs, k, p)
  {
    hide KeyAt, ActiveVectors, OwnedAmong;
    if n > 0 {
      OwnedRefsMembers(fs, k, n - 1);
      OwnedAmongMembers(fs, k, n - 1, ActiveIds(fs, n - 1));
    }
  }

  lemma {:induction false} OwnedRefsDistinct(fs: FileState, k: KeyRef, n: nat)
    requires OwnersKnown(fs) && n <= |fs.spaces|
    ensures Distinct(OwnedRefs(fs, k, n))
  {
    hide KeyAt, ActiveVectors, ActiveIds, OwnedAmong, OwnedUnder;
    if n > 0 {
      OwnedRefsDistinct(fs, k, n - 1);
      OwnedRefsMembers(fs, k, n - 1);
      OwnedAmongMembers(fs, k, n - 1, ActiveIds(fs, n - 1));
      DistinctConcat(OwnedRefs(fs, k, n - 1), OwnedAmong(fs, k, n - 1, ActiveIds(fs, n - 1)));
    }
  }

  /** The rebuilt index, read off the file: which keys, which frame, which vectors. */
  lemma RebuiltIsScan(fs: FileState)
    requires WellFormedFile(fs)
    ensures forall k, i: nat :: LiveUnder(fs, i, k) ==> k in RebuiltIndex(fs)
    ensures forall k :: k in RebuiltIndex(fs) ==>
              var e := RebuiltIndex(fs)[k];
              && e.committed && LiveUnder(fs, e.frame, k)
              && (forall i: nat :: LiveUnder(fs, i, k) ==> i <= e.frame)
              && Distinct(e.vectors)
              && (forall p: (SpaceId, VectorId) :: p in e.vectors <==> OwnedUnder(fs, k, p))
  {
    hide KeyAt;
    FramesIndexedIsScan(fs, |fs.frames|);
    forall k | k in RebuiltIndex(fs)
      ensures Distinct(OwnedRefs(fs, k, |fs.spaces|))
      ensures forall p: (SpaceId, VectorId) :: p in OwnedRefs(fs, k, |fs.spaces|) <==> OwnedUnder(fs, k, p)
    {
      OwnedRefsMembers(fs, k, |fs.spaces|);
      OwnedRefsDistinct(fs, k, |fs.spaces|);
    }
  }
}
