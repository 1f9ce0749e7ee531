/**
 Runs with compactions.  What a compaction takes from a record is its link to a parent whose version
 is gone, so the map that specifies a run also says whose links are live: a put or delete of a key
 cuts the links of its children, and a compaction forgets the parents of cut records.
 */
module LinkedRuns {
  import opened Basics
  import opened Keys
  import opened Engine
  import opened Identity
  import opened SchemaDoc
  import opened Schema
  import opened Store
  import opened StoreProofs
  import opened StoreView
  import opened Declare
  import opened Compact
  import opened CompactProofs
  import opened StoreRuns
  import opened Loader
  import BulkCatalog
  import opened BulkRuns

  datatype Linked = Linked(spec: Abstract, live: set<(string, Bytes)>)

  /** The records of `coll` whose parent is `key`. */
  function Children(a: Abstract, coll: string, key: Bytes): set<(string, Bytes)>
  {
    set k | k in a.recs && k.0 == coll && a.recs[k].parent == Some(key)
  }

  function LinkStep(l: Linked, op: Op): Linked
  {
    match op
    case Put(coll, key, rec, _) =>
      var b := Encode(key);
      var cut := l.live - Children(l.spec, coll, b) - {(coll, b)};
      Linked(SpecStep(l.spec, op), if rec.parent.Some? && Encode(rec.parent.value) != b then cut + {(coll, b)} else cut)
    case Delete(coll, key) =>
      Linked(SpecStep(l.spec, op), l.live - Children(l.spec, coll, Encode(key)) - {(coll, Encode(key))})
    case Compact(_) =>
      l.(spec := l.spec.(recs := map k | k in l.spec.recs ::
                         if k in l.live then l.spec.recs[k] else l.spec.recs[k].(parent := None)))
    case _ => Linked(SpecStep(l.spec, op), l.live)
  }

  function LinkRun(l: Linked, ops: seq<Op>): Linked
    decreases |ops|
  {
    if ops == [] then l else LinkRun(LinkStep(l, ops[0]), ops[1..])
  }

  // ------------------------------------------------------------------ links in the store

  /** A frame's parent, if it has one, carries a key of the same collection. */
  predicate ParentNamed(frames: seq<Frame>, c: CollectionId, i: FrameId)
  {
    i < |frames|
    && (frames[i].parent.Some? ==>
          var p := frames[i].parent.value;
          p < |frames| && frames[p].coll == c && frames[p].uri.Some? && IsKey(frames[p].uri.value))
  }

  ghost predicate ParentsNamed(s: StoreState)
  {
    forall j :: j in s.index ==> ParentNamed(s.file.frames, j.0, s.index[j].frame)
  }

  ghost predicate LinksMatch(s: StoreState, l: Linked)
  {
    forall c, b :: (c, b) in l.live <==> c in s.reg.collections && ParentLive(s, (s.reg.collections[c].id, b))
  }

  ghost predicate Matches(s: StoreState, l: Linked)
  {
    Coherent(s) && Represents(s, l.spec) && ParentsNamed(s) && LinksMatch(s, l)
  }

  /** The key that names the version a record links to. */
  function LinkOf(s: StoreState, j: KeyRef): Option<(KeyRef, FrameId)>
    requires j in s.index
  {
    if s.index[j].frame < |s.file.frames| && s.file.frames[s.index[j].frame].parent.Some? then
      var p := s.file.frames[s.index[j].frame].parent.value;
      if p < |s.file.frames| && s.file.frames[p].uri.Some? then Some(((j.0, s.file.frames[p].uri.value), p)) else None
    else None
  }

  predicate LinksTo(s: StoreState, j: KeyRef, k: KeyRef)
  {
    j in s.index && LinkOf(s, j).Some? && LinkOf(s, j).value.0 == k
  }

  /** A link is live exactly while its key names its version. */
  lemma LiveByIndex(s: StoreState, j: KeyRef)
    requires Coherent(s) && ParentsNamed(s)
    ensures ParentLive(s, j) <==> j in s.index && LinkOf(s, j).Some? && LinkOf(s, j).value.0 in s.index
                                  && s.index[LinkOf(s, j).value.0].frame == LinkOf(s, j).value.1
  {
    if j in s.index {
      assert ParentNamed(s.file.frames, j.0, s.index[j].frame);
      if s.file.frames[s.index[j].frame].parent.Some? {
        ParentLiveIff(s, j, s.file.frames[s.index[j].frame].parent.value);
      }
    }
    hide Coherent, IsKey, ParentsNamed;
  }

  /** Frames kept, perhaps tombstoned. */
  predicate Keeps(a: seq<Frame>, b: seq<Frame>)
  {
    |a| <= |b| && forall i :: 0 <= i < |a| ==> b[i] == a[i] || b[i] == a[i].(active := false)
  }

  lemma NamedKept(a: seq<Frame>, b: seq<Frame>, c: CollectionId, i: FrameId)
    requires Keeps(a, b) && ParentNamed(a, c, i)
    ensures ParentNamed(b, c, i) && b[i].parent == a[i].parent
    ensures a[i].parent.Some? ==> b[a[i].parent.value].uri == a[a[i].parent.value].uri
  {
  }

  /** Entries that kept their frame keep their link. */
  lemma LinkKept(s: StoreState, t: StoreState, j: KeyRef)
    requires ParentsNamed(s) && Keeps(s.file.frames, t.file.frames)
    requires j in s.index && j in t.index && t.index[j].frame == s.index[j].frame
    ensures LinkOf(t, j) == LinkOf(s, j) && ParentNamed(t.file.frames, j.0, t.index[j].frame)
  {
    assert ParentNamed(s.file.frames, j.0, s.index[j].frame);
    NamedKept(s.file.frames, t.file.frames, j.0, s.index[j].frame);
    hide ParentNamed, Keeps, ParentsNamed;
  }

  /** An operation that leaves the index's frames alone leaves every link alone. */
  lemma QuietLinks(s: StoreState, t: StoreState)
    requires Coherent(s) && Coherent(t) && ParentsNamed(s) && Keeps(s.file.frames, t.file.frames)
    requires t.index.Keys == s.index.Keys && forall j :: j in s.index ==> t.index[j].frame == s.index[j].frame
    ensures ParentsNamed(t) && forall j :: ParentLive(t, j) <==> ParentLive(s, j)
  {
    forall j | j in t.index ensures ParentNamed(t.file.frames, j.0, t.index[j].frame) { LinkKept(s, t, j); }
    hide Coherent, Keeps, LinkOf, ParentNamed;
    forall j ensures ParentLive(t, j) <==> ParentLive(s, j) {
      LiveByIndex(s, j);
      LiveByIndex(t, j);
      if j in s.index { LinkKept(s, t, j); }
    }
  }

  lemma QuietMatches(s: StoreState, t: StoreState, l: Linked, a: Abstract)
    requires Matches(s, l) && Coherent(t) && Represents(t, a)
    requires Keeps(s.file.frames, t.file.frames)
    requires t.index.Keys == s.index.Keys && forall j :: j in s.index ==> t.index[j].frame == s.index[j].frame
    requires forall c :: c in s.reg.collections ==>
             c in t.reg.collections && t.reg.collections[c].id == s.reg.collections[c].id
    requires forall c, b :: c in t.reg.collections && c !in s.reg.collections ==>
             (t.reg.collections[c].id, b) !in s.index
    ensures Matches(t, Linked(a, l.live))
  {
    QuietLinks(s, t);
    hide Coherent, Represents, Keeps, ParentsNamed;
    forall c, b ensures (c, b) in l.live <==> c in t.reg.collections && ParentLive(t, (t.reg.collections[c].id, b)) {
      if c in t.reg.collections { LiveIsIndexed(t, (t.reg.collections[c].id, b)); }
    }
  }

  lemma LiveIsIndexed(s: StoreState, j: KeyRef)
    ensures ParentLive(s, j) ==> j in s.index
  {
  }

  // ------------------------------------------------------------------ put and delete

  /** One key names a newer version or nothing: the links to its old version are cut, all others stay. */
  lemma Relinked(s: StoreState, t: StoreState, k: KeyRef)
    requires Coherent(s) && Coherent(t) && ParentsNamed(s) && Keeps(s.file.frames, t.file.frames)
    requires forall j :: j != k ==>
             (j in t.index <==> j in s.index) && (j in s.index ==> t.index[j].frame == s.index[j].frame)
    requires k in t.index ==> t.index[k].frame >= |s.file.frames| && ParentNamed(t.file.frames, k.0, t.index[k].frame)
    ensures ParentsNamed(t)
    ensures forall j :: j != k ==> (ParentLive(t, j) <==> ParentLive(s, j) && !LinksTo(s, j, k))
  {
    hide Coherent, Keeps, ParentNamed, LinkOf;
    forall j | j in t.index ensures ParentNamed(t.file.frames, j.0, t.index[j].frame) {
      if j != k { LinkKept(s, t, j); }
    }
    hide ParentLive, ParentsNamed;
    forall j | j != k ensures ParentLive(t, j) <==> ParentLive(s, j) && !LinksTo(s, j, k) {
      LiveByIndex(s, j);
      LiveByIndex(t, j);
      if j in s.index {
        LinkKept(s, t, j);
        OldLink(s, j);
      }
    }
  }

  lemma PutLinks(s: StoreState, coll: string, key: Key, rec: Record, now: int)
    requires Coherent(s) && ParentsNamed(s) && PutTo(s, coll, key, rec, now).Ok?
             && Coherent(PutTo(s, coll, key, rec, now).value)
    ensures coll in s.reg.collections
    ensures var k, t := (s.reg.collections[coll].id, Encode(key)), PutTo(s, coll, key, rec, now).value;
            && ParentsNamed(t)
            && (forall j :: j != k ==> (ParentLive(t, j) <==> ParentLive(s, j) && !LinksTo(s, j, k)))
            && (ParentLive(t, k) <==> rec.parent.Some? && Encode(rec.parent.value) != k.1)
  {
    var item := Item(coll, key, rec, now);
    var t := PutTo(s, coll, key, rec, now).value;
    IndexBounds(s);
    PutIndex(s, item);
    PutAppends(s, item);
    hide *;
    PutRelinks(s, t, (s.reg.collections[coll].id, Encode(key)), rec, now);
  }

  lemma PutRelinks(s: StoreState, t: StoreState, k: KeyRef, rec: Record, now: int)
    requires Coherent(s) && ParentsNamed(s) && Coherent(t) && ParentOf(s, k.0, rec.parent).Ok?
    requires forall j :: j in s.index ==> s.index[j].frame < |s.file.frames|
    requires t.index.Keys == s.index.Keys + {k} && t.index[k].frame == |s.file.frames|
    requires forall j :: j in s.index && j != k ==> t.index[j] == s.index[j]
    requires t.file.frames == (if k in s.index then KilledFrame(s.file.frames, s.index[k].frame) else s.file.frames)
                              + [NewFrame(PutPlan(k.0, [], []), k.1, rec, ParentOf(s, k.0, rec.parent).value, now)]
    ensures ParentsNamed(t)
    ensures forall j :: j != k ==> (ParentLive(t, j) <==> ParentLive(s, j) && !LinksTo(s, j, k))
    ensures ParentLive(t, k) <==> rec.parent.Some? && Encode(rec.parent.value) != k.1
  {
    hide *;
    PutShape(s, t, k, rec, now);
    NewLink(s, t, k, rec, now);
    Relinked(s, t, k);
    LiveByIndex(t, k);
  }

  lemma PutShape(s: StoreState, t: StoreState, k: KeyRef, rec: Record, now: int)
    requires (forall j :: j in s.index ==> s.index[j].frame < |s.file.frames|) && ParentOf(s, k.0, rec.parent).Ok?
    requires t.file.frames == (if k in s.index then KilledFrame(s.file.frames, s.index[k].frame) else s.file.frames)
                              + [NewFrame(PutPlan(k.0, [], []), k.1, rec, ParentOf(s, k.0, rec.parent).value, now)]
    ensures Keeps(s.file.frames, t.file.frames) && |t.file.frames| == |s.file.frames| + 1
    ensures t.file.frames[|s.file.frames|] ==
            NewFrame(PutPlan(k.0, [], []), k.1, rec, ParentOf(s, k.0, rec.parent).value, now)
  {
    hide NewFrame, ParentOf;
  }

  /** A link points to an old frame, so not to the version a put has just appended. */
  lemma OldLink(s: StoreState, j: KeyRef)
    requires j in s.index
    ensures LinkOf(s, j).Some? ==> LinkOf(s, j).value.1 < |s.file.frames|
  {
  }

  /** The link of the version just put. */
  lemma NewLink(s: StoreState, t: StoreState, k: KeyRef, rec: Record, now: int)
    requires Coherent(s) && Keeps(s.file.frames, t.file.frames) && |t.file.frames| == |s.file.frames| + 1
    requires k in t.index && t.index[k].frame == |s.file.frames| && ParentOf(s, k.0, rec.parent).Ok?
    requires t.index.Keys == s.index.Keys + {k} && forall j :: j in s.index && j != k ==> t.index[j] == s.index[j]
    requires t.file.frames[|s.file.frames|] ==
             NewFrame(PutPlan(k.0, [], []), k.1, rec, ParentOf(s, k.0, rec.parent).value, now)
    ensures ParentNamed(t.file.frames, k.0, t.index[k].frame)
    ensures LinkOf(t, k).Some? <==> rec.parent.Some?
    ensures rec.parent.Some? ==>
              var pk := (k.0, Encode(rec.parent.value));
              LinkOf(t, k).value.0 == pk && pk in t.index && (t.index[pk].frame == LinkOf(t, k).value.1 <==> pk != k)
  {
    hide WellFormedFile, EntriesListVectors, OwnersLive, SchemaFits, CollectionsFit, CommitStatus, StagedFits, IsKey,
         Encode;
    if rec.parent.Some? {
      var pk := (k.0, Encode(rec.parent.value));
      assert LiveKey(s.file.frames[s.index[pk].frame]) == Some(pk);
    }
  }

  lemma DeleteLinks(s: StoreState, k: KeyRef)
    requires Coherent(s) && ParentsNamed(s) && k in s.index && s.index[k].frame < |s.file.frames|
             && Coherent(DeleteApplied(s, k))
    ensures var t := DeleteApplied(s, k);
            && ParentsNamed(t) && !ParentLive(t, k)
            && (forall j :: j != k ==> (ParentLive(t, j) <==> ParentLive(s, j) && !LinksTo(s, j, k)))
  {
    var t := DeleteApplied(s, k);
    DeleteShape(s, k);
    assert Keeps(s.file.frames, t.file.frames);
    hide DeleteApplied, Keeps, KilledFrame, Coherent, ParentsNamed, LinkOf, ParentLive;
    Relinked(s, t, k);
    LiveByIndex(t, k);
  }

  /** In the map, a record's parent is the key its link names. */
  lemma ChildIsLinked(s: StoreState, l: Linked, c: string, b: Bytes, coll: string, key: Bytes)
    requires Matches(s, l) && c in s.reg.collections && coll in s.reg.collections
    requires var j := (s.reg.collections[c].id, b); ParentLive(s, j)
    ensures var j := (s.reg.collections[c].id, b);
            LinksTo(s, j, (s.reg.collections[coll].id, key)) <==> (c, b) in Children(l.spec, coll, key)
  {
    var j := (s.reg.collections[c].id, b);
    LiveByIndex(s, j);
    LookupByIndex(s, j);
    DistinctIds(s, c);
    assert RecordIn(s, c, b) == AbstractIn(l.spec, c, b);
    LinkIsParent(s, j);
    hide Coherent, Represents, ParentsNamed, LinksMatch, Lookup, LinkOf, ParentLive, RecAt;
  }

  lemma LinkIsParent(s: StoreState, j: KeyRef)
    requires j in s.index && s.index[j].frame < |s.file.frames| && LinkOf(s, j).Some?
    ensures RecAt(s, s.index[j].frame).parent == Some(LinkOf(s, j).value.0.1) && LinkOf(s, j).value.0.0 == j.0
  {
    hide EngineVectors, StagedVectors;
  }

  /** Removing one key from the links of the map and the store alike. */
  lemma CutMatches(s: StoreState, t: StoreState, l: Linked, a: Abstract, coll: string, key: Bytes, newLive: bool)
    requires Matches(s, l) && coll in s.reg.collections && t.reg == s.reg
    requires var k := (s.reg.collections[coll].id, key);
             && (forall j :: j != k ==> (ParentLive(t, j) <==> ParentLive(s, j) && !LinksTo(s, j, k)))
             && (ParentLive(t, k) <==> newLive)
    ensures var cut := l.live - Children(l.spec, coll, key) - {(coll, key)};
            LinksMatch(t, Linked(a, if newLive then cut + {(coll, key)} else cut))
  {
    var k := (s.reg.collections[coll].id, key);
    var cut := l.live - Children(l.spec, coll, key) - {(coll, key)};
    var live := if newLive then cut + {(coll, key)} else cut;
    DistinctIds(s, coll);
    forall c, b
      ensures (c, b) in live <==> c in t.reg.collections && ParentLive(t, (t.reg.collections[c].id, b))
    {
      if c in s.reg.collections && ParentLive(s, (s.reg.collections[c].id, b)) { ChildIsLinked(s, l, c, b, coll, key); }
      hide Coherent, Represents, ParentsNamed, LinkOf, ParentLive, Children;
    }
  }

  lemma MatchesParts(s: StoreState, l: Linked)
    ensures Matches(s, l) <==> Coherent(s) && Represents(s, l.spec) && ParentsNamed(s) && LinksMatch(s, l)
  {
    hide Coherent, Represents, ParentsNamed, LinksMatch;
  }

  lemma PutMatches(s: StoreState, l: Linked, coll: string, key: Key, rec: Record, now: int)
    requires Matches(s, l) && WellFormed(key) && Coherent(s) && PutTo(s, coll, key, rec, now).Ok?
    ensures Matches(PutTo(s, coll, key, rec, now).value, LinkStep(l, Put(coll, key, rec, now)))
  {
    hide *;
    var t, a := PutTo(s, coll, key, rec, now).value, SpecStep(l.spec, Put(coll, key, rec, now));
    MatchesParts(s, l);
    PutCoherent(s, coll, key, rec, now);
    PutKeepsCollections(s, coll, key, rec, now);
    PutRefines(s, l.spec, coll, key, rec, now);
    PutLinks(s, coll, key, rec, now);
    var newLive := rec.parent.Some? && Encode(rec.parent.value) != Encode(key);
    CutMatches(s, t, l, a, coll, Encode(key), newLive);
    var cut := l.live - Children(l.spec, coll, Encode(key)) - {(coll, Encode(key))};
    assert LinkStep(l, Put(coll, key, rec, now)) == Linked(a, if newLive then cut + {(coll, Encode(key))} else cut) by {
      PutStep(l, coll, key, rec, now);
    }
    MatchesParts(t, LinkStep(l, Put(coll, key, rec, now)));
  }

  lemma PutStep(l: Linked, coll: string, key: Key, rec: Record, now: int)
    ensures var b := Encode(key);
            var cut := l.live - Children(l.spec, coll, b) - {(coll, b)};
            LinkStep(l, Put(coll, key, rec, now)) ==
            Linked(SpecStep(l.spec, Put(coll, key, rec, now)),
                   if rec.parent.Some? && Encode(rec.parent.value) != b then cut + {(coll, b)} else cut)
  {
    hide SpecStep, Children, Encode;
  }

  lemma DeleteMatches(s: StoreState, l: Linked, coll: string, key: Key)
    requires Matches(s, l) && Coherent(s) && DeleteFrom(s, coll, key).Ok?
    ensures Matches(DeleteFrom(s, coll, key).value.0, LinkStep(l, Delete(coll, key)))
  {
    hide *;
    var t, a := DeleteFrom(s, coll, key).value.0, SpecStep(l.spec, Delete(coll, key));
    MatchesParts(s, l);
    DeletedReg(s, coll, key);
    var k := (s.reg.collections[coll].id, Encode(key));
    DeleteRefines(s, l.spec, coll, key);
    if k in s.index {
      DeleteCoherent(s, k);
      DeleteLinks(s, k);
    } else {
      NoneLinked(s, k);
    }
    CutMatches(s, t, l, a, coll, Encode(key), false);
    DeleteStep(l, coll, key);
    MatchesParts(t, LinkStep(l, Delete(coll, key)));
  }

  lemma DeleteStep(l: Linked, coll: string, key: Key)
    ensures LinkStep(l, Delete(coll, key)) ==
            Linked(SpecStep(l.spec, Delete(coll, key)),
                l.live - Children(l.spec, coll, Encode(key)) - {(coll, Encode(key))})
  {
    hide SpecStep, Children, Encode;
  }

  /** A key without an entry has no link, and none leads to it. */
  lemma NoneLinked(s: StoreState, k: KeyRef)
    requires Coherent(s) && ParentsNamed(s) && k !in s.index
    ensures !ParentLive(s, k) && forall j :: ParentLive(s, j) ==> j in s.index && !LinksTo(s, j, k)
  {
    hide Coherent, ParentsNamed, LinkOf;
    LiveIsIndexed(s, k);
    forall j | ParentLive(s, j) ensures j in s.index && !LinksTo(s, j, k) { LiveByIndex(s, j); }
  }

  // ------------------------------------------------------------------ compaction

  lemma CompactLinks(s: StoreState, recalibrate: bool, decode: Decoder)
    requires Quiescent(s) && ParentsNamed(s) && KeepsLength(decode)
    requires CompactOf(s, recalibrate, decode).Ok? && !NothingTombstoned(s.file)
    ensures var t := CompactOf(s, recalibrate, decode).value;
            Coherent(t) && t.reg == s.reg && ParentsNamed(t) && forall j :: ParentLive(t, j) <==> ParentLive(s, j)
  {
    var t := CompactOf(s, recalibrate, decode).value;
    CompactCoherent(s, recalibrate, decode);
    assert Settled(s.file) && Coherent(s);
    hide Coherent, RebuiltIndex, NewVectors, NewSpaces, Rank, NewFrames, KeepsLength, ParentLive, ParentNamed,
         Quiescent;
    forall j ensures ParentLive(t, j) <==> ParentLive(s, j)
             ensures j in t.index ==> ParentNamed(t.file.frames, j.0, t.index[j].frame)
    {
      LiveIsIndexed(s, j);
      LiveIsIndexed(t, j);
      if j in t.index {
        CompactedIndexFrom(s, recalibrate, decode, j);
        StreamedLink(s, t, j);
      } else if j in s.index {
        IndexBounds(s);
        CompactedIndexTo(s, recalibrate, decode, j);
      }
    }
  }

  /** The link of a streamed version: its parent's image if the parent was live, none otherwise. */
  lemma StreamedLink(s: StoreState, t: StoreState, j: KeyRef)
    requires ParentsNamed(s) && s.file.flushedFrames == |s.file.frames| && j in s.index && j in t.index
    requires t.file.frames == NewFrames(s.file, |s.file.frames|) && s.index[j].frame < |s.file.frames|
    requires s.file.frames[s.index[j].frame].active && t.index[j].frame == Rank(s.file.frames, s.index[j].frame)
    ensures ParentLive(t, j) <==> ParentLive(s, j)
    ensures ParentNamed(t.file.frames, j.0, t.index[j].frame)
  {
    var i := s.index[j].frame;
    assert ParentNamed(s.file.frames, j.0, i);
    NewFramesAt(s.file, |s.file.frames|, i);
    var p := s.file.frames[i].parent;
    if p.Some? && s.file.frames[p.value].active { NewFramesAt(s.file, |s.file.frames|, p.value); }
    hide ParentsNamed, IsKey, Rank, NewFrames;
  }

  /** Compacting a committed store with a lossless codec forgets the parents of cut links, and nothing else. */
  lemma CompactMatches(s: StoreState, l: Linked, recalibrate: bool, decode: Decoder)
    requires Matches(s, l) && Quiescent(s) && KeepsLength(decode) && Lossless(s.file, decode)
    requires CompactOf(s, recalibrate, decode).Ok?
    ensures Matches(CompactOf(s, recalibrate, decode).value, LinkStep(l, Compact(recalibrate)))
  {
    var t, m := CompactOf(s, recalibrate, decode).value, LinkStep(l, Compact(recalibrate));
    if NothingTombstoned(s.file) {
      AllLive(s, l);
      assert m.spec.recs == l.spec.recs && t == s;
    } else {
      CompactLinks(s, recalibrate, decode);
      forall k ensures SameButParent(Lookup(s, k), Lookup(t, k), ParentLive(s, k)) {
        CompactInvisible(s, recalibrate, decode, k);
      }
      hide Coherent, CompactOf, ParentLive, ParentsNamed, Lookup, Quiescent, Lossless, KeepsLength, NothingTombstoned;
      CompactedRecords(s, t, l, m, recalibrate);
    }
  }

  lemma CompactedRecords(s: StoreState, t: StoreState, l: Linked, m: Linked, recalibrate: bool)
    requires Represents(s, l.spec) && LinksMatch(s, l) && t.reg == s.reg && m == LinkStep(l, Compact(recalibrate))
    requires forall k :: SameButParent(Lookup(s, k), Lookup(t, k), ParentLive(s, k))
    requires forall j :: ParentLive(t, j) <==> ParentLive(s, j)
    ensures Represents(t, m.spec) && LinksMatch(t, m)
  {
    hide Lookup, ParentLive;
    forall c, b ensures RecordIn(t, c, b) == AbstractIn(m.spec, c, b) {
      assert RecordIn(s, c, b) == AbstractIn(l.spec, c, b);
      if c in s.reg.collections {
        var k := (s.reg.collections[c].id, b);
        assert SameButParent(Lookup(s, k), Lookup(t, k), ParentLive(s, k));
        assert (c, b) in l.live <==> ParentLive(s, k);
      }
    }
  }

  /** With nothing tombstoned every record that has a parent has it live. */
  lemma AllLive(s: StoreState, l: Linked)
    requires Matches(s, l) && NothingTombstoned(s.file)
    ensures forall k :: k in l.spec.recs && l.spec.recs[k].parent.Some? ==> k in l.live
  {
    forall k | k in l.spec.recs && l.spec.recs[k].parent.Some? ensures k in l.live {
      assert RecordIn(s, k.0, k.1) == AbstractIn(l.spec, k.0, k.1);
      var j := (s.reg.collections[k.0].id, k.1);
      LookupByIndex(s, j);
      IndexBounds(s);
      HasLiveParent(s, j);
      hide Coherent, Represents, Lookup, ParentLive, RecAt, ParentsNamed, NothingTombstoned;
    }
  }

  lemma HasLiveParent(s: StoreState, j: KeyRef)
    requires NothingTombstoned(s.file) && j in s.index && s.index[j].frame < |s.file.frames|
    ensures RecAt(s, s.index[j].frame).parent.Some? ==> ParentLive(s, j)
  {
    hide EngineVectors, StagedVectors;
  }

  // ------------------------------------------------------------------ whole runs

  /** A compaction comes right after a commit and re-encodes without loss. */
  ghost predicate Lawful(env: Env, s: StoreState, op: Op)
  {
    Legal(env, s, op) && (op.Compact? ==> Quiescent(s) && Lossless(s.file, env.decode))
  }

  lemma StepMatches(env: Env, s: StoreState, l: Linked, op: Op)
    requires Matches(s, l) && Lawful(env, s, op) && Step(env, s, op).Ok?
    ensures Matches(Step(env, s, op).value, LinkStep(l, op))
  {
    var t := Step(env, s, op).value;
    StepCoherent(env, s, op);
    match op
    case Put(coll, key, rec, now) =>
      hide Matches, PutTo, LinkStep, WellFormed;
      PutMatches(s, l, coll, key, rec, now);
    case Delete(coll, key) =>
      hide Matches, DeleteFrom, LinkStep;
      DeleteMatches(s, l, coll, key);
    case Compact(recalibrate) =>
      hide Matches, CompactOf, LinkStep, Quiescent, Lossless, KeepsLength;
      CompactMatches(s, l, recalibrate, env.decode);
    case _ =>
      StepRefines(env, s, l.spec, op);
      QuietStep(env, s, op);
      NewCollectionEmpty(s);
      hide Coherent, Represents, ParentsNamed, LinksMatch, Step, SpecStep, Legal, Keeps;
      QuietMatches(s, t, l, SpecStep(l.spec, op));
  }

  lemma NewCollectionEmpty(s: StoreState)
    requires Coherent(s)
    ensures forall b :: (|s.file.collections|, b) !in s.index
  {
    hide IsKey, EntriesListVectors, OwnersLive, SchemaFits, CommitStatus, StagedFits, CollectionsFit;
  }

  /** Definitions, declarations and commits keep each entry's frame and every collection's id. */
  lemma QuietStep(env: Env, s: StoreState, op: Op)
    requires Coherent(s) && Legal(env, s, op) && Step(env, s, op).Ok? && (op.Define? || op.Declare? || op.Commit?)
    ensures var t := Step(env, s, op).value;
            && Keeps(s.file.frames, t.file.frames) && t.index.Keys == s.index.Keys
            && (forall j :: j in s.index ==> t.index[j].frame == s.index[j].frame)
            && (forall c :: c in s.reg.collections ==>
               c in t.reg.collections && t.reg.collections[c].id == s.reg.collections[c].id)
            && (forall c :: c in t.reg.collections && c !in s.reg.collections ==>
               t.reg.collections[c].id == |s.file.collections|)
  {
    hide Coherent, DeclareTo, CommitOf, Legal;
    match op
    case Define(space, dim, spec) =>
    case Declare(coll, name, shape, doc, payload, now) =>
      DeclareShape(s, env.read, env.parse, coll, name, shape, doc, payload, now);
      BoundTo(s, coll, shape, doc);
    case Commit => CommitQuiet(s);
    case _ =>
  }

  lemma CommitQuiet(s: StoreState)
    requires Coherent(s) && CommitOf(s, true).Ok?
    ensures var t := CommitOf(s, true).value;
            && t.file.frames == s.file.frames && t.reg.collections == s.reg.collections && t.index.Keys == s.index.Keys
            && forall j :: j in s.index ==> t.index[j].frame == s.index[j].frame
  {
    CommitVerdict(s);
    var t := CommitOf(s, true).value;
    hide Coherent, CommitOf;
    SameCatalog(s, t);
  }

  lemma SameCatalog(s: StoreState, t: StoreState)
    requires BulkCatalog.CatalogOf(t) == BulkCatalog.CatalogOf(s)
    ensures t.file.frames == s.file.frames && t.reg.collections == s.reg.collections && t.index.Keys == s.index.Keys
    ensures forall j :: j in s.index ==> t.index[j].frame == s.index[j].frame
  {
    var a, b := BulkCatalog.CatalogOf(s).live, BulkCatalog.CatalogOf(t).live;
    assert s.index.Keys == a.Keys && t.index.Keys == b.Keys;
    forall j | j in s.index ensures t.index[j].frame == s.index[j].frame { assert a[j] == b[j]; }
  }

  ghost predicate ReachesLawfully(env: Env, s: StoreState, ops: seq<Op>, t: StoreState)
    requires Coherent(s)
    decreases |ops|
  {
    if ops == [] then s == t
    else
      && Lawful(env, s, ops[0]) && Step(env, s, ops[0]).Ok?
      && (StepCoherent(env, s, ops[0]); ReachesLawfully(env, Step(env, s, ops[0]).value, ops[1..], t))
  }

  /** Over every run, compactions included, the records are the map's and the links those of the specification. */
  lemma {:induction false} LinkedRunRefines(env: Env, s: StoreState, l: Linked, ops: seq<Op>, t: StoreState)
    requires Matches(s, l) && ReachesLawfully(env, s, ops, t)
    ensures Matches(t, LinkRun(l, ops))
    decreases |ops|
  {
    if ops != [] {
      StepMatches(env, s, l, ops[0]);
      assert Coherent(s);
      hide Matches, Lawful, Step, LinkStep;
      LinkedRunRefines(env, Step(env, s, ops[0]).value, LinkStep(l, ops[0]), ops[1..], t);
    }
  }

  const START := StoreState(EMPTY_FILE, Registry(map[], {}, map[]), map[], [], [])

  lemma StartMatches()
    ensures Matches(START, Linked(Abstract(map[], map[]), {}))
  {
    EmptyStoreCoherent();
    hide Coherent, Lookup;
  }
}
