/**
 Spaces, shapes and the resolution of a record against them
 (`src/db/space.rs`, `collection.rs`, `record.rs`; `resolve_plan` of `writer.rs`).
 */
module Schema {
  import opened Basics
  import opened Keys
  import opened Engine
  import opened SchemaDoc

  datatype Field = TextField(space: string) | VectorField(space: string, dim: nat)

  /** Named fields in declared order. */
  datatype Shape = Shape(fields: seq<(string, Field)>)

  datatype VecState = Ready(id: SpaceId) | Deferred(sampleTarget: nat)

  datatype VectorSpace = VectorSpace(dim: nat, state: VecState)

  /** `doc` is the schema document behind `shape`, known before it is committed. */
  datatype CollectionRecord = CollectionRecord(id: CollectionId, shape: Option<Shape>, doc: Option<Doc>)

  datatype Registry = Registry(
    vectorSpaces: map<string, VectorSpace>,
    textSpaces: set<string>,
    collections: map<string, CollectionRecord>)

  datatype Value = TextValue(text: Bytes) | VectorValue(values: seq<real>)

  datatype Record = Record(fields: seq<(string, Value)>, createdAt: Option<int>, parent: Option<Key>)

  /** A vector destined for the space of the given name. */
  type NamedVector = (string, seq<real>)

  /** How one put is lowered: which vectors go to the engine now, which wait for calibration. */
  datatype PutPlan = PutPlan(coll: CollectionId, ready: seq<(SpaceId, seq<real>)>, deferred: seq<NamedVector>)

  function FieldNamed(fields: seq<(string, Field)>, name: string): Option<Field>
  {
    if fields == [] then None
    else if fields[0].0 == name then Some(fields[0].1)
    else FieldNamed(fields[1..], name)
  }

  /** The payload of the record: its first text value. */
  function FirstText(fields: seq<(string, Value)>): Option<Bytes>
  {
    if fields == [] then None
    else if fields[0].1.TextValue? then Some(fields[0].1.text)
    else FirstText(fields[1..])
  }

  function FirstTextField(fields: seq<(string, Field)>): Option<string>
  {
    if fields == [] then None
    else if fields[0].1.TextField? then Some(fields[0].1.space)
    else FirstTextField(fields[1..])
  }

  function FieldError(shape: Shape, name: string, value: Value): Option<Error>
  {
    match FieldNamed(shape.fields, name)
    case None => Some(UnknownField)
    case Some(TextField(_)) => if value.TextValue? then None else Some(KindMismatch)
    case Some(VectorField(_, dim)) =>
      if !value.VectorValue? then Some(KindMismatch)
      else if |value.values| != dim then Some(DimensionMismatch)
      else None
  }

  function FirstFieldError(shape: Shape, fields: seq<(string, Value)>): Option<Error>
  {
    if fields == [] then None
    else
      var e := FieldError(shape, fields[0].0, fields[0].1);
      if e.Some? then e else FirstFieldError(shape, fields[1..])
  }

  predicate TextSpaceMissing(reg: Registry, shape: Shape, rec: Record)
  {
    var space := FirstTextField(shape.fields);
    space.Some? && FirstText(rec.fields).Some? && space.value !in reg.textSpaces
  }

  /** The vectors a valid record carries, each with the space its field is bound to. */
  function NamedVectors(shape: Shape, fields: seq<(string, Value)>): seq<NamedVector>
  {
    if fields == [] then []
    else
      var before := NamedVectors(shape, fields[..|fields| - 1]);
      var last := fields[|fields| - 1];
      match (FieldNamed(shape.fields, last.0), last.1)
      case (Some(VectorField(space, _)), VectorValue(values)) => before + [(space, values)]
      case _ => before
  }

  predicate Registered(reg: Registry, vectors: seq<NamedVector>)
  {
    forall v :: v in vectors ==> v.0 in reg.vectorSpaces
  }

  function ReadyPart(reg: Registry, vectors: seq<NamedVector>): seq<(SpaceId, seq<real>)>
    requires Registered(reg, vectors)
  {
    if vectors == [] then []
    else
      var last := vectors[|vectors| - 1];
      ReadyPart(reg, vectors[..|vectors| - 1])
      + (match reg.vectorSpaces[last.0].state
         case Ready(id) => [(id, last.1)]
         case Deferred(_) => [])
  }

  function DeferredPart(reg: Registry, vectors: seq<NamedVector>): seq<NamedVector>
    requires Registered(reg, vectors)
  {
    if vectors == [] then []
    else
      var last := vectors[|vectors| - 1];
      DeferredPart(reg, vectors[..|vectors| - 1])
      + (if reg.vectorSpaces[last.0].state.Deferred? then [last] else [])
  }

  /** `resolve_plan`, stated: the first complaint in the source's order, or the split plan. */
  function PlanFor(reg: Registry, coll: string, rec: Record): Result<PutPlan>
  {
    if coll !in reg.collections then Err(UnknownCollection)
    else if reg.collections[coll].shape == None then Err(NoShape)
    else
      var shape := reg.collections[coll].shape.value;
      var e := FirstFieldError(shape, rec.fields);
      if e.Some? then Err(e.value)
      else if TextSpaceMissing(reg, shape, rec) then Err(SpaceNotRegistered)
      else
        var vectors := NamedVectors(shape, rec.fields);
        if !Registered(reg, vectors) then Err(SpaceNotRegistered)
        else Ok(PutPlan(reg.collections[coll].id, ReadyPart(reg, vectors), DeferredPart(reg, vectors)))
  }

  method ResolvePlan(reg: Registry, coll: string, rec: Record) returns (r: Result<PutPlan>)
    ensures r == PlanFor(reg, coll, rec)
  {
    if coll !in reg.collections { return Err(UnknownCollection); }
    if reg.collections[coll].shape == None { return Err(NoShape); }
    var shape := reg.collections[coll].shape.value;
    var i := 0;
    while i < |rec.fields|
      invariant i <= |rec.fields|
      invariant FirstFieldError(shape, rec.fields) == FirstFieldError(shape, rec.fields[i..])
    {
      var e := FieldError(shape, rec.fields[i].0, rec.fields[i].1);
      if e.Some? { return Err(e.value); }
      i := i + 1;
    }
    if TextSpaceMissing(reg, shape, rec) { return Err(SpaceNotRegistered); }
    r := SplitVectors(reg, shape, rec.fields, reg.collections[coll].id);
  }

  /** The final loop of `resolve_plan`. */
  method SplitVectors(reg: Registry, shape: Shape, fields: seq<(string, Value)>, coll: CollectionId)
    returns (r: Result<PutPlan>)
    requires FirstFieldError(shape, fields) == None
    ensures var vectors := NamedVectors(shape, fields);
            r == if Registered(reg, vectors)
                 then Ok(PutPlan(coll, ReadyPart(reg, vectors), DeferredPart(reg, vectors)))
                 else Err(SpaceNotRegistered)
  {
    var ready, deferred := [], [];
    var i := 0;
    while i < |fields|
      invariant i <= |fields|
      invariant Registered(reg, NamedVectors(shape, fields[..i]))
      invariant ready == ReadyPart(reg, NamedVectors(shape, fields[..i]))
      invariant deferred == DeferredPart(reg, NamedVectors(shape, fields[..i]))
    {
      hide NamedVectors, ReadyPart, DeferredPart;
      if fields[i].1.VectorValue? {
        var field := NextVector(shape, fields, i);
        var v := (field.space, fields[i].1.values);
        if v.0 !in reg.vectorSpaces {
          NamedVectorsPrefix(shape, fields, i + 1);
          assert v in NamedVectors(shape, fields[..i + 1]);
          return Err(SpaceNotRegistered);
        }
        SplitStep(reg, NamedVectors(shape, fields[..i]), v);
        match reg.vectorSpaces[v.0].state
        case Ready(id) => ready := ready + [(id, v.1)];
        case Deferred(_) => deferred := deferred + [v];
      } else {
        NoVector(shape, fields, i);
      }
      i := i + 1;
    }
    assert fields[..i] == fields;
    r := Ok(PutPlan(coll, ready, deferred));
  }

  /** The field a valid vector value fills, and the vector it adds. */
  function NextVector(shape: Shape, fields: seq<(string, Value)>, i: nat): (field: Field)
    requires FirstFieldError(shape, fields) == None && i < |fields| && fields[i].1.VectorValue?
    ensures field.VectorField?
    ensures NamedVectors(shape, fields[..i + 1]) == NamedVectors(shape, fields[..i])
            + [(field.space, fields[i].1.values)]
  {
    NoErrorAt(shape, fields, i);
    assert fields[..i + 1][..i] == fields[..i];
    FieldNamed(shape.fields, fields[i].0).value
  }

  lemma NoVector(shape: Shape, fields: seq<(string, Value)>, i: nat)
    requires i < |fields| && fields[i].1.TextValue?
    ensures NamedVectors(shape, fields[..i + 1]) == NamedVectors(shape, fields[..i])
  {
    assert fields[..i + 1][..i] == fields[..i];
  }

  lemma SplitStep(reg: Registry, vectors: seq<NamedVector>, v: NamedVector)
    requires Registered(reg, vectors) && v.0 in reg.vectorSpaces
    ensures Registered(reg, vectors + [v])
    ensures ReadyPart(reg, vectors + [v]) ==
            ReadyPart(reg, vectors)
                + (match reg.vectorSpaces[v.0].state case Ready(id) => [(id, v.1)] case Deferred(_) => [])
    ensures DeferredPart(reg, vectors + [v]) ==
            DeferredPart(reg, vectors) + (if reg.vectorSpaces[v.0].state.Deferred? then [v] else [])
  {
    assert (vectors + [v])[..|vectors|] == vectors;
  }

  lemma {:induction false} NoErrorAt(shape: Shape, fields: seq<(string, Value)>, i: nat)
    requires FirstFieldError(shape, fields) == None && i < |fields|
    ensures FieldError(shape, fields[i].0, fields[i].1) == None
  {
    if i > 0 {
      NoErrorAt(shape, fields[1..], i - 1);
    }
  }

  lemma {:induction false} NamedVectorsPrefix(shape: Shape, fields: seq<(string, Value)>, n: nat)
    requires n <= |fields|
    ensures NamedVectors(shape, fields[..n]) <= NamedVectors(shape, fields)
    decreases |fields| - n
  {
    if n < |fields| {
      NamedVectorsPrefix(shape, fields, n + 1);
      assert fields[..n + 1][..n] == fields[..n];
    } else {
      assert fields[..n] == fields;
    }
  }

  /** Every vector of a valid record has the dimension of the field it fills. */
  lemma {:induction false} NamedVectorsFit(shape: Shape, fields: seq<(string, Value)>)
    requires forall i :: 0 <= i < |fields| ==> FieldError(shape, fields[i].0, fields[i].1) == None
    ensures forall v :: v in NamedVectors(shape, fields) ==>
              exists f :: f in shape.fields && f.1 == VectorField(v.0, |v.1|)
  {
    if fields != [] {
      NamedVectorsFit(shape, fields[..|fields| - 1]);
      var last := fields[|fields| - 1];
      FieldNamedMember(shape.fields, last.0);
    }
  }

  lemma {:induction false} FieldNamedMember(fields: seq<(string, Field)>, name: string)
    ensures FieldNamed(fields, name).Some? ==> exists f :: f in fields && f.1 == FieldNamed(fields, name).value
  {
    if fields != [] {
      if fields[0].0 == name {
        assert fields[0] in fields;
      } else {
        FieldNamedMember(fields[1..], name);
      }
    }
  }
}
