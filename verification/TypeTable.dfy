/** How the type map comes about: the built-in base types, then one insertion
    for every data type node of the loaded nodesets. */
module TypeTable {
  import opened Options
  import opened TypeModel
  import opened NodeIdText

  datatype NodeField = NodeField(name: string, valueRank: int, dataType: Option<string>, value: int)

  /** A node handed over by the nodeset loader; ids are C strings or null. */
  datatype LoadedNode =
    | DataTypeNode(name: string, id: Option<string>, isEnum: bool, fields: seq<NodeField>)
    | OtherNode

  /** Id text that the parser has a defined answer for. */
  predicate Readable(id: Option<string>) {
    (id.Some? ==> NulFree(id.value)) && Extract(id).Parsed?
  }

  predicate ReadableNode(n: LoadedNode) {
    n.DataTypeNode? ==> Readable(n.id) && forall f | f in n.fields :: Readable(f.dataType)
  }

  function LiteralOf(f: NodeField): Literal
    requires Readable(f.dataType)
  {
    Literal(f.name, f.valueRank, Extract(f.dataType).id, f.value)
  }

  function FieldOf(f: NodeField): Field
    requires Readable(f.dataType)
  {
    Field(f.name, f.valueRank, Extract(f.dataType).id)
  }

  /** Map insertion: an entry that is there already stays. */
  function Insert(types: TypeMap, t: DataType): TypeMap {
    if t.id in types then types else types[t.id := t]
  }

  function InsertAll(types: TypeMap, ts: seq<DataType>): TypeMap {
    if ts == [] then types else Insert(InsertAll(types, ts[..|ts| - 1]), ts[|ts| - 1])
  }

  const BASE_TYPES: seq<DataType> := [
    Base("bool", Numeric(0, 1)), Base("char", Numeric(0, 2)), Base("unsigned char", Numeric(0, 3)),
    Base("int16_t", Numeric(0, 4)), Base("uint16_t", Numeric(0, 5)), Base("int32_t", Numeric(0, 6)),
    Base("uint32_t", Numeric(0, 7)), Base("int64_t", Numeric(0, 8)), Base("uint64_t", Numeric(0, 9)),
    Base("float", Numeric(0, 10)), Base("double", Numeric(0, 11)), Base("std::string", Numeric(0, 12)),
    Base("uint64_t", Numeric(0, 13)), Base("NodeId", Numeric(0, 17)), Base("QualifiedName", Numeric(0, 20)),
    Base("LocalizedText", Numeric(0, 21))
  ]

  /** The standard's numbers of the types that the generator has a C++ name for. */
  predicate IsBuiltIn(id: NodeId) {
    id.Numeric? && id.ns == 0 && (1 <= id.number <= 13 || id.number == 17 || 20 <= id.number <= 21)
  }

  /** Their C++ names; the standard numbers the integers by width, the signed one first. */
  function BuiltInName(n: int): string {
    match n
    case 1 => "bool" case 2 => "char" case 3 => "unsigned char"
    case 10 => "float" case 11 => "double" case 12 => "std::string" case 13 => "uint64_t"
    case 17 => "NodeId" case 20 => "QualifiedName" case 21 => "LocalizedText"
    case _ => (if n % 2 == 0 then "int" else "uint") + (if n < 6 then "16" else if n < 8 then "32" else "64") + "_t"
  }

  /** Insertions keep every entry under its own id, keep what was there, and add
      nothing but the given types. */
  lemma {:induction false} InsertionsKeep(types: TypeMap, ts: seq<DataType>)
    requires Keyed(types)
    ensures Keyed(InsertAll(types, ts))
    ensures forall id | id in types :: id in InsertAll(types, ts) && InsertAll(types, ts)[id] == types[id]
    ensures forall id | id in InsertAll(types, ts) && id !in types :: InsertAll(types, ts)[id] in ts
  {
    if ts != [] {
      InsertionsKeep(types, ts[..|ts| - 1]);
    }
  }

  /** Over any sequence of insertions the first definition of an id stays. */
  lemma {:induction false} FirstDefinitionWins(types: TypeMap, ts: seq<DataType>, k: nat)
    requires Keyed(types) && k < |ts| && ts[k].id !in types
    requires forall j | 0 <= j < k :: ts[j].id != ts[k].id
    ensures ts[k].id in InsertAll(types, ts) && InsertAll(types, ts)[ts[k].id] == ts[k]
    decreases |ts|
  {
    var front := ts[..|ts| - 1];
    if k < |front| {
      FirstDefinitionWins(types, front, k);
    } else {
      InsertionsKeep(types, front);
    }
  }

  /** Position of a built-in type among the base types. */
  function Position(id: NodeId): int
    requires IsBuiltIn(id)
  {
    if id.number <= 13 then id.number - 1 else if id.number == 17 then 13 else id.number - 6
  }

  lemma BaseTypeAt(k: nat)
    requires k < |BASE_TYPES|
    ensures IsBuiltIn(BASE_TYPES[k].id) && Position(BASE_TYPES[k].id) == k
    ensures BASE_TYPES[k] == Base(BuiltInName(BASE_TYPES[k].id.number), BASE_TYPES[k].id)
  {
    assert k < 16;
    assert k == 0 || k == 1 || k == 2 || k == 3 || k == 4 || k == 5 || k == 6 || k == 7 || k >= 8;
    assert k < 8 || k == 8 || k == 9 || k == 10 || k == 11 || k == 12 || k == 13 || k == 14 || k == 15;
  }

  lemma AtPosition(id: NodeId)
    requires IsBuiltIn(id)
    ensures Position(id) < |BASE_TYPES| && BASE_TYPES[Position(id)].id == id
  {
  }

  /** The base types have different ids, so each of them stands in the first table. */
  lemma BaseTypesStand()
    ensures var types := InsertAll(map[], BASE_TYPES);
      && (forall id :: id in types <==> IsBuiltIn(id))
      && forall id | id in types :: IsBuiltIn(id) && types[id] == Base(BuiltInName(id.number), id)
  {
    var types := InsertAll(map[], BASE_TYPES);
    hide InsertAll, BuiltInName, BASE_TYPES;
    InsertionsKeep(map[], BASE_TYPES);
    forall id | id in types
      ensures IsBuiltIn(id) && types[id] == Base(BuiltInName(id.number), id)
    {
      var k :| 0 <= k < |BASE_TYPES| && BASE_TYPES[k] == types[id];
      BaseTypeAt(k);
    }
    forall id | IsBuiltIn(id)
      ensures id in types
    {
      AtPosition(id);
      var k := Position(id);
      forall j | 0 <= j < k
        ensures BASE_TYPES[j].id != id
      {
        BaseTypeAt(j);
      }
      FirstDefinitionWins(map[], BASE_TYPES, k);
    }
  }

  /** `t` describes node `n`: its name, its id, whether it is an enum, and the name,
      rank and type of every field, with the value for an enum. */
  ghost predicate Describes(t: DataType, n: LoadedNode)
    requires n.DataTypeNode? && ReadableNode(n)
  {
    && t.name == n.name && Extract(n.id) == Parsed(t.id) && (t.Enum? <==> n.isEnum) && (t.Struct? <==> !n.isEnum)
    && (t.Enum? ==> |t.literals| == |n.fields| && forall i | 0 <= i < |n.fields| ::
          var l, f := t.literals[i], n.fields[i];
          && l.name == f.name && l.valueRank == f.valueRank && l.value == f.value
          && Extract(f.dataType) == Parsed(l.dataType))
    && (t.Struct? ==> |t.fields| == |n.fields| && forall i | 0 <= i < |n.fields| ::
          var d, f := t.fields[i], n.fields[i];
          d.name == f.name && d.valueRank == f.valueRank && Extract(f.dataType) == Parsed(d.dataType))
  }

  class TypeTable {
    var types: TypeMap

    /** The types inserted so far, the base types first. */
    ghost var inserted: seq<DataType>

    ghost predicate Valid()
      reads this
    {
      BASE_TYPES <= inserted && types == InsertAll(map[], inserted)
    }

    constructor ()
      ensures Valid() && inserted == BASE_TYPES
      ensures forall id :: id in types <==> IsBuiltIn(id)
      ensures forall id | id in types :: IsBuiltIn(id) && types[id] == Base(BuiltInName(id.number), id)
    {
      types := InsertAll(map[], BASE_TYPES);
      inserted := BASE_TYPES;
      new;
      hide InsertAll;
      BaseTypesStand();
    }

    /** The loader's callback for one node: its description is inserted, and stands
        in the table unless its id was taken. */
    method AddNode(n: LoadedNode)
      requires Valid() && ReadableNode(n)
      modifies this
      ensures Valid() && Keyed(types)
      ensures n.OtherNode? ==> inserted == old(inserted) && types == old(types)
      ensures n.DataTypeNode? ==>
        && |inserted| == |old(inserted)| + 1 && inserted[..|old(inserted)|] == old(inserted)
        && var t := inserted[|old(inserted)|];
           Describes(t, n) && types == if t.id in old(types) then old(types) else old(types)[t.id := t]
    {
      hide Extract, InsertAll;
      if n.DataTypeNode? {
        var id := Extract(n.id).id;
        var t: DataType;
        if n.isEnum {
          var literals := ReadLiterals(n);
          t := Enum(n.name, id, literals);
        } else {
          var fields := ReadFields(n);
          t := Struct(n.name, id, fields);
        }
        types := Insert(types, t);
        inserted := inserted + [t];
        InsertOneMore(old(inserted), t);
      }
      InsertionsKeep(map[], inserted);
    }

    method ReadLiterals(n: LoadedNode) returns (literals: seq<Literal>)
      requires n.DataTypeNode? && ReadableNode(n)
      ensures |literals| == |n.fields| && forall i | 0 <= i < |literals| :: literals[i] == LiteralOf(n.fields[i])
    {
      hide Readable, Extract;
      literals := [];
      for i := 0 to |n.fields|
        invariant |literals| == i && forall k | 0 <= k < i :: literals[k] == LiteralOf(n.fields[k])
      {
        literals := literals + [LiteralOf(n.fields[i])];
      }
    }

    method ReadFields(n: LoadedNode) returns (fields: seq<Field>)
      requires n.DataTypeNode? && ReadableNode(n)
      ensures |fields| == |n.fields| && forall i | 0 <= i < |fields| :: fields[i] == FieldOf(n.fields[i])
    {
      hide Readable, Extract;
      fields := [];
      for i := 0 to |n.fields|
        invariant |fields| == i && forall k | 0 <= k < i :: fields[k] == FieldOf(n.fields[k])
      {
        fields := fields + [FieldOf(n.fields[i])];
      }
    }
  }

  lemma InsertOneMore(ts: seq<DataType>, t: DataType)
    ensures InsertAll(map[], ts + [t]) == Insert(InsertAll(map[], ts), t)
  {
    assert (ts + [t])[..|ts|] == ts;
  }
}
