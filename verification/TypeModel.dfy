/** The generator's data: node ids as the generator sees them, and the map from
    node ids to type descriptions that the nodeset loader fills. */
module TypeModel {
  import opened Integers

  datatype NodeId =
    | Numeric(ns: uint16, number: int32)
    | Textual(ns: uint16, text: string)

  datatype Field = Field(name: string, valueRank: int, dataType: NodeId)

  datatype Literal = Literal(name: string, valueRank: int, dataType: NodeId, value: int)

  datatype DataType =
    | Base(name: string, id: NodeId)
    | Enum(name: string, id: NodeId, literals: seq<Literal>)
    | Struct(name: string, id: NodeId, fields: seq<Field>)

  type TypeMap = map<NodeId, DataType>

  /** Every entry is stored under its own id. */
  ghost predicate Keyed(types: TypeMap) {
    forall id | id in types :: types[id].id == id
  }

  /** Structs and enums are written out; base types are not. */
  predicate Emittable(types: TypeMap, id: NodeId) {
    id in types && !types[id].Base?
  }

  predicate IsStruct(types: TypeMap, id: NodeId) {
    id in types && types[id].Struct?
  }

  /** `t` is a struct with a field of type `id`. */
  predicate Names(t: DataType, id: NodeId) {
    t.Struct? && exists i | 0 <= i < |t.fields| :: t.fields[i].dataType == id
  }
}
