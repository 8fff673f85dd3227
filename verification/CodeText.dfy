/** The text the generator writes for one type, piece by piece. */
module CodeText {
  import opened TypeModel
  import opened Nesting
  import Decimal

  function UpperChar(c: char): char {
    if 'a' <= c <= 'z' then c - 'a' + 'A' else c
  }

  function LowerChar(c: char): char {
    if 'A' <= c <= 'Z' then c - 'A' + 'a' else c
  }

  function Upper(s: string): string {
    seq(|s|, i requires 0 <= i < |s| => UpperChar(s[i]))
  }

  function FirstToLow(s: string): string {
    if s == "" then "" else [LowerChar(s[0])] + s[1..]
  }

  // ----- Header text -----

  function ToVariantSignature(t: DataType): seq<Piece> {
    [Code("void toUAVariantImpl")] +
    Group(Paren, [Code("const "), Name(t.name), Code("& val, "), Code("UA_Variant *var")])
  }

  function FromSignature(t: DataType, suffix: seq<Piece>): seq<Piece> {
    [Code("const UA_"), Name(t.name), Code(" from"), Name(t.name)] +
    Group(Paren, [Code("const "), Name(t.name)] + suffix)
  }

  function ConversionDecl(t: DataType): seq<Piece> {
    var prefix := if t.Struct? then [Code("friend ")] else [];
    Cat([prefix, ToVariantSignature(t), [Code(";\n\n")],
         prefix, FromSignature(t, [Code("& val")]), [Code(";\n")]])
  }

  function ClassHead(t: DataType): seq<Piece> {
    [Code(if t.Struct? then "class " else "enum class "), Name(t.name), Code("\n")]
  }

  function BodyStart(t: DataType): seq<Piece> {
    [Code(if t.Struct? then "\npublic:\n" else "\n")]
  }

  function OpenHeader(t: DataType): seq<Piece> {
    ClassHead(t) + [Open(Brace)] + BodyStart(t)
  }

  function CloseHeader(): seq<Piece> {
    [Close(Brace)] + [Code(";\n\n")]
  }

  /** Written in place of a member whose type is not in the map. */
  const UNKNOWN_MEMBER := Code("unknown type\n")

  function Member(types: TypeMap, f: Field): seq<Piece> {
    if f.dataType !in types then [UNKNOWN_MEMBER]
    else if f.valueRank > -1 then
      [Code("std::vector<"), Name(types[f.dataType].name), Code("> "), Name(FirstToLow(f.name)), Code(";\n")]
    else
      [Name(types[f.dataType].name), Code(" "), Name(FirstToLow(f.name)), Code(";\n")]
  }

  function Members(types: TypeMap, fields: seq<Field>): seq<Piece> {
    if fields == [] then [] else
      Members(types, fields[..|fields| - 1]) + Member(types, fields[|fields| - 1])
  }

  function Ordinal(enumName: string, l: Literal): seq<Piece> {
    [Name(Upper(enumName)), Code("_"), Name(Upper(l.name)), Code(" = "), Name(Decimal.PrintInt(l.value)), Code(",\n")]
  }

  function Ordinals(enumName: string, literals: seq<Literal>): seq<Piece> {
    if literals == [] then [] else
      Ordinals(enumName, literals[..|literals| - 1]) + Ordinal(enumName, literals[|literals| - 1])
  }

  function AddHeader(types: TypeMap, t: DataType): seq<Piece> {
    match t
    case Base(_, _) => []
    case Enum(name, _, literals) => Ordinals(name, literals)
    case Struct(_, _, fields) => ConversionDecl(t) + [Code("public:\n")] + Members(types, fields)
  }

  /** The entry of the type table that belongs to a type. */
  function TypeEntry(typeIndex: string): seq<Piece> {
    [Code("&UA_TYPES")] + Group(Square, [Code("UA_TYPES_"), Name(typeIndex)])
  }

  function DataTypeTemplate(t: DataType): seq<Piece> {
    Cat([TemplateHead(t), Group(Paren, []), [Code(" ")], Group(Brace, TemplateBody(t)), [Code("\n")]])
  }

  function TemplateHead(t: DataType): seq<Piece> {
    [Code("template<>\n"), Code("inline const "), Code("UA_DataType* "), Code("getDataType<"), Name(t.name), Code(">")]
  }

  function TemplateBody(t: DataType): seq<Piece> {
    Cat([[Code("\nreturn ")], TypeEntry(Upper(t.name)), [Code(";\n")]])
  }

  function AfterHeader(t: DataType): seq<Piece> {
    if t.Struct? then DataTypeTemplate(t) else ConversionDecl(t)
  }

  /** Everything one struct or enum adds to the header. */
  function HeaderText(types: TypeMap, t: DataType): seq<Piece> {
    if t.Base? then [] else OpenHeader(t) + AddHeader(types, t) + CloseHeader() + AfterHeader(t)
  }

  // ----- Implementation text -----

  /** The member `n` of the value being converted, whole or its element `i`. */
  function ValueOf(n: string, element: bool): seq<Piece> {
    [Code("val."), Name(n)] + (if element then Group(Square, [Code("i")]) else [])
  }

  function Cast(t: DataType, value: seq<Piece>): seq<Piece> {
    Cat([[Code("static_cast<UA_"), Name(t.name), Code(">")], Group(Paren, value), [Code(";\n")]])
  }

  function CallFrom(t: DataType, value: seq<Piece>): seq<Piece> {
    Cat([[Code("from"), Name(t.name)], Group(Paren, value), [Code(";\n")]])
  }

  /** Structs with a numeric id up to 11 are cast, other structs converted. */
  predicate CastAsScalar(t: DataType) {
    !t.Struct? || (t.id.Numeric? && t.id.number <= 11)
  }

  function ScalarConversion(t: DataType, n: string): seq<Piece> {
    if !CastAsScalar(t) then CallFrom(t, ValueOf(n, false))
    else if t.Struct? then [Code(" ")] + Cast(t, ValueOf(n, false))
    else Cast(t, ValueOf(n, false))
  }

  function ArrayConversion(t: DataType, n: string): seq<Piece> {
    if t.Struct? then CallFrom(t, ValueOf(n, true)) else Cast(t, ValueOf(n, true))
  }

  function SizeOf(n: string): seq<Piece> {
    [Code("val."), Name(n), Code(".size")] + Group(Paren, [])
  }

  function ArraySizeLine(n: string): seq<Piece> {
    Cat([[Code("uaval."), Name(n), Code("Size = ")], SizeOf(n), [Code(";\n")]])
  }

  function ArrayNewLine(t: DataType, n: string): seq<Piece> {
    Cat([[Code("uaval."), Name(n), Code(" = "), Code("static_cast<UA_"), Name(t.name), Code("*>")],
         Group(Paren, NewArray(t, n)), [Code(";\n")]])
  }

  function NewArray(t: DataType, n: string): seq<Piece> {
    [Code("UA_Array_new")] + Group(Paren, Cat([SizeOf(n), [Code(", ")], TypeEntry(Upper(t.name))]))
  }

  function ArrayLoop(t: DataType, n: string): seq<Piece> {
    Cat([[Code("for")], Group(Paren, LoopControl(n)), Group(Brace, LoopBody(t, n)), [Code("\n")]])
  }

  function LoopControl(n: string): seq<Piece> {
    Cat([[Code("auto i=0; i<")], SizeOf(n), [Code("; i++")]])
  }

  function LoopBody(t: DataType, n: string): seq<Piece> {
    Cat([[Code("uaval."), Name(n)], Group(Square, [Code("i")]), [Code(" = ")], ArrayConversion(t, n)])
  }

  /** The array branch shared by struct and enum fields. */
  function ArrayField(t: DataType, n: string): seq<Piece> {
    ArraySizeLine(n) + ArrayNewLine(t, n) + ArrayLoop(t, n)
  }

  function FieldConversion(types: TypeMap, f: Field): seq<Piece>
    requires f.dataType in types
  {
    var n := FirstToLow(f.name);
    if f.valueRank > 0 then ArrayField(types[f.dataType], n)
    else [Code("uaval."), Name(n), Code(" = ")] + ScalarConversion(types[f.dataType], n)
  }

  function FieldConversions(types: TypeMap, fields: seq<Field>): seq<Piece>
    requires forall f | f in fields :: f.dataType in types
  {
    if fields == [] then [] else
      FieldConversions(types, fields[..|fields| - 1]) + FieldConversion(types, fields[|fields| - 1])
  }

  /** An enum literal whose type is absent writes nothing. */
  function LiteralConversion(types: TypeMap, l: Literal): seq<Piece> {
    if l.dataType !in types then []
    else if l.valueRank > 0 then ArrayField(types[l.dataType], FirstToLow(l.name))
    else ScalarConversion(types[l.dataType], FirstToLow(l.name))
  }

  function LiteralConversions(types: TypeMap, literals: seq<Literal>): seq<Piece> {
    if literals == [] then [] else
      LiteralConversions(types, literals[..|literals| - 1]) + LiteralConversion(types, literals[|literals| - 1])
  }

  function DeclareValue(t: DataType): seq<Piece> {
    [Code("UA_"), Name(t.name), Code(" uaval;\n")]
  }

  function CopyToVariant(typeIndex: string): seq<Piece> {
    Cat([[Code("UA_Variant_"), Code("setScalarCopy")], Group(Paren, [Code("var, &uaval, ")] + TypeEntry(typeIndex)),
         [Code(";\n")]])
  }

  /** Every type named by a field is in the map, so no lookup fails. */
  predicate FieldsResolve(types: TypeMap, t: DataType) {
    t.Struct? ==> forall f | f in t.fields :: f.dataType in types
  }

  function FieldBody(types: TypeMap, t: DataType): seq<Piece>
    requires FieldsResolve(types, t)
  {
    match t
    case Base(_, _) => []
    case Enum(_, _, literals) => LiteralConversions(types, literals)
    case Struct(_, _, fields) => FieldConversions(types, fields)
  }

  function ToVariantBody(types: TypeMap, t: DataType): seq<Piece>
    requires FieldsResolve(types, t)
  {
    if t.Struct? then DeclareValue(t) + FieldBody(types, t) + CopyToVariant(Upper(t.name))
    else EnumCast(t) + CopyToVariant("INT32")
  }

  function EnumCast(t: DataType): seq<Piece> {
    Cat([[Code("UA_Int32 uaval = "), Code("static_cast<UA_"), Name(t.name), Code(">")],
         Group(Paren, [Code("val")]), [Code(";\n")]])
  }

  function ToVariantImpl(types: TypeMap, t: DataType): seq<Piece>
    requires FieldsResolve(types, t)
  {
    ToVariantSignature(t) + [Code("\n")] + Group(Brace, [Code("\n")] + ToVariantBody(types, t)) + [Code("\n\n")]
  }

  function FromConversionImpl(types: TypeMap, t: DataType): seq<Piece>
    requires FieldsResolve(types, t)
  {
    FromSignature(t, [Code(" &val")]) + [Code(" ")] +
    Group(Brace, [Code("\n")] + FromConversionBody(types, t)) + [Code("\n\n")]
  }

  function FromConversionBody(types: TypeMap, t: DataType): seq<Piece>
    requires FieldsResolve(types, t)
  {
    DeclareValue(t) + FieldBody(types, t) + [Code("return uaval;\n")]
  }

  /** Everything one struct or enum adds to the implementation. */
  function ImplText(types: TypeMap, t: DataType): seq<Piece>
    requires FieldsResolve(types, t)
  {
    if t.Base? then [] else ToVariantImpl(types, t) + FromConversionImpl(types, t)
  }

  // ----- Text around the types -----

  function HeaderIncludes(): seq<Piece> {
    [Code("#pragma once\n")] + Include("string>\n") + IncludeType("LocalizedText.h>\n")
  }

  function ImplIncludes(): seq<Piece> {
    Include("generated.h>\n") + Include("opc/Variant.h>\n") + IncludeTypes()
  }

  function IncludeTypes(): seq<Piece> {
    IncludeType("StdTypes.h>\n") + IncludeType("NodeId.h>\n") + IncludeType("QualifiedName.h>\n")
  }

  function Include(file: Fragment): seq<Piece> {
    [Code("#include <"), Code(file)]
  }

  function IncludeType(file: Fragment): seq<Piece> {
    [Code("#include <"), Code("opc/types/"), Code(file)]
  }

  function OpenHeaderNamespace(ns: string): seq<Piece> {
    [Code("namespace "), Name(ns), Code(" "), Open(Brace), Code("\n")]
  }

  function OpenImplNamespace(ns: string): seq<Piece> {
    [Code("namespace "), Name(ns), Code(" "), Open(Brace)]
  }
}
