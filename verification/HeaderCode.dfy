/** What the generated header declares, read back from its text. */
module HeaderCode {
  import opened Options
  import opened TypeModel
  import opened Nesting
  import opened CodeText
  import Decimal

  // ----- Members -----

  datatype MemberDecl = MemberDecl(typeName: string, isVector: bool, name: string)

  predicate EndsInScalar(ps: seq<Piece>) {
    var n := |ps|;
    n >= 4 && ps[n - 4].Name? && ps[n - 3] == Code(" ") && ps[n - 2].Name? && ps[n - 1] == Code(";\n")
  }

  predicate EndsInVector(ps: seq<Piece>) {
    var n := |ps|;
    && n >= 5 && ps[n - 5] == Code("std::vector<") && ps[n - 4].Name? && ps[n - 3] == Code("> ")
    && ps[n - 2].Name? && ps[n - 1] == Code(";\n")
  }

  /** The member declarations that a text consists of; None for any other text. */
  function ReadMembers(ps: seq<Piece>): Option<seq<MemberDecl>>
    decreases |ps|
  {
    var n := |ps|;
    if n == 0 then Some([])
    else if EndsInScalar(ps) then
      match ReadMembers(ps[..n - 4])
      case None => None
      case Some(ds) => Some(ds + [MemberDecl(ps[n - 4].name, false, ps[n - 2].name)])
    else if EndsInVector(ps) then
      match ReadMembers(ps[..n - 5])
      case None => None
      case Some(ds) => Some(ds + [MemberDecl(ps[n - 4].name, true, ps[n - 2].name)])
    else None
  }

  /** A field of any array rank, 0 included, is declared as a vector. */
  function MemberOf(types: TypeMap, f: Field): MemberDecl
    requires f.dataType in types
  {
    MemberDecl(types[f.dataType].name, f.valueRank >= 0, FirstToLow(f.name))
  }

  lemma ReadKnownMember(types: TypeMap, ps: seq<Piece>, f: Field)
    requires f.dataType in types
    ensures ReadMembers(ps + Member(types, f)) ==
      match ReadMembers(ps) case None => None case Some(ds) => Some(ds + [MemberOf(types, f)])
  {
    var name, n := types[f.dataType].name, FirstToLow(f.name);
    hide FirstToLow;
    if f.valueRank > -1 {
      ReadVector(ps, name, n);
    } else {
      ReadScalar(ps, name, n);
    }
  }

  lemma ReadScalar(ps: seq<Piece>, typeName: string, n: string)
    ensures ReadMembers(ps + [Name(typeName), Code(" "), Name(n), Code(";\n")]) ==
      match ReadMembers(ps) case None => None case Some(ds) => Some(ds + [MemberDecl(typeName, false, n)])
  {
    var m := [Name(typeName), Code(" "), Name(n), Code(";\n")];
    Ending(ps, m);
    assert EndsInScalar(ps + m);
    hide EndsInScalar, EndsInVector;
  }

  lemma ReadVector(ps: seq<Piece>, typeName: string, n: string)
    ensures ReadMembers(ps + [Code("std::vector<"), Name(typeName), Code("> "), Name(n), Code(";\n")]) ==
      match ReadMembers(ps) case None => None case Some(ds) => Some(ds + [MemberDecl(typeName, true, n)])
  {
    var m := [Code("std::vector<"), Name(typeName), Code("> "), Name(n), Code(";\n")];
    Ending(ps, m);
    VectorMark();
    assert EndsInVector(ps + m) && !EndsInScalar(ps + m);
    hide EndsInScalar, EndsInVector;
  }

  lemma VectorMark()
    ensures Code("> ") != Code(" ")
  {
    assert |"> "| == 2;
  }

  lemma Ending(ps: seq<Piece>, m: seq<Piece>)
    ensures (ps + m)[..|ps + m| - |m|] == ps
    ensures |ps + m| == |ps| + |m| && (ps + m)[|ps|..] == m
    ensures forall k | |ps| <= k < |ps + m| :: (ps + m)[k] == m[k - |ps|]
  {
  }

  lemma ReadUnknownMember(types: TypeMap, ps: seq<Piece>, f: Field)
    requires f.dataType !in types
    ensures Member(types, f) == [Code("unknown type\n")] && ReadMembers(ps + Member(types, f)).None?
  {
    var all := ps + Member(types, f);
    assert all[|all| - 1] == UNKNOWN_MEMBER;
    assert UNKNOWN_MEMBER.fixed[0] == 'u' && ";\n"[0] == ';';
  }

  /** `ds` declares the fields in order; all their types are known. */
  ghost predicate Declares(types: TypeMap, fields: seq<Field>, ds: seq<MemberDecl>) {
    && |ds| == |fields|
    && forall i | 0 <= i < |ds| :: fields[i].dataType in types && ds[i] == MemberOf(types, fields[i])
  }

  /** The member text of a struct is read as its fields in order, exactly when all
      their types are known. */
  lemma {:induction false} ReadMembersOf(types: TypeMap, fields: seq<Field>)
    ensures var r := ReadMembers(Members(types, fields));
      (r.Some? <==> forall f | f in fields :: f.dataType in types) && (r.Some? ==> Declares(types, fields, r.value))
  {
    hide Member, Members, MemberOf, ReadMembers;
    if fields == [] {
      ReadNothing(types);
    } else {
      var front, last := fields[..|fields| - 1], fields[|fields| - 1];
      MembersSplit(types, fields);
      ReadMembersOf(types, front);
      if last.dataType in types {
        ReadKnownMember(types, Members(types, front), last);
      } else {
        ReadUnknownMember(types, Members(types, front), last);
      }
      assert forall f | f in fields :: f in front || f == last;
    }
  }

  lemma ReadNothing(types: TypeMap)
    ensures Members(types, []) == [] && ReadMembers([]) == Some([])
  {
  }

  lemma MembersSplit(types: TypeMap, fields: seq<Field>)
    requires fields != []
    ensures Members(types, fields) == Members(types, fields[..|fields| - 1]) + Member(types, fields[|fields| - 1])
  {
  }

  // ----- Ordinals -----

  datatype OrdinalDecl = OrdinalDecl(enumName: string, name: string, value: int)

  function ReadInt(s: string): Option<int> {
    var negative := s != "" && s[0] == '-';
    var digits := if negative then s[1..] else s;
    if !Decimal.AllDigits(digits) || digits == "" then None else
      var n: int := Decimal.Value(digits);
      Some(if negative then -n else n)
  }

  lemma ReadIntOf(i: int)
    ensures ReadInt(Decimal.PrintInt(i)) == Some(i)
  {
    var n := Decimal.Magnitude(i);
    Decimal.ValueOfPrint(n);
    Decimal.SignShows(i, "");
    assert Decimal.PrintInt(i) + "" == Decimal.PrintInt(i) && Decimal.Print(n) + "" == Decimal.Print(n);
  }

  function ReadOrdinals(ps: seq<Piece>): Option<seq<OrdinalDecl>>
    decreases |ps|
  {
    var n := |ps|;
    if n == 0 then Some([])
    else if n < 6 || !ps[n - 6].Name? || !ps[n - 4].Name? || !ps[n - 2].Name? then None
    else if ps[n - 5] != Code("_") || ps[n - 3] != Code(" = ") || ps[n - 1] != Code(",\n") then None
    else
      match (ReadOrdinals(ps[..n - 6]), ReadInt(ps[n - 2].name))
      case (Some(ds), Some(value)) => Some(ds + [OrdinalDecl(ps[n - 6].name, ps[n - 4].name, value)])
      case _ => None
  }

  lemma ReadOneOrdinal(ps: seq<Piece>, enumName: string, l: Literal)
    requires ReadOrdinals(ps).Some?
    ensures ReadOrdinals(ps + Ordinal(enumName, l)) ==
      Some(ReadOrdinals(ps).value + [OrdinalDecl(Upper(enumName), Upper(l.name), l.value)])
  {
    hide Upper, ReadInt, Decimal.PrintInt;
    ReadIntOf(l.value);
    var all := ps + Ordinal(enumName, l);
    assert all[..|ps|] == ps && |all| - 6 == |ps|;
  }

  /** The text of an enum's body is read as its literals in order, in upper case. */
  lemma {:induction false} ReadOrdinalsOf(enumName: string, literals: seq<Literal>)
    ensures var r := ReadOrdinals(Ordinals(enumName, literals));
      && r.Some? && |r.value| == |literals|
      && forall i | 0 <= i < |literals| ::
        r.value[i] == OrdinalDecl(Upper(enumName), Upper(literals[i].name), literals[i].value)
  {
    hide Upper, Ordinal, Ordinals, ReadOrdinals;
    if literals == [] {
      ReadNoOrdinal(enumName);
    } else {
      var front, last := literals[..|literals| - 1], literals[|literals| - 1];
      OrdinalsSplit(enumName, literals);
      ReadOrdinalsOf(enumName, front);
      ReadOneOrdinal(Ordinals(enumName, front), enumName, last);
    }
  }

  lemma ReadNoOrdinal(enumName: string)
    ensures Ordinals(enumName, []) == [] && ReadOrdinals([]) == Some([])
  {
  }

  lemma OrdinalsSplit(enumName: string, literals: seq<Literal>)
    requires literals != []
    ensures Ordinals(enumName, literals) ==
      Ordinals(enumName, literals[..|literals| - 1]) + Ordinal(enumName, literals[|literals| - 1])
  {
  }

  // ----- One type -----

  /** The two functions of a type, up to their parameter's name. */
  function ToVariantHead(n: string): seq<Piece> {
    [Code("void toUAVariantImpl"), Open(Paren), Code("const "), Name(n), Code("& val, "), Code("UA_Variant *var")] +
    [Close(Paren)]
  }

  function FromHead(n: string, parameter: Piece): seq<Piece> {
    [Code("const UA_"), Name(n), Code(" from"), Name(n), Open(Paren), Code("const "), Name(n), parameter, Close(Paren)]
  }

  lemma HeadsText(t: DataType, parameter: Piece)
    ensures ToVariantSignature(t) == ToVariantHead(t.name)
    ensures FromSignature(t, [parameter]) == FromHead(t.name, parameter)
  {
  }

  lemma DeclarationText(t: DataType)
    ensures var friend: seq<Piece> := if t.Struct? then [Code("friend ")] else [];
      ConversionDecl(t) == friend + ToVariantHead(t.name) + [Code(";\n\n")] +
        friend + FromHead(t.name, Code("& val")) + [Code(";\n")]
  {
    hide Cat;
    HeadsText(t, Code("& val"));
    hide ToVariantHead, FromHead, ToVariantSignature, FromSignature;
    var friend: seq<Piece> := if t.Struct? then [Code("friend ")] else [];
    Cat6(friend, ToVariantSignature(t), [Code(";\n\n")], friend, FromSignature(t, [Code("& val")]), [Code(";\n")]);
  }

  lemma TemplateText(t: DataType)
    ensures DataTypeTemplate(t) ==
      [Code("template<>\n"), Code("inline const "), Code("UA_DataType* "), Code("getDataType<"), Name(t.name)] +
      [Code(">"), Open(Paren), Close(Paren), Code(" "), Open(Brace), Code("\nreturn "), Code("&UA_TYPES")] +
      [Open(Square), Code("UA_TYPES_"), Name(Upper(t.name)), Close(Square), Code(";\n"), Close(Brace), Code("\n")]
  {
    hide Cat, Upper;
    var entry := TypeEntry(Upper(t.name));
    Cat3([Code("\nreturn ")], entry, [Code(";\n")]);
    Cat5(TemplateHead(t), Group(Paren, []), [Code(" ")], Group(Brace, TemplateBody(t)), [Code("\n")]);
  }

  /** A struct becomes a class that befriends its two conversion functions and has
      its members inside, followed by its entry of the type table. */
  lemma StructLayout(types: TypeMap, t: DataType)
    requires t.Struct?
    ensures HeaderText(types, t) ==
      [Code("class "), Name(t.name), Code("\n"), Open(Brace), Code("\npublic:\n")] +
      [Code("friend ")] + ToVariantHead(t.name) + [Code(";\n\n")] +
      [Code("friend ")] + FromHead(t.name, Code("& val")) + [Code(";\n")] +
      [Code("public:\n")] + Members(types, t.fields) + [Close(Brace), Code(";\n\n")] + DataTypeTemplate(t)
  {
    DeclarationText(t);
    var to, from := ToVariantHead(t.name), FromHead(t.name, Code("& val"));
    hide ConversionDecl, ToVariantHead, FromHead, Members, DataTypeTemplate;
    StructShape(Code("class "), Name(t.name), Code("\n"), Code("\npublic:\n"), Code("friend "), to, Code(";\n\n"), from,
                Code(";\n"), Code("public:\n"), Members(types, t.fields), Code(";\n\n"), DataTypeTemplate(t));
  }

  lemma StructShape(a: Piece, b: Piece, c: Piece, start: Piece, f: Piece, to: seq<Piece>, e1: Piece, from: seq<Piece>,
                    e2: Piece, pub: Piece, members: seq<Piece>, end: Piece, template: seq<Piece>)
    ensures [a, b, c] + [Open(Brace)] + [start] + ([f] + to + [e1] + [f] + from + [e2] + [pub] + members) +
      ([Close(Brace)] + [end]) + template ==
      [a, b, c, Open(Brace), start] + [f] + to + [e1] + [f] + from + [e2] + [pub] + members +
      [Close(Brace), end] + template
  {
  }

  /** An enum becomes an enum class with its ordinals inside, followed by the
      declarations of its two conversion functions. */
  lemma EnumLayout(types: TypeMap, t: DataType)
    requires t.Enum?
    ensures HeaderText(types, t) ==
      [Code("enum class "), Name(t.name), Code("\n"), Open(Brace), Code("\n")] + Ordinals(t.name, t.literals) +
      [Close(Brace), Code(";\n\n")] + ToVariantHead(t.name) + [Code(";\n\n")] +
      FromHead(t.name, Code("& val")) + [Code(";\n")]
  {
    DeclarationText(t);
    hide ConversionDecl, ToVariantHead, FromHead, Ordinals;
  }

  // ----- Includes -----

  /** The lines in front of the types of each call. */
  lemma HeaderIncludeLines()
    ensures HeaderIncludes() ==
      [Code("#pragma once\n"), Code("#include <"), Code("string>\n")] +
      [Code("#include <"), Code("opc/types/"), Code("LocalizedText.h>\n")]
  {
  }

  lemma ImplIncludeLines()
    ensures ImplIncludes() ==
      [Code("#include <"), Code("generated.h>\n"), Code("#include <"), Code("opc/Variant.h>\n")] + IncludeTypes()
  {
    hide IncludeTypes;
  }

  lemma IncludeTypeLines()
    ensures IncludeTypes() ==
      [Code("#include <"), Code("opc/types/"), Code("StdTypes.h>\n")] +
      [Code("#include <"), Code("opc/types/"), Code("NodeId.h>\n")] +
      [Code("#include <"), Code("opc/types/"), Code("QualifiedName.h>\n")]
  {
  }

  // ----- Letter case -----

  /** Upper case changes nothing but the case of letters, and leaves none small. */
  lemma UpperIsUpper(s: string)
    ensures |Upper(s)| == |s|
    ensures forall i | 0 <= i < |s| :: LowerChar(Upper(s)[i]) == LowerChar(s[i]) && !('a' <= Upper(s)[i] <= 'z')
  {
  }

  /** A member name differs from the field name in the case of its first letter only. */
  lemma FirstToLowIsLow(s: string)
    ensures Upper(FirstToLow(s)) == Upper(s) && |FirstToLow(s)| == |s|
    ensures s != "" ==> FirstToLow(s)[1..] == s[1..] && !('A' <= FirstToLow(s)[0] <= 'Z')
  {
  }
}
