/** Bracket structure of the generated text: every type leaves open exactly what
    was open before it. */
module TextNesting {
  import opened TypeModel
  import opened Nesting
  import opened Options
  import opened CodeText
  import Decimal

  /** Neither the name `n` nor that of the type `d`, if there is one, carries a bracket. */
  ghost predicate PlainUse(types: TypeMap, n: string, d: NodeId) {
    Plain(n) && (d in types ==> Plain(types[d].name))
  }

  ghost predicate PlainFields(types: TypeMap, fields: seq<Field>) {
    forall f | f in fields :: PlainUse(types, f.name, f.dataType)
  }

  ghost predicate PlainLiterals(types: TypeMap, literals: seq<Literal>) {
    forall l | l in literals :: PlainUse(types, l.name, l.dataType)
  }

  /** No name in the text of `t` carries a bracket: its own, those of its fields
      or literals, and those of their types. */
  ghost predicate PlainType(types: TypeMap, t: DataType) {
    && Plain(t.name)
    && (t.Struct? ==> PlainFields(types, t.fields))
    && (t.Enum? ==> PlainLiterals(types, t.literals))
  }

  lemma ToVariantSignatureBalanced(t: DataType)
    requires Plain(t.name)
    ensures Balanced(ToVariantSignature(t))
  {
    var args := [Code("const "), Name(t.name), Code("& val, "), Code("UA_Variant *var")];
    BalancedGroup(Paren, args);
    BalancedConcat([Code("void toUAVariantImpl")], Group(Paren, args));
  }

  lemma FromSignatureBalanced(t: DataType, suffix: seq<Piece>)
    requires Plain(t.name) && Inline(suffix)
    ensures Balanced(FromSignature(t, suffix))
  {
    var args := [Code("const "), Name(t.name)] + suffix;
    BalancedGroup(Paren, args);
    BalancedConcat([Code("const UA_"), Name(t.name), Code(" from"), Name(t.name)], Group(Paren, args));
  }

  lemma ConversionDeclBalanced(t: DataType)
    requires Plain(t.name)
    ensures Balanced(ConversionDecl(t))
  {
    var prefix := if t.Struct? then [Code("friend ")] else [];
    ToVariantSignatureBalanced(t);
    FromSignatureBalanced(t, [Code("& val")]);
    BalancedCat([prefix, ToVariantSignature(t), [Code(";\n\n")],
                 prefix, FromSignature(t, [Code("& val")]), [Code(";\n")]]);
  }

  lemma MemberBalanced(types: TypeMap, f: Field)
    requires PlainUse(types, f.name, f.dataType)
    ensures Balanced(Member(types, f))
  {
    BalancedInline(Member(types, f));
  }

  lemma {:induction false} MembersBalanced(types: TypeMap, fields: seq<Field>)
    requires PlainFields(types, fields)
    ensures Balanced(Members(types, fields))
  {
    if fields == [] {
      BalancedInline([]);
    } else {
      MembersBalanced(types, fields[..|fields| - 1]);
      MemberBalanced(types, fields[|fields| - 1]);
      BalancedConcat(Members(types, fields[..|fields| - 1]), Member(types, fields[|fields| - 1]));
    }
  }

  lemma NumberPlain(i: int)
    ensures Plain(Decimal.PrintInt(i))
  {
    var s := Decimal.Print(Decimal.Magnitude(i));
    assert forall k | 0 <= k < |s| :: Decimal.IsDigit(s[k]);
  }

  lemma OrdinalBalanced(enumName: string, l: Literal)
    requires Plain(enumName) && Plain(l.name)
    ensures Balanced(Ordinal(enumName, l))
  {
    NumberPlain(l.value);
    BalancedInline(Ordinal(enumName, l));
  }

  lemma {:induction false} OrdinalsBalanced(enumName: string, literals: seq<Literal>)
    requires Plain(enumName) && forall l | l in literals :: Plain(l.name)
    ensures Balanced(Ordinals(enumName, literals))
  {
    if literals == [] {
      BalancedInline([]);
    } else {
      OrdinalsBalanced(enumName, literals[..|literals| - 1]);
      OrdinalBalanced(enumName, literals[|literals| - 1]);
      BalancedConcat(Ordinals(enumName, literals[..|literals| - 1]), Ordinal(enumName, literals[|literals| - 1]));
    }
  }

  lemma AddHeaderBalanced(types: TypeMap, t: DataType)
    requires PlainType(types, t)
    ensures Balanced(AddHeader(types, t))
  {
    match t
    case Base(_, _) => BalancedInline([]);
    case Enum(name, _, literals) => OrdinalsBalanced(name, literals);
    case Struct(_, _, fields) =>
      ConversionDeclBalanced(t);
      MembersBalanced(types, fields);
      BalancedConcat(ConversionDecl(t), [Code("public:\n")]);
      BalancedConcat(ConversionDecl(t) + [Code("public:\n")], Members(types, fields));
  }

  lemma TypeEntryBalanced(typeIndex: string)
    requires Plain(typeIndex)
    ensures Balanced(TypeEntry(typeIndex))
  {
    var index := [Code("UA_TYPES_"), Name(typeIndex)];
    BalancedGroup(Square, index);
    BalancedConcat([Code("&UA_TYPES")], Group(Square, index));
  }

  lemma TemplateBodyBalanced(t: DataType)
    requires Plain(t.name)
    ensures Balanced(TemplateBody(t))
  {
    TypeEntryBalanced(Upper(t.name));
    BalancedCat([[Code("\nreturn ")], TypeEntry(Upper(t.name)), [Code(";\n")]]);
  }

  lemma DataTypeTemplateBalanced(t: DataType)
    requires Plain(t.name)
    ensures Balanced(DataTypeTemplate(t))
  {
    BalancedInline(TemplateHead(t));
    BalancedGroup(Paren, []);
    TemplateBodyBalanced(t);
    BalancedGroup(Brace, TemplateBody(t));
    BalancedCat([TemplateHead(t), Group(Paren, []), [Code(" ")], Group(Brace, TemplateBody(t)), [Code("\n")]]);
  }

  /** The class or enum body is opened and closed by separate insertions. */
  lemma ClassTextBalanced(types: TypeMap, t: DataType)
    requires PlainType(types, t)
    ensures Balanced(OpenHeader(t) + AddHeader(types, t) + CloseHeader())
  {
    var body := BodyStart(t) + AddHeader(types, t);
    AddHeaderBalanced(types, t);
    BalancedConcat(BodyStart(t), AddHeader(types, t));
    BalancedGroup(Brace, body);
    BalancedConcat(ClassHead(t), Group(Brace, body));
    BalancedConcat(ClassHead(t) + Group(Brace, body), [Code(";\n\n")]);
    Regroup(ClassHead(t), [Open(Brace)], BodyStart(t), AddHeader(types, t), [Close(Brace)], [Code(";\n\n")]);
  }

  lemma Regroup<T>(a: seq<T>, b: seq<T>, c: seq<T>, d: seq<T>, e: seq<T>, f: seq<T>)
    ensures a + b + c + d + (e + f) == a + (b + (c + d) + e) + f
  {
  }

  lemma HeaderTextBalanced(types: TypeMap, t: DataType)
    requires PlainType(types, t)
    ensures Balanced(HeaderText(types, t))
  {
    if t.Base? {
      BalancedInline([]);
    } else {
      ClassTextBalanced(types, t);
      if t.Struct? { DataTypeTemplateBalanced(t); } else { ConversionDeclBalanced(t); }
      BalancedConcat(OpenHeader(t) + AddHeader(types, t) + CloseHeader(), AfterHeader(t));
    }
  }

  // ----- Implementation text -----

  lemma ValueOfBalanced(n: string, element: bool)
    requires Plain(n)
    ensures Balanced(ValueOf(n, element))
  {
    BalancedGroup(Square, [Code("i")]);
    BalancedInline([]);
    BalancedConcat([Code("val."), Name(n)], if element then Group(Square, [Code("i")]) else []);
  }

  lemma CallBalanced(t: DataType, value: seq<Piece>)
    requires Plain(t.name) && Balanced(value)
    ensures Balanced(Cast(t, value)) && Balanced(CallFrom(t, value))
  {
    BalancedGroup(Paren, value);
    BalancedCat([[Code("static_cast<UA_"), Name(t.name), Code(">")], Group(Paren, value), [Code(";\n")]]);
    BalancedCat([[Code("from"), Name(t.name)], Group(Paren, value), [Code(";\n")]]);
  }

  lemma ConversionBalanced(t: DataType, n: string)
    requires Plain(t.name) && Plain(n)
    ensures Balanced(ScalarConversion(t, n)) && Balanced(ArrayConversion(t, n))
  {
    ValueOfBalanced(n, false);
    ValueOfBalanced(n, true);
    CallBalanced(t, ValueOf(n, false));
    CallBalanced(t, ValueOf(n, true));
    BalancedConcat([Code(" ")], Cast(t, ValueOf(n, false)));
  }

  lemma SizeOfBalanced(n: string)
    requires Plain(n)
    ensures Balanced(SizeOf(n)) && Balanced(ArraySizeLine(n))
  {
    BalancedInline([]);
    BalancedGroup(Paren, []);
    BalancedConcat([Code("val."), Name(n), Code(".size")], Group(Paren, []));
    BalancedCat([[Code("uaval."), Name(n), Code("Size = ")], SizeOf(n), [Code(";\n")]]);
  }

  lemma NewArrayBalanced(t: DataType, n: string)
    requires Plain(t.name) && Plain(n)
    ensures Balanced(NewArray(t, n))
  {
    hide SizeOf, TypeEntry;
    SizeOfBalanced(n);
    TypeEntryBalanced(Upper(t.name));
    var args := [SizeOf(n), [Code(", ")], TypeEntry(Upper(t.name))];
    BalancedCat(args);
    BalancedGroup(Paren, Cat(args));
    hide Cat;
    BalancedConcat([Code("UA_Array_new")], Group(Paren, Cat(args)));
  }

  lemma ArrayNewLineBalanced(t: DataType, n: string)
    requires Plain(t.name) && Plain(n)
    ensures Balanced(ArrayNewLine(t, n))
  {
    hide NewArray;
    NewArrayBalanced(t, n);
    BalancedGroup(Paren, NewArray(t, n));
    var target := [Code("uaval."), Name(n), Code(" = "), Code("static_cast<UA_"), Name(t.name), Code("*>")];
    BalancedCat([target, Group(Paren, NewArray(t, n)), [Code(";\n")]]);
  }

  lemma LoopControlBalanced(n: string)
    requires Plain(n)
    ensures Balanced(LoopControl(n))
  {
    SizeOfBalanced(n);
    BalancedCat([[Code("auto i=0; i<")], SizeOf(n), [Code("; i++")]]);
  }

  lemma BalancedFour(a: seq<Piece>, b: seq<Piece>, c: seq<Piece>, d: seq<Piece>)
    requires Inline(a) && Balanced(b) && (Inline(c) || Balanced(c)) && (Inline(d) || Balanced(d))
    ensures Balanced(Cat([a, b, c, d]))
  {
    hide Inline, Balanced, Cat;
    BalancedCat([a, b, c, d]);
  }

  lemma LoopBodyBalanced(t: DataType, n: string)
    requires Plain(t.name) && Plain(n)
    ensures Balanced(LoopBody(t, n))
  {
    hide ArrayConversion, Balanced, Cat;
    ConversionBalanced(t, n);
    BalancedGroup(Square, [Code("i")]);
    BalancedFour([Code("uaval."), Name(n)], Group(Square, [Code("i")]), [Code(" = ")], ArrayConversion(t, n));
  }

  lemma ArrayLoopBalanced(t: DataType, n: string)
    requires Plain(t.name) && Plain(n)
    ensures Balanced(ArrayLoop(t, n))
  {
    hide LoopControl, LoopBody, Balanced, Cat;
    LoopControlBalanced(n);
    LoopBodyBalanced(t, n);
    BalancedGroup(Paren, LoopControl(n));
    BalancedGroup(Brace, LoopBody(t, n));
    BalancedFour([Code("for")], Group(Paren, LoopControl(n)), Group(Brace, LoopBody(t, n)), [Code("\n")]);
  }

  lemma ArrayFieldBalanced(t: DataType, n: string)
    requires Plain(t.name) && Plain(n)
    ensures Balanced(ArrayField(t, n))
  {
    SizeOfBalanced(n);
    ArrayNewLineBalanced(t, n);
    ArrayLoopBalanced(t, n);
    BalancedConcat(ArraySizeLine(n), ArrayNewLine(t, n));
    BalancedConcat(ArraySizeLine(n) + ArrayNewLine(t, n), ArrayLoop(t, n));
  }

  lemma FieldConversionBalanced(types: TypeMap, f: Field)
    requires PlainUse(types, f.name, f.dataType) && f.dataType in types
    ensures Balanced(FieldConversion(types, f))
  {
    var t, n := types[f.dataType], FirstToLow(f.name);
    if f.valueRank > 0 {
      ArrayFieldBalanced(t, n);
    } else {
      ConversionBalanced(t, n);
      BalancedConcat([Code("uaval."), Name(n), Code(" = ")], ScalarConversion(t, n));
    }
  }

  lemma {:induction false} FieldConversionsBalanced(types: TypeMap, fields: seq<Field>)
    requires PlainFields(types, fields) && forall f | f in fields :: f.dataType in types
    ensures Balanced(FieldConversions(types, fields))
  {
    if fields == [] {
      BalancedInline([]);
    } else {
      FieldConversionsBalanced(types, fields[..|fields| - 1]);
      FieldConversionBalanced(types, fields[|fields| - 1]);
      BalancedConcat(FieldConversions(types, fields[..|fields| - 1]), FieldConversion(types, fields[|fields| - 1]));
    }
  }

  lemma {:induction false} LiteralConversionsBalanced(types: TypeMap, literals: seq<Literal>)
    requires PlainLiterals(types, literals)
    ensures Balanced(LiteralConversions(types, literals))
  {
    BalancedInline([]);
    if literals != [] {
      var l := literals[|literals| - 1];
      LiteralConversionsBalanced(types, literals[..|literals| - 1]);
      if l.dataType in types {
        ArrayFieldBalanced(types[l.dataType], FirstToLow(l.name));
        ConversionBalanced(types[l.dataType], FirstToLow(l.name));
      }
      BalancedConcat(LiteralConversions(types, literals[..|literals| - 1]), LiteralConversion(types, l));
    }
  }

  lemma FieldBodyBalanced(types: TypeMap, t: DataType)
    requires PlainType(types, t) && FieldsResolve(types, t)
    ensures Balanced(FieldBody(types, t))
  {
    match t
    case Base(_, _) => BalancedInline([]);
    case Enum(_, _, literals) => LiteralConversionsBalanced(types, literals);
    case Struct(_, _, fields) => FieldConversionsBalanced(types, fields);
  }

  lemma CopyToVariantBalanced(typeIndex: string)
    requires Plain(typeIndex)
    ensures Balanced(CopyToVariant(typeIndex))
  {
    hide TypeEntry;
    TypeEntryBalanced(typeIndex);
    BalancedConcat([Code("var, &uaval, ")], TypeEntry(typeIndex));
    var args := [Code("var, &uaval, ")] + TypeEntry(typeIndex);
    BalancedGroup(Paren, args);
    BalancedCat([[Code("UA_Variant_"), Code("setScalarCopy")], Group(Paren, args), [Code(";\n")]]);
  }

  lemma EnumCastBalanced(t: DataType)
    requires Plain(t.name)
    ensures Balanced(EnumCast(t))
  {
    BalancedGroup(Paren, [Code("val")]);
    BalancedCat([[Code("UA_Int32 uaval = "), Code("static_cast<UA_"), Name(t.name), Code(">")],
                 Group(Paren, [Code("val")]), [Code(";\n")]]);
  }

  lemma ToVariantBodyBalanced(types: TypeMap, t: DataType)
    requires PlainType(types, t) && FieldsResolve(types, t)
    ensures Balanced(ToVariantBody(types, t))
  {
    hide FieldBody, CopyToVariant, EnumCast, TypeEntry;
    if t.Struct? {
      BalancedInline(DeclareValue(t));
      FieldBodyBalanced(types, t);
      CopyToVariantBalanced(Upper(t.name));
      BalancedConcat(DeclareValue(t), FieldBody(types, t));
      BalancedConcat(DeclareValue(t) + FieldBody(types, t), CopyToVariant(Upper(t.name)));
    } else {
      EnumCastBalanced(t);
      CopyToVariantBalanced("INT32");
      BalancedConcat(EnumCast(t), CopyToVariant("INT32"));
    }
  }

  lemma FunctionBalanced(head: seq<Piece>, gap: seq<Piece>, body: seq<Piece>)
    requires Balanced(head) && Inline(gap) && Balanced(body)
    ensures Balanced(head + gap + Group(Brace, [Code("\n")] + body) + [Code("\n\n")])
  {
    BalancedConcat([Code("\n")], body);
    BalancedGroup(Brace, [Code("\n")] + body);
    BalancedConcat(head, gap);
    BalancedConcat(head + gap, Group(Brace, [Code("\n")] + body));
    BalancedConcat(head + gap + Group(Brace, [Code("\n")] + body), [Code("\n\n")]);
  }

  lemma ToVariantImplBalanced(types: TypeMap, t: DataType)
    requires PlainType(types, t) && FieldsResolve(types, t)
    ensures Balanced(ToVariantImpl(types, t))
  {
    ToVariantSignatureBalanced(t);
    ToVariantBodyBalanced(types, t);
    FunctionBalanced(ToVariantSignature(t), [Code("\n")], ToVariantBody(types, t));
  }

  lemma FromConversionImplBalanced(types: TypeMap, t: DataType)
    requires PlainType(types, t) && FieldsResolve(types, t)
    ensures Balanced(FromConversionImpl(types, t))
  {
    hide FieldBody, FromSignature;
    FromSignatureBalanced(t, [Code(" &val")]);
    FieldBodyBalanced(types, t);
    BalancedConcat(DeclareValue(t), FieldBody(types, t));
    BalancedConcat(DeclareValue(t) + FieldBody(types, t), [Code("return uaval;\n")]);
    FunctionBalanced(FromSignature(t, [Code(" &val")]), [Code(" ")], FromConversionBody(types, t));
  }

  lemma ImplTextBalanced(types: TypeMap, t: DataType)
    requires PlainType(types, t) && FieldsResolve(types, t)
    ensures Balanced(ImplText(types, t))
  {
    if t.Base? {
      BalancedInline([]);
    } else {
      ToVariantImplBalanced(types, t);
      FromConversionImplBalanced(types, t);
      BalancedConcat(ToVariantImpl(types, t), FromConversionImpl(types, t));
    }
  }

  // ----- Whole streams -----

  lemma IncludesBalanced()
    ensures Balanced(HeaderIncludes()) && Balanced(ImplIncludes())
  {
    BalancedInline(HeaderIncludes());
    BalancedInline(ImplIncludes());
  }

  /** A stream inside its namespace: exactly the namespace's brace is open. */
  ghost predicate InNamespace(stream: seq<Piece>) {
    ScanPieces([], stream) == Some([Brace])
  }

  lemma StaysInNamespace(stream: seq<Piece>, more: seq<Piece>)
    requires InNamespace(stream) && Balanced(more)
    ensures InNamespace(stream + more)
  {
    ScanPiecesConcat([], stream, more);
  }
}
