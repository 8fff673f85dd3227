/** What the generated conversion code does: its text is that of a small program,
    and running the program converts every member. */
module ConversionCode {
  import opened TypeModel
  import opened Nesting
  import opened Options
  import opened Sequences
  import CodeText
  import HeaderCode

  // ----- Programs and their text -----

  datatype Expr =
    | Value(name: string)
    | Element(name: string)
    | Size(name: string)
    | Cast(typeName: string, arg: Expr)
    | Convert(typeName: string, arg: Expr)
    | NewArray(typeName: string, size: Expr)
    | Blank(e: Expr)

  datatype Stmt =
    | SetSize(name: string, e: Expr)
    | SetMember(name: string, e: Expr)
    | ForEach(bound: string, name: string, e: Expr)
    | Discard(e: Expr)

  function ExprText(e: Expr): seq<Piece> {
    match e
    case Value(n) => [Code("val."), Name(n)]
    case Element(n) => [Code("val."), Name(n), Open(Square), Code("i"), Close(Square)]
    case Size(n) => [Code("val."), Name(n), Code(".size"), Open(Paren), Close(Paren)]
    case Cast(t, a) => [Code("static_cast<UA_"), Name(t), Code(">"), Open(Paren)] + ExprText(a) + [Close(Paren)]
    case Convert(t, a) => [Code("from"), Name(t), Open(Paren)] + ExprText(a) + [Close(Paren)]
    case NewArray(t, a) =>
      [Code("static_cast<UA_"), Name(t), Code("*>"), Open(Paren), Code("UA_Array_new"), Open(Paren)] +
      ExprText(a) + [Code(", "), Code("&UA_TYPES"), Open(Square), Code("UA_TYPES_")] +
      [Name(CodeText.Upper(t)), Close(Square), Close(Paren), Close(Paren)]
    case Blank(a) => [Code(" ")] + ExprText(a)
  }

  function StmtText(s: Stmt): seq<Piece> {
    match s
    case SetSize(n, e) => [Code("uaval."), Name(n), Code("Size = ")] + ExprText(e) + [Code(";\n")]
    case SetMember(n, e) => [Code("uaval."), Name(n), Code(" = ")] + ExprText(e) + [Code(";\n")]
    case ForEach(m, n, e) =>
      [Code("for"), Open(Paren), Code("auto i=0; i<")] + ExprText(Size(m)) +
      [Code("; i++"), Close(Paren), Open(Brace)] + ElementText(n, e) + [Close(Brace), Code("\n")]
    case Discard(e) => ExprText(e) + [Code(";\n")]
  }

  /** The body of a loop: element `i` is set. */
  function ElementText(n: string, e: Expr): seq<Piece> {
    [Code("uaval."), Name(n), Open(Square), Code("i"), Close(Square), Code(" = ")] + ExprText(e) + [Code(";\n")]
  }

  function Text(ss: seq<Stmt>): seq<Piece> {
    if ss == [] then [] else Text(ss[..|ss| - 1]) + StmtText(ss[|ss| - 1])
  }

  lemma {:induction false} TextConcat(a: seq<Stmt>, b: seq<Stmt>)
    ensures Text(a + b) == Text(a) + Text(b)
  {
    hide StmtText;
    if b == [] {
      assert a + b == a;
    } else {
      var front, last := b[..|b| - 1], b[|b| - 1];
      TextConcat(a, front);
      assert (a + b)[..|a + b| - 1] == a + front && (a + b)[|a + b| - 1] == last;
      assert Text(a + b) == Text(a + front) + StmtText(last);
    }
  }

  // ----- The program of a field -----

  /** A scalar of a base or enum type is cast, and so is one of a struct with a
      numeric id up to 11; one of another struct is converted. */
  function OfScalar(t: DataType, e: Expr): Expr {
    match t
    case Struct(name, Numeric(_, number), _) => if number <= 11 then Blank(Cast(name, e)) else Convert(name, e)
    case Struct(name, Textual(_, _), _) => Convert(name, e)
    case _ => Cast(t.name, e)
  }

  function OfElement(t: DataType, e: Expr): Expr {
    if t.Struct? then Convert(t.name, e) else Cast(t.name, e)
  }

  function ArrayProgram(t: DataType, n: string): seq<Stmt> {
    [SetSize(n, Size(n)), SetMember(n, NewArray(t.name, Size(n))), ForEach(n, n, OfElement(t, Element(n)))]
  }

  function FieldProgram(types: TypeMap, f: Field): seq<Stmt>
    requires f.dataType in types
  {
    var t, n := types[f.dataType], CodeText.FirstToLow(f.name);
    if f.valueRank >= 1 then ArrayProgram(t, n) else [SetMember(n, OfScalar(t, Value(n)))]
  }

  function Program(types: TypeMap, fields: seq<Field>): seq<Stmt>
    requires forall f | f in fields :: f.dataType in types
  {
    if fields == [] then [] else
      Program(types, fields[..|fields| - 1]) + FieldProgram(types, fields[|fields| - 1])
  }

  /** An enum's literals of known type: the scalar ones are converted, and the
      result is dropped. */
  function LiteralProgram(types: TypeMap, l: Literal): seq<Stmt> {
    if l.dataType !in types then [] else
      var t, n := types[l.dataType], CodeText.FirstToLow(l.name);
      if l.valueRank >= 1 then ArrayProgram(t, n) else [Discard(OfScalar(t, Value(n)))]
  }

  // ----- The text generated is that of the program -----

  lemma CastText(t: DataType, e: Expr)
    ensures CodeText.Cast(t, ExprText(e)) == ExprText(Cast(t.name, e)) + [Code(";\n")]
    ensures CodeText.CallFrom(t, ExprText(e)) == ExprText(Convert(t.name, e)) + [Code(";\n")]
  {
    hide Cat;
    var body, end := ExprText(e), Code(";\n");
    Cat3([Code("static_cast<UA_"), Name(t.name), Code(">")], Group(Paren, body), [end]);
    CastShape(Code("static_cast<UA_"), Name(t.name), Code(">"), body, end);
    Cat3([Code("from"), Name(t.name)], Group(Paren, body), [end]);
    CallShape(Code("from"), Name(t.name), body, end);
  }

  lemma CastShape(a: Piece, b: Piece, c: Piece, body: seq<Piece>, end: Piece)
    ensures [a, b, c] + Group(Paren, body) + [end] == [a, b, c, Open(Paren)] + body + [Close(Paren)] + [end]
  {
  }

  lemma CallShape(a: Piece, b: Piece, body: seq<Piece>, end: Piece)
    ensures [a, b] + Group(Paren, body) + [end] == [a, b, Open(Paren)] + body + [Close(Paren)] + [end]
  {
  }

  lemma ConversionText(t: DataType, n: string)
    ensures CodeText.ScalarConversion(t, n) == ExprText(OfScalar(t, Value(n))) + [Code(";\n")]
    ensures CodeText.ArrayConversion(t, n) == ExprText(OfElement(t, Element(n))) + [Code(";\n")]
  {
    assert CodeText.ValueOf(n, false) == ExprText(Value(n));
    assert CodeText.ValueOf(n, true) == ExprText(Element(n));
    CastText(t, Value(n));
    CastText(t, Element(n));
  }

  lemma SizeLineText(n: string)
    ensures CodeText.ArraySizeLine(n) == StmtText(SetSize(n, Size(n)))
  {
    assert CodeText.SizeOf(n) == ExprText(Size(n));
    Cat3([Code("uaval."), Name(n), Code("Size = ")], CodeText.SizeOf(n), [Code(";\n")]);
  }

  lemma NewLineText(t: DataType, n: string)
    ensures CodeText.ArrayNewLine(t, n) == StmtText(SetMember(n, NewArray(t.name, Size(n))))
  {
    hide Cat, CodeText.Upper;
    assert CodeText.SizeOf(n) == ExprText(Size(n));
    var index, size := CodeText.Upper(t.name), ExprText(Size(n));
    var cast, end, comma := Code("static_cast<UA_"), Code(";\n"), Code(", ");
    var uaval, gets, star, call := Code("uaval."), Code(" = "), Code("*>"), Code("UA_Array_new");
    hide CodeText.SizeOf, ExprText;
    Cat3(size, [comma], CodeText.TypeEntry(index));
    Cat3([uaval, Name(n), gets, cast, Name(t.name), star], Group(Paren, CodeText.NewArray(t, n)), [end]);
    NewShape(uaval, Name(n), gets, cast, Name(t.name), star, call, size, comma,
             Code("&UA_TYPES"), Code("UA_TYPES_"), Name(index), end);
    NewArrayExpr(t.name, Size(n));
  }

  lemma NewArrayExpr(typeName: string, a: Expr)
    ensures ExprText(NewArray(typeName, a)) ==
      [Code("static_cast<UA_"), Name(typeName), Code("*>"), Open(Paren), Code("UA_Array_new"), Open(Paren)] +
      ExprText(a) + [Code(", "), Code("&UA_TYPES"), Open(Square), Code("UA_TYPES_")] +
      [Name(CodeText.Upper(typeName)), Close(Square), Close(Paren), Close(Paren)]
  {
  }

  lemma NewShape(a: Piece, b: Piece, c: Piece, d: Piece, e: Piece, f: Piece, g: Piece, size: seq<Piece>,
                 comma: Piece, table: Piece, prefix: Piece, index: Piece, end: Piece)
    ensures [a, b, c, d, e, f] +
      Group(Paren, [g] + Group(Paren, size + [comma] + ([table] + Group(Square, [prefix, index])))) + [end] ==
      [a, b, c] + ([d, e, f, Open(Paren), g, Open(Paren)] + size + [comma, table, Open(Square), prefix] +
      [index, Close(Square), Close(Paren), Close(Paren)]) + [end]
  {
  }

  lemma LoopBodyText(t: DataType, n: string)
    ensures CodeText.LoopBody(t, n) == ElementText(n, OfElement(t, Element(n)))
  {
    hide Cat;
    ConversionText(t, n);
    hide OfElement, CodeText.ArrayConversion, ExprText;
    Cat4([Code("uaval."), Name(n)], Group(Square, [Code("i")]), [Code(" = ")], CodeText.ArrayConversion(t, n));
    ElementShape(Code("uaval."), Name(n), Code("i"), Code(" = "), ExprText(OfElement(t, Element(n))), Code(";\n"));
  }

  lemma ElementShape(a: Piece, b: Piece, i: Piece, c: Piece, e: seq<Piece>, end: Piece)
    ensures [a, b] + Group(Square, [i]) + [c] + (e + [end]) == [a, b, Open(Square), i, Close(Square), c] + e + [end]
  {
  }

  lemma LoopText(t: DataType, n: string)
    ensures CodeText.ArrayLoop(t, n) == StmtText(ForEach(n, n, OfElement(t, Element(n))))
  {
    hide Cat;
    assert CodeText.SizeOf(n) == ExprText(Size(n));
    LoopBodyText(t, n);
    hide OfElement, CodeText.SizeOf, CodeText.LoopBody, ExprText, ElementText;
    Cat3([Code("auto i=0; i<")], CodeText.SizeOf(n), [Code("; i++")]);
    Cat4([Code("for")], Group(Paren, CodeText.LoopControl(n)), Group(Brace, CodeText.LoopBody(t, n)), [Code("\n")]);
    LoopShape(Code("for"), Code("auto i=0; i<"), ExprText(Size(n)), Code("; i++"),
              ElementText(n, OfElement(t, Element(n))), Code("\n"));
  }

  lemma LoopShape(a: Piece, b: Piece, size: seq<Piece>, c: Piece, body: seq<Piece>, end: Piece)
    ensures [a] + Group(Paren, [b] + size + [c]) + Group(Brace, body) + [end] ==
      [a, Open(Paren), b] + size + [c, Close(Paren), Open(Brace)] + body + [Close(Brace), end]
  {
  }

  lemma ArrayText(t: DataType, n: string)
    ensures CodeText.ArrayField(t, n) == Text(ArrayProgram(t, n))
  {
    SizeLineText(n);
    NewLineText(t, n);
    LoopText(t, n);
    hide StmtText, CodeText.ArraySizeLine, CodeText.ArrayNewLine, CodeText.ArrayLoop;
    var p := ArrayProgram(t, n);
    assert p[..2] == [p[0], p[1]] && p[..2][..1] == [p[0]] && [p[0]][..0] == [];
    assert Text([p[0]]) == [] + StmtText(p[0]);
    assert Text(p) == Text(p[..2]) + StmtText(p[2]);
  }

  lemma ScalarText(t: DataType, n: string)
    ensures [Code("uaval."), Name(n), Code(" = ")] + CodeText.ScalarConversion(t, n) ==
      Text([SetMember(n, OfScalar(t, Value(n)))])
    ensures CodeText.ScalarConversion(t, n) == Text([Discard(OfScalar(t, Value(n)))])
  {
    ConversionText(t, n);
    hide CodeText.ScalarConversion, OfScalar, ExprText;
    TextOfOne(SetMember(n, OfScalar(t, Value(n))));
    TextOfOne(Discard(OfScalar(t, Value(n))));
  }

  lemma TextOfOne(s: Stmt)
    ensures Text([s]) == StmtText(s)
  {
    hide StmtText;
    assert [s][..0] == [];
  }

  /** The statements written for one field are those of its program. */
  lemma FieldText(types: TypeMap, f: Field)
    requires f.dataType in types
    ensures CodeText.FieldConversion(types, f) == Text(FieldProgram(types, f))
  {
    hide CodeText.ArrayField, ArrayProgram, CodeText.ScalarConversion, OfScalar, Text, CodeText.FirstToLow;
    var t, n := types[f.dataType], CodeText.FirstToLow(f.name);
    ArrayText(t, n);
    ScalarText(t, n);
  }

  lemma {:induction false} FieldsText(types: TypeMap, fields: seq<Field>)
    requires forall f | f in fields :: f.dataType in types
    ensures CodeText.FieldConversions(types, fields) == Text(Program(types, fields))
  {
    if fields != [] {
      hide FieldProgram, CodeText.FieldConversion;
      var front, last := fields[..|fields| - 1], fields[|fields| - 1];
      FieldsText(types, front);
      FieldText(types, last);
      TextConcat(Program(types, front), FieldProgram(types, last));
    }
  }

  lemma LiteralText(types: TypeMap, l: Literal)
    ensures CodeText.LiteralConversion(types, l) == Text(LiteralProgram(types, l))
  {
    hide CodeText.ArrayField, ArrayProgram, CodeText.ScalarConversion, OfScalar, CodeText.FirstToLow;
    if l.dataType in types {
      var t, n := types[l.dataType], CodeText.FirstToLow(l.name);
      ArrayText(t, n);
      ScalarText(t, n);
      hide Text;
    }
  }

  // ----- Running a program -----

  /** A member of the C++ object: one value or a vector. */
  datatype Cpp<V> = Single(v: V) | Many(vs: seq<V>)

  /** A member of the C structure: one value, or a pointer to an array whose
      elements may not have been set. */
  datatype C<U> = Scalar(u: U) | Pointer(typeName: string, us: seq<Option<U>>)

  datatype CStruct<U> = CStruct(members: map<string, C<U>>, sizes: map<string, nat>)

  /** How one value is converted. */
  datatype Via = ByCast(typeName: string) | ByCall(typeName: string)

  datatype Result<V, U> = Raw(v: V) | Converted(u: U) | Number(n: nat) | Fresh(typeName: string, n: nat)

  /** The value of an expression in round `i` of a loop; None where it does not
      compile or reads past the end. */
  function Eval<V, U>(e: Expr, val: map<string, Cpp<V>>, i: nat, how: (Via, V) -> U): Option<Result<V, U>> {
    match e
    case Value(n) => if n in val && val[n].Single? then Some(Raw(val[n].v)) else None
    case Element(n) => if n in val && val[n].Many? && i < |val[n].vs| then Some(Raw(val[n].vs[i])) else None
    case Size(n) => if n in val && val[n].Many? then Some(Number(|val[n].vs|)) else None
    case Cast(t, a) =>
      (match Eval(a, val, i, how) case Some(Raw(v)) => Some(Converted(how(ByCast(t), v))) case _ => None)
    case Convert(t, a) =>
      (match Eval(a, val, i, how) case Some(Raw(v)) => Some(Converted(how(ByCall(t), v))) case _ => None)
    case NewArray(t, a) =>
      (match Eval(a, val, i, how) case Some(Number(n)) => Some(Fresh(t, n)) case _ => None)
    case Blank(a) => Eval(a, val, i, how)
  }

  /** The elements after rounds 0 to `n` of `us[i] = e`. */
  function Fill<V, U>(e: Expr, val: map<string, Cpp<V>>, n: nat, how: (Via, V) -> U, us: seq<Option<U>>)
    : Option<seq<Option<U>>>
  {
    if n == 0 then Some(us) else
      match Fill(e, val, n - 1, how, us)
      case None => None
      case Some(done) =>
        match Eval(e, val, n - 1, how)
        case Some(Converted(u)) => if n - 1 < |done| then Some(done[n - 1 := Some(u)]) else None
        case _ => None
  }

  function Exec<V, U>(s: Stmt, val: map<string, Cpp<V>>, how: (Via, V) -> U, c: CStruct<U>): Option<CStruct<U>> {
    match s
    case SetSize(n, e) =>
      (match Eval(e, val, 0, how)
       case Some(Number(k)) => Some(c.(sizes := c.sizes[n := k]))
       case _ => None)
    case SetMember(n, e) =>
      (match Eval(e, val, 0, how)
       case Some(Converted(u)) => Some(c.(members := c.members[n := Scalar(u)]))
       case Some(Fresh(t, k)) => Some(c.(members := c.members[n := Pointer(t, seq(k, _ => None))]))
       case _ => None)
    case ForEach(m, n, e) =>
      (match Eval(Size(m), val, 0, how)
       case Some(Number(k)) =>
         if n in c.members && c.members[n].Pointer? then
           (match Fill(e, val, k, how, c.members[n].us)
            case Some(us) => Some(c.(members := c.members[n := Pointer(c.members[n].typeName, us)]))
            case None => None)
         else None
       case _ => None)
    case Discard(e) => if Eval(e, val, 0, how).Some? then Some(c) else None
  }

  function Run<V, U>(ss: seq<Stmt>, val: map<string, Cpp<V>>, how: (Via, V) -> U, c: CStruct<U>): Option<CStruct<U>> {
    if ss == [] then Some(c) else
      match Run(ss[..|ss| - 1], val, how, c)
      case None => None
      case Some(mid) => Exec(ss[|ss| - 1], val, how, mid)
  }

  lemma {:induction false} RunConcat<V, U>(
    a: seq<Stmt>, b: seq<Stmt>, val: map<string, Cpp<V>>, how: (Via, V) -> U, c: CStruct<U>)
    ensures Run(a + b, val, how, c) ==
      match Run(a, val, how, c) case None => None case Some(mid) => Run(b, val, how, mid)
  {
    if b == [] {
      assert a + b == a;
    } else {
      RunConcat(a, b[..|b| - 1], val, how, c);
      assert (a + b)[..|a + b| - 1] == a + b[..|b| - 1];
    }
  }

  // ----- What the program of a field does -----

  /** How a single member of type `t` and an element of an array of it are converted. */
  function ViaScalar(t: DataType): Via {
    if t.Struct? && !(t.id.Numeric? && t.id.number <= 11) then ByCall(t.name) else ByCast(t.name)
  }

  function ViaElement(t: DataType): Via {
    if t.Struct? then ByCall(t.name) else ByCast(t.name)
  }

  /** The generated class declares the member as a vector. */
  predicate DeclaredVector(types: TypeMap, f: Field) {
    CodeText.Member(types, f) != [] && CodeText.Member(types, f)[0] == Code("std::vector<")
  }

  lemma DeclaredVectorIff(types: TypeMap, f: Field)
    requires f.dataType in types
    ensures DeclaredVector(types, f) <==> f.valueRank >= 0
  {
  }

  /** `val` is an object of the generated class. */
  predicate HasMembers<V>(types: TypeMap, fields: seq<Field>, val: map<string, Cpp<V>>) {
    forall f | f in fields ::
      var n := CodeText.FirstToLow(f.name); n in val && (val[n].Many? <==> DeclaredVector(types, f))
  }

  /** The C structure has the member of field `f`, converted. */
  predicate HasConverted<V, U(==)>(
    types: TypeMap, f: Field, val: map<string, Cpp<V>>, how: (Via, V) -> U, c: CStruct<U>)
    requires f.dataType in types
  {
    var t, n := types[f.dataType], CodeText.FirstToLow(f.name);
    && n in val && n in c.members
    && if val[n].Many? then
         && n in c.sizes && c.sizes[n] == |val[n].vs|
         && c.members[n].Pointer? && c.members[n].typeName == t.name && |c.members[n].us| == |val[n].vs|
         && forall i | 0 <= i < |val[n].vs| :: c.members[n].us[i] == Some(how(ViaElement(t), val[n].vs[i]))
       else c.members[n] == Scalar(how(ViaScalar(t), val[n].v))
  }

  lemma ScalarEval<V, U>(t: DataType, n: string, val: map<string, Cpp<V>>, how: (Via, V) -> U)
    ensures Eval(OfScalar(t, Value(n)), val, 0, how) ==
      if n in val && val[n].Single? then Some(Converted(how(ViaScalar(t), val[n].v))) else None
  {
    var raw := Eval(Value(n), val, 0, how);
    assert Eval(Cast(t.name, Value(n)), val, 0, how) ==
      if raw.Some? then Some(Converted(how(ByCast(t.name), raw.value.v))) else None;
  }

  lemma ElementEval<V, U>(t: DataType, n: string, val: map<string, Cpp<V>>, i: nat, how: (Via, V) -> U)
    requires n in val && val[n].Many? && i < |val[n].vs|
    ensures Eval(OfElement(t, Element(n)), val, i, how) == Some(Converted(how(ViaElement(t), val[n].vs[i])))
  {
    assert Eval(Element(n), val, i, how) == Some(Raw(val[n].vs[i]));
  }

  lemma {:induction false} FillConverts<V, U>(
    t: DataType, n: string, val: map<string, Cpp<V>>, k: nat, how: (Via, V) -> U, us: seq<Option<U>>)
    requires n in val && val[n].Many? && k <= |val[n].vs| == |us|
    ensures var r := Fill(OfElement(t, Element(n)), val, k, how, us);
      && r.Some? && |r.value| == |us|
      && forall i | 0 <= i < k :: r.value[i] == Some(how(ViaElement(t), val[n].vs[i]))
  {
    hide Eval, OfElement, ViaElement;
    if k > 0 {
      ElementEval(t, n, val, k - 1, how);
      FillConverts(t, n, val, k - 1, how, us);
    }
  }

  /** Nothing but member `n` is changed. */
  predicate OnlyAt<U(==)>(c: CStruct<U>, c': CStruct<U>, n: string) {
    c'.members - {n} == c.members - {n} && c'.sizes - {n} == c.sizes - {n}
  }

  /** Of an object of the generated class, the program of a field converts exactly
      the field's member, unless the field has rank 0: then the member is a vector
      but the program converts it as a single value. */
  lemma FieldProgramConverts<V, U>(
    types: TypeMap, f: Field, val: map<string, Cpp<V>>, how: (Via, V) -> U, c: CStruct<U>)
    requires f.dataType in types && HasMembers(types, [f], val)
    ensures var r := Run(FieldProgram(types, f), val, how, c);
      && (r.Some? <==> f.valueRank != 0)
      && (r.Some? ==> HasConverted(types, f, val, how, r.value) && OnlyAt(c, r.value, CodeText.FirstToLow(f.name)))
  {
    var t, n := types[f.dataType], CodeText.FirstToLow(f.name);
    DeclaredVectorIff(types, f);
    assert f in [f];
    hide DeclaredVector, OfElement, OfScalar, ViaElement, ViaScalar;
    if f.valueRank >= 1 {
      ArrayProgramConverts(t, n, val, how, c);
    } else {
      ScalarEval(t, n, val, how);
      var p := [SetMember(n, OfScalar(t, Value(n)))];
      assert p[..0] == [] && Run(p[..0], val, how, c) == Some(c);
      assert Run(p, val, how, c) == Exec(p[0], val, how, c);
    }
  }

  lemma ArrayProgramConverts<V, U>(t: DataType, n: string, val: map<string, Cpp<V>>, how: (Via, V) -> U, c: CStruct<U>)
    requires n in val && val[n].Many?
    ensures var k, r := |val[n].vs|, Run(ArrayProgram(t, n), val, how, c);
      && r.Some? && r.value.sizes == c.sizes[n := k]
      && n in r.value.members && r.value.members == c.members[n := r.value.members[n]]
      && r.value.members[n].Pointer? && r.value.members[n].typeName == t.name && |r.value.members[n].us| == k
      && forall i | 0 <= i < k :: r.value.members[n].us[i] == Some(how(ViaElement(t), val[n].vs[i]))
  {
    hide OfElement, ViaElement;
    var k := |val[n].vs|;
    var p := ArrayProgram(t, n);
    assert Eval(Size(n), val, 0, how) == Some(Number(k));
    var c1 := c.(sizes := c.sizes[n := k]);
    var c2 := c1.(members := c1.members[n := Pointer(t.name, seq(k, _ => None))]);
    assert Exec(p[0], val, how, c) == Some(c1) && Exec(p[1], val, how, c1) == Some(c2);
    FillConverts(t, n, val, k, how, seq(k, _ => None));
    ThreeSteps(p[0], p[1], p[2], val, how, c, c1, c2);
    hide Run;
    assert Run(p, val, how, c) == Exec(p[2], val, how, c2);
  }

  lemma ThreeSteps<V, U>(
    s0: Stmt, s1: Stmt, s2: Stmt, val: map<string, Cpp<V>>, how: (Via, V) -> U,
    c: CStruct<U>, c1: CStruct<U>, c2: CStruct<U>)
    requires Exec(s0, val, how, c) == Some(c1) && Exec(s1, val, how, c1) == Some(c2)
    ensures Run([s0, s1, s2], val, how, c) == Exec(s2, val, how, c2)
  {
    hide Exec;
    assert [s0, s1, s2][..2] == [s0, s1] && [s0, s1][..1] == [s0] && [s0][..0] == [];
    assert Run([], val, how, c) == Some(c);
    assert Run([s0], val, how, c) == Some(c1);
    assert Run([s0, s1], val, how, c) == Some(c2);
  }

  ghost predicate DistinctMembers(fields: seq<Field>) {
    forall i, j | 0 <= i < j < |fields| :: CodeText.FirstToLow(fields[i].name) != CodeText.FirstToLow(fields[j].name)
  }

  lemma ConvertedStays<V, U>(
    types: TypeMap, f: Field, val: map<string, Cpp<V>>, how: (Via, V) -> U, c: CStruct<U>, c': CStruct<U>, n: string)
    requires f.dataType in types && HasConverted(types, f, val, how, c)
    requires OnlyAt(c, c', n) && n != CodeText.FirstToLow(f.name)
    ensures HasConverted(types, f, val, how, c')
  {
    var m := CodeText.FirstToLow(f.name);
    assert m in c.members - {n};
    assert m in c'.members - {n} && c'.members[m] == c.members[m];
    if val[m].Many? {
      assert m in c.sizes - {n};
      assert m in c'.sizes - {n} && c'.sizes[m] == c.sizes[m];
    }
  }

  /** The generated conversion accepts the objects of the generated class, and then
      converts every member, exactly when no field has rank 0. */
  lemma {:induction false} ProgramConvertsIff<V, U>(
    types: TypeMap, fields: seq<Field>, val: map<string, Cpp<V>>, how: (Via, V) -> U, c: CStruct<U>)
    requires forall f | f in fields :: f.dataType in types
    requires DistinctMembers(fields) && HasMembers(types, fields, val)
    ensures var r := Run(Program(types, fields), val, how, c);
      && (r.Some? <==> forall f | f in fields :: f.valueRank != 0)
      && (r.Some? ==> forall f | f in fields :: HasConverted(types, f, val, how, r.value))
  {
    if fields != [] {
      var front, last := fields[..|fields| - 1], fields[|fields| - 1];
      hide FieldProgram, DeclaredVector;
      assert forall f | f in fields :: f in front || f == last;
      ProgramConvertsIff(types, front, val, how, c);
      RunConcat(Program(types, front), FieldProgram(types, last), val, how, c);
      var r := Run(Program(types, front), val, how, c);
      if r.Some? {
        FieldProgramConverts(types, last, val, how, r.value);
        var r' := Run(FieldProgram(types, last), val, how, r.value);
        if r'.Some? {
          forall f | f in front
            ensures HasConverted(types, f, val, how, r'.value)
          {
            ConvertedStays(types, f, val, how, r.value, r'.value, CodeText.FirstToLow(last.name));
          }
        }
      }
    }
  }

  /** Single members and array elements of one type are converted alike, except
      for a struct with a numeric id up to 11. */
  lemma ConvertedAlikeIff(t: DataType)
    ensures ViaScalar(t) == ViaElement(t) <==> !(t.Struct? && t.id.Numeric? && t.id.number <= 11)
  {
  }

  // ----- Whole functions -----

  datatype End = Store(typeIndex: string) | Return

  /** The body of a conversion function: the C value is built member by member,
      or cast as a whole; then it is stored in a variant or returned. */
  datatype Body =
    | Build(typeName: string, ss: seq<Stmt>, end: End)
    | CastWhole(typeName: string, end: End)

  function EndText(e: End): seq<Piece> {
    match e
    case Store(index) =>
      [Code("UA_Variant_"), Code("setScalarCopy"), Open(Paren), Code("var, &uaval, "), Code("&UA_TYPES")] +
      [Open(Square), Code("UA_TYPES_"), Name(index), Close(Square), Close(Paren), Code(";\n")]
    case Return => [Code("return uaval;\n")]
  }

  function BodyText(b: Body): seq<Piece> {
    match b
    case Build(name, ss, end) => [Code("UA_"), Name(name), Code(" uaval;\n")] + Text(ss) + EndText(end)
    case CastWhole(name, end) =>
      [Code("UA_Int32 uaval = "), Code("static_cast<UA_"), Name(name), Code(">"), Open(Paren), Code("val")] +
      [Close(Paren), Code(";\n")] + EndText(end)
  }

  function LiteralPrograms(types: TypeMap, literals: seq<Literal>): seq<Stmt> {
    if literals == [] then [] else
      LiteralPrograms(types, literals[..|literals| - 1]) + LiteralProgram(types, literals[|literals| - 1])
  }

  /** What is stored under a struct's own entry of the type table is built from its
      members; an enum is stored as a 32-bit integer. */
  function ToVariantOf(types: TypeMap, t: DataType): Body
    requires CodeText.FieldsResolve(types, t)
  {
    if t.Struct? then Build(t.name, Program(types, t.fields), Store(CodeText.Upper(t.name)))
    else CastWhole(t.name, Store("INT32"))
  }

  function FromOf(types: TypeMap, t: DataType): Body
    requires CodeText.FieldsResolve(types, t)
  {
    match t
    case Struct(name, _, fields) => Build(name, Program(types, fields), Return)
    case Enum(name, _, literals) => Build(name, LiteralPrograms(types, literals), Return)
    case Base(name, _) => Build(name, [], Return)
  }

  lemma {:induction false} LiteralsText(types: TypeMap, literals: seq<Literal>)
    ensures CodeText.LiteralConversions(types, literals) == Text(LiteralPrograms(types, literals))
  {
    if literals != [] {
      hide LiteralProgram, CodeText.LiteralConversion;
      var front, last := literals[..|literals| - 1], literals[|literals| - 1];
      LiteralsText(types, front);
      LiteralText(types, last);
      TextConcat(LiteralPrograms(types, front), LiteralProgram(types, last));
    }
  }

  lemma StoreText(index: string)
    ensures CodeText.CopyToVariant(index) == EndText(Store(index))
  {
    hide Cat;
    Cat3([Code("UA_Variant_"), Code("setScalarCopy")],
         Group(Paren, [Code("var, &uaval, ")] + CodeText.TypeEntry(index)), [Code(";\n")]);
  }

  /** Both conversion functions of a type have the text of these bodies. */
  lemma BodiesText(types: TypeMap, t: DataType)
    requires !t.Base? && CodeText.FieldsResolve(types, t)
    ensures CodeText.ToVariantBody(types, t) == BodyText(ToVariantOf(types, t))
    ensures CodeText.FromConversionBody(types, t) == BodyText(FromOf(types, t))
  {
    hide EndText, CodeText.CopyToVariant, Program, LiteralPrograms, Cat, CodeText.Upper;
    StoreText(CodeText.Upper(t.name));
    StoreText("INT32");
    assert EndText(Return) == [Code("return uaval;\n")] by { ReturnText(); }
    if t.Struct? {
      FieldsText(types, t.fields);
    } else {
      LiteralsText(types, t.literals);
      EnumCastText(t);
    }
  }

  /** The implementation of a type: its two functions, as the header declares them
      but for a space, with these bodies. */
  lemma ImplLayout(types: TypeMap, t: DataType)
    requires !t.Base? && CodeText.FieldsResolve(types, t)
    ensures CodeText.ImplText(types, t) ==
      HeaderCode.ToVariantHead(t.name) + [Code("\n"), Open(Brace), Code("\n")] + BodyText(ToVariantOf(types, t)) +
      [Close(Brace), Code("\n\n")] +
      HeaderCode.FromHead(t.name, Code(" &val")) + [Code(" "), Open(Brace), Code("\n")] + BodyText(FromOf(types, t)) +
      [Close(Brace), Code("\n\n")]
  {
    hide BodyText, HeaderCode.ToVariantHead, HeaderCode.FromHead, CodeText.ToVariantSignature, CodeText.FromSignature;
    hide CodeText.ToVariantBody, CodeText.FromConversionBody, Group;
    BodiesText(types, t);
    HeaderCode.HeadsText(t, Code(" &val"));
    var to, from := HeaderCode.ToVariantHead(t.name), HeaderCode.FromHead(t.name, Code(" &val"));
    var line, end := Code("\n"), Code("\n\n");
    FunctionShape(to, line, line, BodyText(ToVariantOf(types, t)), end);
    FunctionShape(from, Code(" "), line, BodyText(FromOf(types, t)), end);
    ImplShape(CodeText.ToVariantImpl(types, t), CodeText.FromConversionImpl(types, t),
              to, [line, Open(Brace), line], BodyText(ToVariantOf(types, t)), [Close(Brace), end],
              from, [Code(" "), Open(Brace), line], BodyText(FromOf(types, t)), [Close(Brace), end]);
  }

  lemma FunctionShape(head: seq<Piece>, gap: Piece, start: Piece, body: seq<Piece>, end: Piece)
    ensures head + [gap] + Group(Brace, [start] + body) + [end] ==
      head + [gap, Open(Brace), start] + body + [Close(Brace), end]
  {
  }

  lemma ImplShape<T>(x: seq<T>, y: seq<T>, a: seq<T>, b: seq<T>, c: seq<T>, d: seq<T>,
                     e: seq<T>, f: seq<T>, g: seq<T>, h: seq<T>)
    requires x == a + b + c + d && y == e + f + g + h
    ensures x + y == a + b + c + d + e + f + g + h
  {
  }

  lemma ReturnText()
    ensures EndText(Return) == [Code("return uaval;\n")]
  {
  }

  lemma EnumCastText(t: DataType)
    ensures CodeText.EnumCast(t) ==
      [Code("UA_Int32 uaval = "), Code("static_cast<UA_"), Name(t.name), Code(">"), Open(Paren), Code("val")] +
      [Close(Paren), Code(";\n")]
  {
    hide Cat;
    Cat3([Code("UA_Int32 uaval = "), Code("static_cast<UA_"), Name(t.name), Code(">")],
         Group(Paren, [Code("val")]), [Code(";\n")]);
  }

  /** What a function is called with: an object of a class, or an enum value. */
  datatype Arg<V> = Object(members: map<string, Cpp<V>>) | Enumerator(v: V)

  datatype Local<U> = Built(typeName: string, c: CStruct<U>) | Whole(u: U)

  datatype Outcome<U> = Stored(typeIndex: string, value: Local<U>) | Returned(value: Local<U>)

  function Finish<U>(end: End, value: Local<U>): Outcome<U> {
    match end case Store(index) => Stored(index, value) case Return => Returned(value)
  }

  /** None where the body does not compile for such an argument. */
  function Call<V, U>(b: Body, arg: Arg<V>, how: (Via, V) -> U): Option<Outcome<U>> {
    match b
    case Build(name, ss, end) =>
      (match Run(ss, if arg.Object? then arg.members else map[], how, CStruct(map[], map[]))
       case None => None
       case Some(c) => Some(Finish(end, Built(name, c))))
    case CastWhole(name, end) =>
      if arg.Enumerator? then Some(Finish(end, Whole(how(ByCast(name), arg.v)))) else None
  }

  /** The variant function of a struct stores, under the struct's entry of the type
      table, exactly what the other function returns; both accept the objects of the
      generated class exactly when no field has rank 0, and then every member has
      been converted. */
  lemma StructFunctionsConvert<V, U>(types: TypeMap, t: DataType, val: map<string, Cpp<V>>, how: (Via, V) -> U)
    requires t.Struct? && CodeText.FieldsResolve(types, t)
    requires DistinctMembers(t.fields) && HasMembers(types, t.fields, val)
    ensures var stored := Call(ToVariantOf(types, t), Object(val), how);
      var returned := Call(FromOf(types, t), Object(val), how);
      && (stored.Some? <==> returned.Some?)
      && (stored.Some? <==> forall f | f in t.fields :: f.valueRank != 0)
      && (stored.Some? ==>
           && returned.value.Returned? && returned.value.value.Built? && returned.value.value.typeName == t.name
           && stored.value == Stored(CodeText.Upper(t.name), returned.value.value)
           && forall f | f in t.fields :: HasConverted(types, f, val, how, returned.value.value.c))
  {
    hide HasConverted, Program, Run, DeclaredVector, HasMembers;
    ProgramConvertsIff(types, t.fields, val, how, CStruct(map[], map[]));
  }

  /** The variant function of an enum stores the value cast to an integer. The other
      one compiles exactly when no literal has a known type, and then returns a
      variable of which nothing has been set. */
  lemma EnumFunctionsConvert<V, U>(types: TypeMap, t: DataType, v: V, how: (Via, V) -> U)
    requires t.Enum?
    ensures Call(ToVariantOf(types, t), Enumerator(v), how) == Some(Stored("INT32", Whole(how(ByCast(t.name), v))))
    ensures var returned := Call(FromOf(types, t), Enumerator(v), how);
      && (returned.Some? <==> forall l | l in t.literals :: l.dataType !in types)
      && (returned.Some? ==> returned.value == Returned(Built(t.name, CStruct(map[], map[]))))
  {
    NoLiteralRuns(types, t.literals, how);
  }

  lemma {:induction false} NoLiteralRuns<V, U>(types: TypeMap, literals: seq<Literal>, how: (Via, V) -> U)
    ensures var r := Run(LiteralPrograms(types, literals), map[], how, CStruct(map[], map[]));
      && (r.Some? <==> forall l | l in literals :: l.dataType !in types)
      && (r.Some? ==> r.value == CStruct(map[], map[]))
  {
    if literals != [] {
      var front, last := literals[..|literals| - 1], literals[|literals| - 1];
      NoLiteralRuns(types, front, how);
      assert forall l | l in literals :: l in front || l == last;
      var empty: map<string, Cpp<V>> := map[];
      RunConcat(LiteralPrograms(types, front), LiteralProgram(types, last), empty, how, CStruct(map[], map[]));
      LiteralDoesNotRun(types, last, how, CStruct(map[], map[]));
    }
  }

  lemma LiteralDoesNotRun<V, U>(types: TypeMap, l: Literal, how: (Via, V) -> U, c: CStruct<U>)
    ensures var empty: map<string, Cpp<V>> := map[];
      Run(LiteralProgram(types, l), empty, how, c) == if l.dataType in types then None else Some(c)
  {
    var empty: map<string, Cpp<V>> := map[];
    if l.dataType in types {
      var t, n := types[l.dataType], CodeText.FirstToLow(l.name);
      ScalarEval(t, n, empty, how);
      var p := LiteralProgram(types, l);
      FirstFails(p, empty, how, c);
    }
  }

  lemma {:induction false} FirstFails<V, U>(ss: seq<Stmt>, val: map<string, Cpp<V>>, how: (Via, V) -> U, c: CStruct<U>)
    requires ss != [] && Exec(ss[0], val, how, c) == None
    ensures Run(ss, val, how, c) == None
  {
    if |ss| == 1 {
      assert ss[..0] == [];
    } else {
      FirstFails(ss[..|ss| - 1], val, how, c);
    }
  }
}
