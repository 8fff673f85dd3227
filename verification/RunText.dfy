/** Which types the two streams of a run are about, read off their text. */
module RunText {
  import opened TypeModel
  import opened Nesting
  import opened Options
  import opened CodeText
  import opened DependencyGraph
  import opened Ordering
  import opened Emission
  import opened Output
  import ConversionCode
  import HeaderCode

  /** Reads a stream from left to right: `found` are the names last seen before
      each brace that is opened after a piece of text. These are the bodies of
      namespaces, classes, enums and functions; the brace of a loop follows a
      parenthesis. */
  datatype Reader = Reader(name: string, afterCode: bool, found: seq<string>)

  function Next(r: Reader, p: Piece): Reader {
    match p
    case Code(_) => r.(afterCode := true)
    case Name(n) => r.(name := n, afterCode := false)
    case Open(Brace) => r.(afterCode := false, found := if r.afterCode then r.found + [r.name] else r.found)
    case _ => r.(afterCode := false)
  }

  function ReadAll(r: Reader, ps: seq<Piece>): Reader {
    if ps == [] then r else Next(ReadAll(r, ps[..|ps| - 1]), ps[|ps| - 1])
  }

  lemma {:induction false} ReadConcat(r: Reader, a: seq<Piece>, b: seq<Piece>)
    ensures ReadAll(r, a + b) == ReadAll(ReadAll(r, a), b)
  {
    if b == [] {
      assert a + b == a;
    } else {
      var front, last := b[..|b| - 1], b[|b| - 1];
      ReadConcat(r, a, front);
      assert (a + b)[..|a + b| - 1] == a + front && (a + b)[|a + b| - 1] == last;
    }
  }

  function BodiesIn(ps: seq<Piece>): seq<string> {
    ReadAll(Reader("", false, []), ps).found
  }

  /** Wherever it stands, the text adds the bodies of these names. */
  ghost predicate Adds(ps: seq<Piece>, names: seq<string>) {
    forall r :: ReadAll(r, ps).found == r.found + names
  }

  lemma AddsConcat(a: seq<Piece>, m: seq<string>, b: seq<Piece>, n: seq<string>)
    requires Adds(a, m) && Adds(b, n)
    ensures Adds(a + b, m + n)
  {
    forall r {
      ReadConcat(r, a, b);
    }
  }

  /** Text in which no brace is opened directly after other text. */
  ghost predicate Quiet(ps: seq<Piece>) {
    forall k | 0 <= k < |ps| && ps[k] == Open(Brace) :: k > 0 && !ps[k - 1].Code?
  }

  lemma {:induction false} ReadQuiet(r: Reader, ps: seq<Piece>)
    requires Quiet(ps)
    ensures ReadAll(r, ps).found == r.found
    ensures ps != [] ==> (ReadAll(r, ps).afterCode <==> ps[|ps| - 1].Code?)
  {
    if ps != [] {
      var front := ps[..|ps| - 1];
      assert forall k | 0 <= k < |front| :: front[k] == ps[k];
      ReadQuiet(r, front);
    }
  }

  lemma QuietAdds(ps: seq<Piece>)
    requires Quiet(ps)
    ensures Adds(ps, [])
  {
    forall r {
      ReadQuiet(r, ps);
    }
  }

  lemma QuietConcat(a: seq<Piece>, b: seq<Piece>)
    requires Quiet(a) && Quiet(b)
    ensures Quiet(a + b)
  {
  }

  /** The last name is `n`. */
  ghost predicate EndsWithName(ps: seq<Piece>, n: string) {
    exists k :: 0 <= k < |ps| && ps[k] == Name(n) && forall j | k < j < |ps| :: !ps[j].Name?
  }

  lemma {:induction false} ReadLastName(r: Reader, ps: seq<Piece>, n: string)
    requires EndsWithName(ps, n)
    ensures ReadAll(r, ps).name == n
  {
    var k :| 0 <= k < |ps| && ps[k] == Name(n) && forall j | k < j < |ps| :: !ps[j].Name?;
    if k < |ps| - 1 {
      assert ps[..|ps| - 1][k] == Name(n);
      ReadLastName(r, ps[..|ps| - 1], n);
    }
  }

  /** A head that ends in text, and a body in braces. */
  lemma BodyAdds(head: seq<Piece>, n: string, body: seq<Piece>)
    requires Quiet(head) && head != [] && head[|head| - 1].Code? && EndsWithName(head, n) && Adds(body, [])
    ensures Adds(head + Group(Brace, body), [n])
  {
    forall r
      ensures ReadAll(r, head + Group(Brace, body)).found == r.found + [n]
    {
      ReadQuiet(r, head);
      ReadLastName(r, head, n);
      ReadConcat(r, head, Group(Brace, body));
      ReadConcat(ReadAll(r, head), [Open(Brace)] + body, [Close(Brace)]);
      ReadConcat(ReadAll(r, head), [Open(Brace)], body);
      assert [Open(Brace)][..0] == [] && [Close(Brace)][..0] == [];
    }
  }

  // ----- One type -----

  ghost predicate NoBrace(ps: seq<Piece>) {
    forall k | 0 <= k < |ps| :: ps[k] != Open(Brace)
  }

  lemma NoBraceConcat(a: seq<Piece>, b: seq<Piece>)
    requires NoBrace(a) && NoBrace(b)
    ensures NoBrace(a + b) && Quiet(a + b)
  {
  }

  lemma {:induction false} MembersHaveNoBrace(types: TypeMap, fields: seq<Field>)
    ensures NoBrace(Members(types, fields))
  {
    if fields != [] {
      hide Upper, FirstToLow;
      MembersHaveNoBrace(types, fields[..|fields| - 1]);
      NoBraceConcat(Members(types, fields[..|fields| - 1]), Member(types, fields[|fields| - 1]));
    }
  }

  lemma {:induction false} OrdinalsHaveNoBrace(n: string, literals: seq<Literal>)
    ensures NoBrace(Ordinals(n, literals))
  {
    if literals != [] {
      hide Upper;
      OrdinalsHaveNoBrace(n, literals[..|literals| - 1]);
      NoBraceConcat(Ordinals(n, literals[..|literals| - 1]), Ordinal(n, literals[|literals| - 1]));
    }
  }

  lemma DeclarationHasNoBrace(t: DataType)
    ensures NoBrace(ConversionDecl(t))
  {
    HeaderCode.DeclarationText(t);
  }

  lemma AddedHasNoBrace(types: TypeMap, t: DataType)
    ensures NoBrace(AddHeader(types, t))
  {
    match t
    case Base(_, _) =>
    case Enum(_, _, _) => OrdinalsHaveNoBrace(t.name, t.literals);
    case Struct(_, _, fields) =>
      DeclarationHasNoBrace(t);
      MembersHaveNoBrace(types, fields);
      hide ConversionDecl, Members;
      NoBraceConcat(ConversionDecl(t), [Code("public:\n")]);
      NoBraceConcat(ConversionDecl(t) + [Code("public:\n")], Members(types, fields));
  }

  lemma ClassAdds(types: TypeMap, t: DataType)
    requires !t.Base?
    ensures Adds(OpenHeader(t) + AddHeader(types, t) + CloseHeader(), [t.name])
  {
    AddedHasNoBrace(types, t);
    hide AddHeader;
    var head, body, end := ClassHead(t), BodyStart(t) + AddHeader(types, t), [Code(";\n\n")];
    NoBraceConcat(BodyStart(t), AddHeader(types, t));
    assert head[1] == Name(t.name);
    assert OpenHeader(t) + AddHeader(types, t) + CloseHeader() == head + Group(Brace, body) + end;
    hide BodyStart, ClassHead, OpenHeader, CloseHeader;
    BodyAndEndAdd(head, t.name, body, end);
  }

  lemma BodyAndEndAdd(head: seq<Piece>, n: string, body: seq<Piece>, end: seq<Piece>)
    requires Quiet(head) && head != [] && head[|head| - 1].Code? && EndsWithName(head, n) && Quiet(body) && Quiet(end)
    ensures Adds(head + Group(Brace, body) + end, [n])
  {
    QuietAdds(body);
    QuietAdds(end);
    hide Quiet, EndsWithName, Adds;
    BodyAdds(head, n, body);
    AddsConcat(head + Group(Brace, body), [n], end, []);
    assert [n] + [] == [n];
  }

  lemma TemplatePieces(t: DataType)
    ensures NoBrace(TemplateBody(t))
    ensures var head := TemplateHead(t) + Group(Paren, []) + [Code(" ")];
      Quiet(head) && head[|head| - 1].Code? && EndsWithName(head, t.name)
  {
    hide Cat, Upper;
    Cat3([Code("\nreturn ")], TypeEntry(Upper(t.name)), [Code(";\n")]);
    var head := TemplateHead(t) + Group(Paren, []) + [Code(" ")];
    assert head[4] == Name(t.name);
  }

  lemma TemplateAdds(t: DataType)
    ensures Adds(DataTypeTemplate(t), [t.name])
  {
    hide Cat, TemplateHead, TemplateBody, EndsWithName, Adds;
    TemplatePieces(t);
    var head, end: seq<Piece> := TemplateHead(t) + Group(Paren, []) + [Code(" ")], [Code("\n")];
    Cat5(TemplateHead(t), Group(Paren, []), [Code(" ")], Group(Brace, TemplateBody(t)), end);
    BodyAndEndAdd(head, t.name, TemplateBody(t), end);
  }

  /** A struct has its class and its entry of the type table in the header, an enum
      its enum class. */
  function HeaderBodies(t: DataType): seq<string> {
    match t case Base(_, _) => [] case Enum(n, _, _) => [n] case Struct(n, _, _) => [n, n]
  }

  lemma HeaderTextAdds(types: TypeMap, t: DataType)
    requires !t.Base?
    ensures Adds(HeaderText(types, t), HeaderBodies(t))
  {
    ClassAdds(types, t);
    if t.Struct? {
      TemplateAdds(t);
      AddsConcat(OpenHeader(t) + AddHeader(types, t) + CloseHeader(), [t.name], AfterHeader(t), [t.name]);
      assert [t.name] + [t.name] == HeaderBodies(t);
    } else {
      DeclarationHasNoBrace(t);
      hide ConversionDecl;
      QuietAdds(AfterHeader(t));
      AddsConcat(OpenHeader(t) + AddHeader(types, t) + CloseHeader(), [t.name], AfterHeader(t), []);
      assert [t.name] + [] == HeaderBodies(t);
    }
  }

  lemma {:induction false} ExprHasNoBrace(e: ConversionCode.Expr)
    ensures NoBrace(ConversionCode.ExprText(e))
  {
    hide Upper;
    match e
    case Cast(_, a) => ExprHasNoBrace(a);
    case Convert(_, a) => ExprHasNoBrace(a);
    case NewArray(_, a) => ExprHasNoBrace(a);
    case Blank(a) => ExprHasNoBrace(a);
    case _ =>
  }

  lemma ElementHasNoBrace(n: string, e: ConversionCode.Expr)
    ensures NoBrace(ConversionCode.ElementText(n, e))
  {
    ExprHasNoBrace(e);
    hide ConversionCode.ExprText;
  }

  lemma StmtIsQuiet(s: ConversionCode.Stmt)
    ensures Quiet(ConversionCode.StmtText(s))
  {
    ExprHasNoBrace(s.e);
    if s.ForEach? {
      ExprHasNoBrace(ConversionCode.Size(s.bound));
      ElementHasNoBrace(s.name, s.e);
      hide ConversionCode.ExprText, ConversionCode.ElementText;
      var size, body := ConversionCode.ExprText(ConversionCode.Size(s.bound)), ConversionCode.ElementText(s.name, s.e);
      LoopIsQuiet([Code("for"), Open(Paren), Code("auto i=0; i<")], size, Code("; i++"), body, Code("\n"));
    } else {
      hide ConversionCode.ExprText;
    }
  }

  lemma LoopIsQuiet(start: seq<Piece>, size: seq<Piece>, step: Piece, body: seq<Piece>, end: Piece)
    requires NoBrace(start) && NoBrace(size) && step.Code? && NoBrace(body) && end.Code?
    ensures Quiet(start + size + [step, Close(Paren), Open(Brace)] + body + [Close(Brace), end])
  {
    NoBraceConcat(start, size);
    assert Quiet([step, Close(Paren), Open(Brace)]) && Quiet([Close(Brace), end]) && Quiet(body);
    hide NoBrace, Quiet;
    QuietConcat(start + size, [step, Close(Paren), Open(Brace)]);
    QuietConcat(start + size + [step, Close(Paren), Open(Brace)], body);
    QuietConcat(start + size + [step, Close(Paren), Open(Brace)] + body, [Close(Brace), end]);
  }

  lemma {:induction false} TextIsQuiet(ss: seq<ConversionCode.Stmt>)
    ensures Quiet(ConversionCode.Text(ss))
  {
    if ss != [] {
      hide ConversionCode.StmtText;
      TextIsQuiet(ss[..|ss| - 1]);
      StmtIsQuiet(ss[|ss| - 1]);
      QuietConcat(ConversionCode.Text(ss[..|ss| - 1]), ConversionCode.StmtText(ss[|ss| - 1]));
    }
  }

  lemma EndIsQuiet(e: ConversionCode.End)
    ensures Quiet(ConversionCode.EndText(e))
  {
  }

  lemma BodyIsQuiet(b: ConversionCode.Body)
    ensures Quiet(ConversionCode.BodyText(b))
  {
    EndIsQuiet(b.end);
    hide ConversionCode.EndText, ConversionCode.Text;
    if b.Build? {
      var start: seq<Piece> := [Code("UA_"), Name(b.typeName), Code(" uaval;\n")];
      TextIsQuiet(b.ss);
      QuietConcat(start, ConversionCode.Text(b.ss));
      QuietConcat(start + ConversionCode.Text(b.ss), ConversionCode.EndText(b.end));
    }
  }

  lemma FunctionAdds(head: seq<Piece>, n: string, gap: Piece, body: seq<Piece>)
    requires NoBrace(head) && EndsWithName(head, n) && gap.Code? && Quiet(body)
    ensures Adds(head + [gap] + Group(Brace, [Code("\n")] + body) + [Code("\n\n")], [n])
  {
    var k :| 0 <= k < |head| && head[k] == Name(n) && forall j | k < j < |head| :: !head[j].Name?;
    assert (head + [gap])[k] == Name(n);
    NoBraceConcat(head, [gap]);
    QuietConcat([Code("\n")], body);
    BodyAndEndAdd(head + [gap], n, [Code("\n")] + body, [Code("\n\n")]);
  }

  /** The implementation has the bodies of the type's two functions. */
  lemma ImplTextAdds(types: TypeMap, t: DataType)
    requires !t.Base? && FieldsResolve(types, t)
    ensures Adds(ImplText(types, t), [t.name, t.name])
  {
    hide ToVariantBody, FromConversionBody, ConversionCode.BodyText, Group;
    ConversionCode.BodiesText(types, t);
    BodyIsQuiet(ConversionCode.ToVariantOf(types, t));
    BodyIsQuiet(ConversionCode.FromOf(types, t));
    HeadsEndWithName(t);
    hide ToVariantSignature, FromSignature, Quiet, NoBrace, EndsWithName;
    FunctionAdds(ToVariantSignature(t), t.name, Code("\n"), ToVariantBody(types, t));
    FunctionAdds(FromSignature(t, [Code(" &val")]), t.name, Code(" "), FromConversionBody(types, t));
    AddsConcat(ToVariantImpl(types, t), [t.name], FromConversionImpl(types, t), [t.name]);
    assert [t.name] + [t.name] == [t.name, t.name];
  }

  lemma HeadsEndWithName(t: DataType)
    ensures NoBrace(ToVariantSignature(t)) && EndsWithName(ToVariantSignature(t), t.name)
    ensures NoBrace(FromSignature(t, [Code(" &val")])) && EndsWithName(FromSignature(t, [Code(" &val")]), t.name)
  {
    assert ToVariantSignature(t)[3] == Name(t.name);
    assert FromSignature(t, [Code(" &val")])[6] == Name(t.name);
  }

  // ----- Runs -----

  function AllHeaderBodies(types: TypeMap, ids: seq<NodeId>): seq<string> {
    if ids == [] then [] else
      var id := ids[|ids| - 1];
      AllHeaderBodies(types, ids[..|ids| - 1]) + (if id in types then HeaderBodies(types[id]) else [])
  }

  function AllImplBodies(types: TypeMap, ids: seq<NodeId>): seq<string> {
    if ids == [] then [] else
      var id := ids[|ids| - 1];
      AllImplBodies(types, ids[..|ids| - 1]) + (if id in types then [types[id].name, types[id].name] else [])
  }

  lemma {:induction false} AllBodiesConcat(types: TypeMap, a: seq<NodeId>, b: seq<NodeId>)
    ensures AllHeaderBodies(types, a + b) == AllHeaderBodies(types, a) + AllHeaderBodies(types, b)
    ensures AllImplBodies(types, a + b) == AllImplBodies(types, a) + AllImplBodies(types, b)
  {
    hide HeaderBodies;
    if b == [] {
      assert a + b == a;
    } else {
      var front, last := b[..|b| - 1], b[|b| - 1];
      assert (a + b)[..|a + b| - 1] == a + front && (a + b)[|a + b| - 1] == last;
      AllBodiesConcat(types, a, front);
    }
  }

  lemma {:induction false} TypesAdd(types: TypeMap, ids: seq<NodeId>)
    requires Writable(types, ids)
    ensures Adds(HeaderOf(types, ids), AllHeaderBodies(types, ids))
    ensures Adds(ImplOf(types, ids), AllImplBodies(types, ids))
  {
    if ids != [] {
      hide HeaderText, ImplText, Adds, HeaderBodies;
      var front, t := ids[..|ids| - 1], types[ids[|ids| - 1]];
      TypesAdd(types, front);
      HeaderTextAdds(types, t);
      ImplTextAdds(types, t);
      AddsConcat(HeaderOf(types, front), AllHeaderBodies(types, front), HeaderText(types, t), HeaderBodies(t));
      AddsConcat(ImplOf(types, front), AllImplBodies(types, front), ImplText(types, t), [t.name, t.name]);
    } else {
      QuietAdds([]);
    }
  }

  lemma NamespaceAdds(ns: string)
    ensures Adds(OpenHeaderNamespace(ns), [ns]) && Adds(OpenImplNamespace(ns), [ns])
  {
    forall r
      ensures ReadAll(r, OpenHeaderNamespace(ns)).found == r.found + [ns]
      ensures ReadAll(r, OpenImplNamespace(ns)).found == r.found + [ns]
    {
      var head: seq<Piece> := [Code("namespace "), Name(ns), Code(" ")];
      assert head[1] == Name(ns);
      ReadLastName(r, head, ns);
      ReadQuiet(r, head);
      ReadConcat(r, head, [Open(Brace)]);
      ReadConcat(r, head + [Open(Brace)], [Code("\n")]);
      assert [Open(Brace)][..0] == [] && [Code("\n")][..0] == [];
      assert OpenImplNamespace(ns) == head + [Open(Brace)];
      assert OpenHeaderNamespace(ns) == head + [Open(Brace)] + [Code("\n")];
    }
  }

  lemma IncludesAreQuiet()
    ensures Quiet(HeaderIncludes()) && Quiet(ImplIncludes())
  {
  }

  lemma CallAdds(types: TypeMap, emitted: seq<NodeId>, t: DataType)
    requires Known(types, t)
    ensures Adds(CallHeader(types, emitted, t), AllHeaderBodies(types, Writes(types, emitted, t)))
    ensures Adds(CallImpl(types, emitted, t), AllImplBodies(types, Writes(types, emitted, t)))
  {
    var more := Writes(types, emitted, t);
    QuietAdds([]);
    if Walk(types, t).ok {
      OrderedIsWritable(types, t);
      TypesAdd(types, more);
      IncludesAreQuiet();
      hide HeaderIncludes, ImplIncludes, Quiet, Adds, HeaderOf, ImplOf;
      QuietAdds(HeaderIncludes());
      QuietAdds(ImplIncludes());
      AddsConcat(HeaderIncludes(), [], HeaderOf(types, more), AllHeaderBodies(types, more));
      AddsConcat(ImplIncludes(), [], ImplOf(types, more), AllImplBodies(types, more));
      assert [] + AllHeaderBodies(types, more) == AllHeaderBodies(types, more);
      assert [] + AllImplBodies(types, more) == AllImplBodies(types, more);
    }
  }

  lemma RunUnfolds(types: TypeMap, ns: string, roots: seq<DataType>)
    requires AllKnown(types, roots) && roots != []
    ensures var front, t := roots[..|roots| - 1], roots[|roots| - 1];
      && AllKnown(types, front) && Known(types, t)
      && Run(types, roots) == Run(types, front) + Writes(types, Run(types, front), t)
      && RunHeader(types, ns, roots) == RunHeader(types, ns, front) + CallHeader(types, Run(types, front), t)
      && RunImpl(types, ns, roots) == RunImpl(types, ns, front) + CallImpl(types, Run(types, front), t)
  {
    hide Writes, CallHeader, CallImpl, Known;
  }

  lemma RunStarts(types: TypeMap, ns: string)
    ensures RunHeader(types, ns, []) == OpenHeaderNamespace(ns) && RunImpl(types, ns, []) == OpenImplNamespace(ns)
    ensures Run(types, []) == [] && AllHeaderBodies(types, []) == [] && AllImplBodies(types, []) == []
  {
  }

  lemma {:induction false} RunAdds(types: TypeMap, ns: string, roots: seq<DataType>)
    requires AllKnown(types, roots)
    ensures Adds(RunHeader(types, ns, roots), [ns] + AllHeaderBodies(types, Run(types, roots)))
    ensures Adds(RunImpl(types, ns, roots), [ns] + AllImplBodies(types, Run(types, roots)))
  {
    hide Run, RunHeader, RunImpl, Adds, Writes, CallHeader, CallImpl, AllKnown, Known, AllHeaderBodies, AllImplBodies;
    if roots == [] {
      RunStarts(types, ns);
      NamespaceAdds(ns);
      assert [ns] + [] == [ns];
    } else {
      RunUnfolds(types, ns, roots);
      var front, t := roots[..|roots| - 1], roots[|roots| - 1];
      RunAdds(types, ns, front);
      var before, more := Run(types, front), Writes(types, Run(types, front), t);
      CallAdds(types, before, t);
      AllBodiesConcat(types, before, more);
      Join(RunHeader(types, ns, front), ns, AllHeaderBodies(types, before),
           CallHeader(types, before, t), AllHeaderBodies(types, more));
      Join(RunImpl(types, ns, front), ns, AllImplBodies(types, before),
           CallImpl(types, before, t), AllImplBodies(types, more));
    }
  }

  lemma Join(a: seq<Piece>, ns: string, m: seq<string>, b: seq<Piece>, n: seq<string>)
    requires Adds(a, [ns] + m) && Adds(b, n)
    ensures Adds(a + b, [ns] + (m + n))
  {
    hide Adds;
    AddsConcat(a, [ns] + m, b, n);
    assert [ns] + m + n == [ns] + (m + n);
  }

  /** The bodies in both streams of a run are, in order, that of the namespace and
      those of each type written, and there are no others. */
  lemma BodiesOfRun(types: TypeMap, ns: string, roots: seq<DataType>)
    requires AllKnown(types, roots)
    ensures BodiesIn(RunHeader(types, ns, roots)) == [ns] + AllHeaderBodies(types, Run(types, roots))
    ensures BodiesIn(RunImpl(types, ns, roots)) == [ns] + AllImplBodies(types, Run(types, roots))
  {
    hide Run, RunHeader, RunImpl, AllHeaderBodies, AllImplBodies;
    RunAdds(types, ns, roots);
  }
}
