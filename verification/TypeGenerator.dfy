/** The generator itself: an object that orders and writes types into two
    streams, one call at a time. */
module TypeGenerator {
  import opened Sequences
  import opened TypeModel
  import opened DependencyGraph
  import opened Ordering
  import opened Emission
  import opened Nesting
  import opened CodeText
  import opened Output

  class TypeGenerator {
    const cppTargetNamespace: string
    const types: TypeMap
    var order: seq<NodeId>
    var generated: set<NodeId>
    var header: seq<Piece>
    var impl: seq<Piece>

    /** The calls made so far and the types they wrote. */
    ghost var roots: seq<DataType>
    ghost var emitted: seq<NodeId>

    ghost predicate Valid()
      reads this
    {
      && Keyed(types)
      && AllKnown(types, roots)
      && emitted == Run(types, roots)
      && generated == Elems(emitted)
      && header == RunHeader(types, cppTargetNamespace, roots)
      && impl == RunImpl(types, cppTargetNamespace, roots)
    }

    constructor (ns: string, types: TypeMap)
      requires Keyed(types)
      ensures Valid() && roots == [] && this.types == types && cppTargetNamespace == ns
    {
      this.cppTargetNamespace := ns;
      this.types := types;
      order, generated := [], {};
      header, impl := [], [];
      roots, emitted := [], [];
      new;
      OpenNamespace();
    }

    method OpenNamespace()
      modifies `header, `impl
      ensures header == old(header) + OpenHeaderNamespace(cppTargetNamespace)
      ensures impl == old(impl) + OpenImplNamespace(cppTargetNamespace)
    {
      header := header + OpenHeaderNamespace(cppTargetNamespace);
      impl := impl + OpenImplNamespace(cppTargetNamespace);
    }

    // ----- Ordering -----

    /** Appends what the walk from `t` lists. `room` counts the nested calls
        still allowed: each nested call has one less. */
    method BuildOrder(t: DataType, ghost room: nat) returns (ok: bool)
      requires Known(types, t) && Rank(types, t.id) < room
      modifies `order
      ensures ok == Walk(types, t).ok
      ensures order == old(order) + Walk(types, t).order
      decreases room, 1
    {
      match t
      case Base(_, _) =>
        ok := true;
      case Enum(_, _, _) =>
        order := order + [t.id];
        ok := true;
      case Struct(_, _, _) =>
        ok := BuildStructOrder(t, room);
    }

    method BuildStructOrder(t: DataType, ghost room: nat) returns (ok: bool)
      requires Known(types, t) && t.Struct? && Rank(types, t.id) < room
      modifies `order
      ensures ok == Walk(types, t).ok
      ensures order == old(order) + Walk(types, t).order
      decreases room, 0
    {
      hide Known, Rank, Orderable, EarlierOrderable, Walk;
      StructWalk(types, t);
      for i := 0 to |t.fields|
        invariant WalkFields(types, t, i).ok
        invariant order == old(order) + WalkFields(types, t, i).order
      {
        FieldKnown(types, t, i);
        var d := t.fields[i].dataType;
        if d in types {
          var fieldOk := BuildOrder(types[d], room - 1);
          if !fieldOk {
            FailureStops(types, t, i + 1, |t.fields|);
            return false;
          }
        } else {
          FailureStops(types, t, i + 1, |t.fields|);
          return false;
        }
      }
      order := order + [t.id];
      ok := true;
    }

    // ----- Writing one type -----

    method AddPrivateMember(t: DataType)
      requires t.Struct?
      modifies `header
      ensures header == old(header) + [Code("public:\n")] + Members(types, t.fields)
    {
      hide Member;
      header := header + [Code("public:\n")];
      for i := 0 to |t.fields|
        invariant header == old(header) + [Code("public:\n")] + Members(types, t.fields[..i])
      {
        header := header + Member(types, t.fields[i]);
        assert t.fields[..i + 1][..i] == t.fields[..i];
      }
      assert t.fields[..|t.fields|] == t.fields;
    }

    method AddEnumOrdinals(t: DataType)
      requires t.Enum?
      modifies `header
      ensures header == old(header) + Ordinals(t.name, t.literals)
    {
      hide Ordinal;
      for i := 0 to |t.literals|
        invariant header == old(header) + Ordinals(t.name, t.literals[..i])
      {
        header := header + Ordinal(t.name, t.literals[i]);
        assert t.literals[..i + 1][..i] == t.literals[..i];
      }
      assert t.literals[..|t.literals|] == t.literals;
    }

    /** The lookup of each field type is required to succeed: the code follows
        the found entry without a test. */
    method AddStructConversions(t: DataType)
      requires t.Struct? && FieldsResolve(types, t)
      modifies `impl
      ensures impl == old(impl) + FieldBody(types, t)
    {
      hide FieldConversion;
      for i := 0 to |t.fields|
        invariant impl == old(impl) + FieldConversions(types, t.fields[..i])
      {
        impl := impl + FieldConversion(types, t.fields[i]);
        assert t.fields[..i + 1][..i] == t.fields[..i];
      }
      assert t.fields[..|t.fields|] == t.fields;
    }

    method AddEnumConversions(t: DataType)
      requires t.Enum?
      modifies `impl
      ensures impl == old(impl) + FieldBody(types, t)
    {
      hide LiteralConversion;
      for i := 0 to |t.literals|
        invariant impl == old(impl) + LiteralConversions(types, t.literals[..i])
      {
        impl := impl + LiteralConversion(types, t.literals[i]);
        assert t.literals[..i + 1][..i] == t.literals[..i];
      }
      assert t.literals[..|t.literals|] == t.literals;
    }

    method AddToVariantImpl(t: DataType)
      requires !t.Base? && FieldsResolve(types, t)
      modifies `impl
      ensures impl == old(impl) + ToVariantImpl(types, t)
    {
      impl := impl + ToVariantSignature(t) + [Code("\n")] + [Open(Brace)] + [Code("\n")];
      if t.Struct? {
        impl := impl + DeclareValue(t);
        AddStructConversions(t);
        impl := impl + CopyToVariant(Upper(t.name));
        Flatten3(old(impl) + ToVariantSignature(t) + [Code("\n")] + [Open(Brace)] + [Code("\n")],
                 DeclareValue(t), FieldBody(types, t), CopyToVariant(Upper(t.name)));
      } else {
        impl := impl + EnumCast(t) + CopyToVariant("INT32");
      }
      impl := impl + [Close(Brace)] + [Code("\n\n")];
      FlattenFunction(old(impl), ToVariantSignature(t), [Code("\n")], ToVariantBody(types, t));
    }

    method AddFromConversionImpl(t: DataType)
      requires !t.Base? && FieldsResolve(types, t)
      modifies `impl
      ensures impl == old(impl) + FromConversionImpl(types, t)
    {
      impl := impl + FromSignature(t, [Code(" &val")]) + [Code(" ")] + [Open(Brace)] + [Code("\n")];
      impl := impl + DeclareValue(t);
      if t.Struct? {
        AddStructConversions(t);
      } else {
        AddEnumConversions(t);
      }
      impl := impl + [Code("return uaval;\n")];
      Flatten3(old(impl) + FromSignature(t, [Code(" &val")]) + [Code(" ")] + [Open(Brace)] + [Code("\n")],
               DeclareValue(t), FieldBody(types, t), [Code("return uaval;\n")]);
      impl := impl + [Close(Brace)] + [Code("\n\n")];
      FlattenFunction(old(impl), FromSignature(t, [Code(" &val")]), [Code(" ")], FromConversionBody(types, t));
    }

    method AddHeaderText(t: DataType)
      requires !t.Base?
      modifies `header
      ensures header == old(header) + HeaderText(types, t)
    {
      header := header + OpenHeader(t);
      if t.Struct? {
        header := header + ConversionDecl(t);
        AddPrivateMember(t);
        Flatten3(old(header) + OpenHeader(t), ConversionDecl(t), [Code("public:\n")], Members(types, t.fields));
      } else {
        AddEnumOrdinals(t);
      }
      header := header + CloseHeader();
      header := header + AfterHeader(t);
      Flatten4(old(header), OpenHeader(t), AddHeader(types, t), CloseHeader(), AfterHeader(t));
    }

    method Generate(t: DataType)
      requires FieldsResolve(types, t)
      modifies `header, `impl
      ensures header == old(header) + HeaderText(types, t)
      ensures impl == old(impl) + ImplText(types, t)
    {
      hide ToVariantImpl, FromConversionImpl, OpenHeader, AddHeader, CloseHeader, AfterHeader;
      if t.Base? {
        return;
      }
      AddHeaderText(t);
      AddToVariantImpl(t);
      AddFromConversionImpl(t);
    }

    // ----- Calls -----

    /** Writes `t` and everything it needs that has not been written. A call
        whose ordering fails leaves the streams and the written set alone. */
    method GenerateClass(t: DataType)
      requires Valid() && Known(types, t)
      modifies this
      ensures Valid() && roots == old(roots) + [t]
      ensures emitted == old(emitted) + Writes(types, old(emitted), t)
      ensures Sound(types, emitted) && emitted == SearchAll(types, roots)
      ensures ReachesMissing(types, t) ==>
        header == old(header) && impl == old(impl) && generated == old(generated)
      ensures !ReachesMissing(types, t) ==>
        var more := emitted[|old(emitted)|..];
        && Writable(types, more) && generated == old(generated) + Elems(more)
        && header == old(header) + HeaderIncludes() + HeaderOf(types, more)
        && impl == old(impl) + ImplIncludes() + ImplOf(types, more)
    {
      hide Walk, Fresh, HeaderOf, ImplOf, HeaderIncludes, ImplIncludes, Run, RunHeader, RunImpl;
      hide NoEnteredCycle, Orderable, ReachesMissing, Sound, SearchAll, Wanted;
      OkIffNothingMissing(types, t);
      RankBelowStructCount(types, t);
      order := [];
      var ok := BuildOrder(t, |StructIds(types)| + 1);
      NothingAdded([], Walk(types, t).order);
      RunExtends(types, cppTargetNamespace, roots, t);
      roots := roots + [t];
      RunIsOneSearch(types, roots);
      if !ok {
        NothingAdded(header, []);
        NothingAdded(impl, []);
        NothingAdded(emitted, []);
        return;
      }
      OrderedIsWritable(types, t);
      header := header + HeaderIncludes();
      impl := impl + ImplIncludes();
      WriteOrdered(t);
      Flatten2(old(header), HeaderIncludes(), HeaderOf(types, Writes(types, old(emitted), t)));
      Flatten2(old(impl), ImplIncludes(), ImplOf(types, Writes(types, old(emitted), t)));
    }

    /** Replays the order, skipping what is already written. */
    method WriteOrdered(t: DataType)
      requires Known(types, t) && Walk(types, t).ok && order == Walk(types, t).order
      requires generated == Elems(emitted)
      modifies `header, `impl, `generated, `emitted
      ensures Writable(types, Writes(types, old(emitted), t))
      ensures header == old(header) + HeaderOf(types, Writes(types, old(emitted), t))
      ensures impl == old(impl) + ImplOf(types, Writes(types, old(emitted), t))
      ensures emitted == old(emitted) + Writes(types, old(emitted), t)
      ensures generated == Elems(emitted)
    {
      hide HeaderText, ImplText, HeaderOf, ImplOf, Walk, Fresh, NoEnteredCycle, Orderable, DefinedBeforeUse;
      OrderedIsWritable(types, t);
      ghost var seen := generated;
      ReplayStart(types, seen, order);
      for i := 0 to |order|
        invariant Writable(types, Fresh(seen, order[..i]))
        invariant header == old(header) + HeaderOf(types, Fresh(seen, order[..i]))
        invariant impl == old(impl) + ImplOf(types, Fresh(seen, order[..i]))
        invariant emitted == old(emitted) + Fresh(seen, order[..i])
        invariant generated == seen + Elems(Fresh(seen, order[..i]))
      {
        var id := order[i];
        ReplayStep(types, seen, order, i);
        if id in generated {
          continue;
        }
        Generate(types[id]);
        generated := generated + {id};
        emitted := emitted + [id];
      }
      assert order[..|order|] == order;
      assert Elems(emitted) == Elems(old(emitted)) + Elems(Fresh(seen, order));
    }

    /** Closes the namespace; both texts are then well nested when no name
        carries a bracket. */
    method Finish()
      requires Valid()
      modifies `header, `impl
      ensures header == old(header) + CloseHeaderNamespace() && impl == old(impl) + CloseImplNamespace()
      ensures PlainIds(types, emitted) && Plain(cppTargetNamespace) ==>
        WellNested(Characters(header)) && WellNested(Characters(impl))
    {
      header := header + CloseHeaderNamespace();
      impl := impl + CloseImplNamespace();
      if PlainIds(types, emitted) && Plain(cppTargetNamespace) {
        FinishedTextIsWellNested(types, cppTargetNamespace, roots);
      }
    }
  }

  /** A struct is listed after its fields, unless one of them fails. */
  lemma StructWalk(types: TypeMap, t: DataType)
    requires Known(types, t) && t.Struct?
    ensures WalkFields(types, t, 0) == Walked(true, [])
    ensures var w := WalkFields(types, t, |t.fields|);
      Walk(types, t) == if w.ok then Walked(true, w.order + [t.id]) else w
  {
  }

  lemma {:induction false} FailureStops(types: TypeMap, t: DataType, i: nat, n: nat)
    requires Known(types, t) && t.Struct? && i <= n <= |t.fields| && !WalkFields(types, t, i).ok
    ensures WalkFields(types, t, n) == WalkFields(types, t, i)
    decreases n
  {
    hide Orderable, EarlierOrderable, Rank, NoEnteredCycle, Walk;
    if i < n {
      FailureStops(types, t, i, n - 1);
    }
  }

  /** One step of the replay: an entry already written adds nothing, a new one
      adds its text. */
  lemma ReplayStep(types: TypeMap, seen: set<NodeId>, order: seq<NodeId>, i: nat)
    requires Writable(types, order) && i < |order|
    requires Writable(types, Fresh(seen, order[..i]))
    ensures Writable(types, Fresh(seen, order[..i + 1]))
    ensures var before, after := Fresh(seen, order[..i]), Fresh(seen, order[..i + 1]);
      if order[i] in seen + Elems(before) then after == before
      else
        && after == before + [order[i]]
        && Elems(after) == Elems(before) + {order[i]}
        && HeaderOf(types, after) == HeaderOf(types, before) + HeaderText(types, types[order[i]])
        && ImplOf(types, after) == ImplOf(types, before) + ImplText(types, types[order[i]])
  {
    var before := Fresh(seen, order[..i]);
    assert order[..i + 1][..i] == order[..i];
    assert (before + [order[i]])[..|before|] == before;
  }

  lemma ReplayStart(types: TypeMap, seen: set<NodeId>, order: seq<NodeId>)
    ensures Fresh(seen, order[..0]) == [] && HeaderOf(types, []) == [] && ImplOf(types, []) == []
  {
  }

  lemma NothingAdded<T>(a: seq<T>, b: seq<T>)
    ensures a + [] == a && [] + b == b
  {
  }

  lemma RunExtends(types: TypeMap, ns: string, roots: seq<DataType>, t: DataType)
    requires AllKnown(types, roots) && Known(types, t)
    ensures AllKnown(types, roots + [t])
    ensures Run(types, roots + [t]) == Run(types, roots) + Writes(types, Run(types, roots), t)
    ensures RunHeader(types, ns, roots + [t]) == RunHeader(types, ns, roots) + CallHeader(types, Run(types, roots), t)
    ensures RunImpl(types, ns, roots + [t]) == RunImpl(types, ns, roots) + CallImpl(types, Run(types, roots), t)
  {
    assert (roots + [t])[..|roots|] == roots;
  }

  lemma Flatten2<T>(base: seq<T>, a: seq<T>, b: seq<T>)
    ensures base + a + b == base + (a + b)
  {
  }

  lemma Flatten3<T>(base: seq<T>, a: seq<T>, b: seq<T>, c: seq<T>)
    ensures base + a + b + c == base + (a + b + c)
  {
  }

  lemma Flatten4<T>(base: seq<T>, a: seq<T>, b: seq<T>, c: seq<T>, d: seq<T>)
    ensures base + a + b + c + d == base + (a + b + c + d)
  {
  }

  lemma FlattenFunction(base: seq<Piece>, head: seq<Piece>, gap: seq<Piece>, body: seq<Piece>)
    ensures base + head + gap + [Open(Brace)] + [Code("\n")] + body + [Close(Brace)] + [Code("\n\n")] ==
      base + (head + gap + Group(Brace, [Code("\n")] + body) + [Code("\n\n")])
  {
  }

  /** As many nested calls as there are structs, plus one, are always enough. */
  lemma RankBelowStructCount(types: TypeMap, t: DataType)
    ensures Rank(types, t.id) < |StructIds(types)| + 1
  {
    LongestBound(types, t.id, |StructIds(types)|);
  }
}
