/** The two output streams over a run of calls. */
module Output {
  import opened Sequences
  import opened TypeModel
  import opened DependencyGraph
  import opened Ordering
  import opened Emission
  import opened Nesting
  import opened Options
  import opened CodeText
  import opened TextNesting

  /** Types that can be written: no lookup made while writing them fails. */
  ghost predicate Writable(types: TypeMap, ids: seq<NodeId>) {
    forall k | 0 <= k < |ids| :: Emittable(types, ids[k]) && FieldsResolve(types, types[ids[k]])
  }

  ghost function HeaderOf(types: TypeMap, ids: seq<NodeId>): seq<Piece>
    requires Writable(types, ids)
  {
    if ids == [] then [] else HeaderOf(types, ids[..|ids| - 1]) + HeaderText(types, types[ids[|ids| - 1]])
  }

  ghost function ImplOf(types: TypeMap, ids: seq<NodeId>): seq<Piece>
    requires Writable(types, ids)
  {
    if ids == [] then [] else ImplOf(types, ids[..|ids| - 1]) + ImplText(types, types[ids[|ids| - 1]])
  }

  /** After a successful ordering every field type of every ordered type is in
      the map: the lookups made while writing cannot fail. */
  lemma OrderedIsWritable(types: TypeMap, t: DataType)
    requires Known(types, t) && Walk(types, t).ok
    ensures Writable(types, Walk(types, t).order)
    ensures forall seen :: Writable(types, Fresh(seen, Walk(types, t).order))
  {
    var order := Walk(types, t).order;
    WalkDefinesBeforeUse(types, t);
    forall k | 0 <= k < |order|
      ensures Emittable(types, order[k]) && FieldsResolve(types, types[order[k]])
    {
      assert Satisfied(types, {} + Elems(order[..k]), types[order[k]]);
    }
    forall seen {
      FreshIsWritable(types, seen, order);
    }
  }

  lemma FreshIsWritable(types: TypeMap, seen: set<NodeId>, s: seq<NodeId>)
    requires Writable(types, s)
    ensures Writable(types, Fresh(seen, s))
  {
    FreshMembers(seen, s);
    var unseen := Fresh(seen, s);
    forall k | 0 <= k < |unseen|
      ensures Emittable(types, unseen[k]) && FieldsResolve(types, types[unseen[k]])
    {
      assert unseen[k] in Elems(unseen);
      var j :| 0 <= j < |s| && s[j] == unseen[k];
    }
  }

  lemma {:induction false} ResolvedMembers(types: TypeMap, fields: seq<Field>)
    requires forall f | f in fields :: f.dataType in types
    ensures UNKNOWN_MEMBER !in Members(types, fields)
  {
    if fields != [] {
      ResolvedMembers(types, fields[..|fields| - 1]);
      var f := fields[|fields| - 1];
      assert "unknown type\n"[0] == 'u';
      assert "std::vector<"[0] == 's' && "> "[0] == '>' && ";\n"[0] == ';' && " "[0] == ' ';
    }
  }

  /** No struct written in any run has a member with the unknown-type text. */
  lemma NoUnknownMember(types: TypeMap, roots: seq<DataType>, id: NodeId)
    requires AllKnown(types, roots) && id in Run(types, roots) && IsStruct(types, id)
    ensures UNKNOWN_MEMBER !in Members(types, types[id].fields)
  {
    hide Run, SearchAll, Wanted, DefinedBeforeUse, Distinct;
    RunIsOneSearch(types, roots);
    assert Satisfied(types, Elems(Run(types, roots)), types[id]);
    ResolvedMembers(types, types[id].fields);
  }

  /** What one call adds to the header and to the implementation. */
  ghost function CallHeader(types: TypeMap, emitted: seq<NodeId>, t: DataType): seq<Piece>
    requires Known(types, t)
  {
    if !Walk(types, t).ok then [] else
      OrderedIsWritable(types, t);
      HeaderIncludes() + HeaderOf(types, Writes(types, emitted, t))
  }

  ghost function CallImpl(types: TypeMap, emitted: seq<NodeId>, t: DataType): seq<Piece>
    requires Known(types, t)
  {
    if !Walk(types, t).ok then [] else
      OrderedIsWritable(types, t);
      ImplIncludes() + ImplOf(types, Writes(types, emitted, t))
  }

  /** The streams after the namespace is opened and the calls for `roots` are made. */
  ghost function RunHeader(types: TypeMap, ns: string, roots: seq<DataType>): seq<Piece>
    requires AllKnown(types, roots)
  {
    if roots == [] then OpenHeaderNamespace(ns) else
      var front := roots[..|roots| - 1];
      RunHeader(types, ns, front) + CallHeader(types, Run(types, front), roots[|roots| - 1])
  }

  ghost function RunImpl(types: TypeMap, ns: string, roots: seq<DataType>): seq<Piece>
    requires AllKnown(types, roots)
  {
    if roots == [] then OpenImplNamespace(ns) else
      var front := roots[..|roots| - 1];
      RunImpl(types, ns, front) + CallImpl(types, Run(types, front), roots[|roots| - 1])
  }

  /** Calls whose ordering fails add nothing to either stream, in any run. */
  lemma {:induction false} FailedCallsWriteNothing(types: TypeMap, ns: string, roots: seq<DataType>)
    requires AllKnown(types, roots)
    ensures AllKnown(types, Good(types, roots))
    ensures RunHeader(types, ns, Good(types, roots)) == RunHeader(types, ns, roots)
    ensures RunImpl(types, ns, Good(types, roots)) == RunImpl(types, ns, roots)
  {
    hide ReachesMissing, Walk, Known, HeaderOf, ImplOf, Writes;
    FailedCallsLeaveNoTrace(types, roots);
    if roots != [] {
      var front, t := roots[..|roots| - 1], roots[|roots| - 1];
      FailedCallsLeaveNoTrace(types, front);
      FailedCallsWriteNothing(types, ns, front);
      OkIffNothingMissing(types, t);
      var good := Good(types, front);
      if ReachesMissing(types, t) {
        assert good + [] == good;
      } else {
        assert (good + [t])[..|good|] == good;
      }
    }
  }

  /** The text of the types in `ids` carries no bracket in a name. */
  ghost predicate PlainIds(types: TypeMap, ids: seq<NodeId>) {
    forall id | id in ids && id in types :: PlainType(types, types[id])
  }

  lemma {:induction false} TypesBalanced(types: TypeMap, ids: seq<NodeId>)
    requires PlainIds(types, ids) && Writable(types, ids)
    ensures Balanced(HeaderOf(types, ids)) && Balanced(ImplOf(types, ids))
  {
    if ids == [] {
      BalancedInline([]);
    } else {
      var front, t := ids[..|ids| - 1], types[ids[|ids| - 1]];
      TypesBalanced(types, front);
      HeaderTextBalanced(types, t);
      ImplTextBalanced(types, t);
      BalancedConcat(HeaderOf(types, front), HeaderText(types, t));
      BalancedConcat(ImplOf(types, front), ImplText(types, t));
    }
  }

  /** Between any two written types, inside a call or between calls, exactly the
      brace of the namespace is open in both streams. */
  lemma DepthOneBetweenTypes(types: TypeMap, ns: string, roots: seq<DataType>, t: DataType, k: nat)
    requires AllKnown(types, roots) && Known(types, t) && Walk(types, t).ok
    requires k <= |Writes(types, Run(types, roots), t)|
    requires Plain(ns) && PlainIds(types, Run(types, roots) + Writes(types, Run(types, roots), t)[..k])
    ensures Writable(types, Writes(types, Run(types, roots), t)[..k])
    ensures InNamespace(RunHeader(types, ns, roots) + HeaderIncludes() +
                        HeaderOf(types, Writes(types, Run(types, roots), t)[..k]))
    ensures InNamespace(RunImpl(types, ns, roots) + ImplIncludes() +
                        ImplOf(types, Writes(types, Run(types, roots), t)[..k]))
  {
    OrderedIsWritable(types, t);
    var ids := Writes(types, Run(types, roots), t)[..k];
    assert PlainIds(types, Run(types, roots)) && PlainIds(types, ids);
    RunStaysInNamespace(types, ns, roots);
    IncludesBalanced();
    TypesBalanced(types, ids);
    StaysInNamespace(RunHeader(types, ns, roots), HeaderIncludes());
    StaysInNamespace(RunHeader(types, ns, roots) + HeaderIncludes(), HeaderOf(types, ids));
    StaysInNamespace(RunImpl(types, ns, roots), ImplIncludes());
    StaysInNamespace(RunImpl(types, ns, roots) + ImplIncludes(), ImplOf(types, ids));
  }

  lemma NamespaceOpens(ns: string)
    requires Plain(ns)
    ensures InNamespace(OpenHeaderNamespace(ns)) && InNamespace(OpenImplNamespace(ns))
  {
    var key := [Code("namespace "), Name(ns), Code(" ")];
    BalancedInline(key);
    ScanPiecesConcat([], key, [Open(Brace)]);
    assert [Open(Brace)][..0] == [] && [] + [Brace] == [Brace];
    BalancedInline([Code("\n")]);
    assert OpenImplNamespace(ns) == key + [Open(Brace)];
    assert OpenHeaderNamespace(ns) == OpenImplNamespace(ns) + [Code("\n")];
    StaysInNamespace(OpenImplNamespace(ns), [Code("\n")]);
  }

  lemma {:induction false} RunStaysInNamespace(types: TypeMap, ns: string, roots: seq<DataType>)
    requires AllKnown(types, roots) && Plain(ns) && PlainIds(types, Run(types, roots))
    ensures InNamespace(RunHeader(types, ns, roots)) && InNamespace(RunImpl(types, ns, roots))
  {
    if roots == [] {
      NamespaceOpens(ns);
    } else {
      var front, t := roots[..|roots| - 1], roots[|roots| - 1];
      assert Run(types, roots) == Run(types, front) + Writes(types, Run(types, front), t);
      RunStaysInNamespace(types, ns, front);
      if Walk(types, t).ok {
        OrderedIsWritable(types, t);
        IncludesBalanced();
        TypesBalanced(types, Writes(types, Run(types, front), t));
        BalancedConcat(HeaderIncludes(), HeaderOf(types, Writes(types, Run(types, front), t)));
        BalancedConcat(ImplIncludes(), ImplOf(types, Writes(types, Run(types, front), t)));
      } else {
        BalancedInline([]);
      }
      StaysInNamespace(RunHeader(types, ns, front), CallHeader(types, Run(types, front), t));
      StaysInNamespace(RunImpl(types, ns, front), CallImpl(types, Run(types, front), t));
    }
  }

  function CloseHeaderNamespace(): seq<Piece> { [Close(Brace), Code("\n")] }
  function CloseImplNamespace(): seq<Piece> { [Close(Brace)] }

  lemma ClosingNests(stream: seq<Piece>)
    requires InNamespace(stream)
    ensures WellNested(Characters(stream + CloseHeaderNamespace()))
    ensures WellNested(Characters(stream + CloseImplNamespace()))
  {
    assert (stream + CloseImplNamespace())[..|stream|] == stream;
    assert ScanPieces([], stream + CloseImplNamespace()) == Some([]);
    var whole := stream + CloseHeaderNamespace();
    assert whole[..|whole| - 1] == stream + CloseImplNamespace();
    assert ScanPieces([], whole) == Some([]);
    ScanPiecesIsScan([], stream + CloseImplNamespace());
    ScanPiecesIsScan([], whole);
  }

  /** The two finished texts are well nested, whatever was generated. */
  lemma FinishedTextIsWellNested(types: TypeMap, ns: string, roots: seq<DataType>)
    requires AllKnown(types, roots) && Plain(ns) && PlainIds(types, Run(types, roots))
    ensures WellNested(Characters(RunHeader(types, ns, roots) + CloseHeaderNamespace()))
    ensures WellNested(Characters(RunImpl(types, ns, roots) + CloseImplNamespace()))
  {
    RunStaysInNamespace(types, ns, roots);
    ClosingNests(RunHeader(types, ns, roots));
    ClosingNests(RunImpl(types, ns, roots));
  }
}
