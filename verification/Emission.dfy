/** The emission pass: the order is replayed through the set of types already
    written, over any number of calls. The result is compared with a
    depth-first search that keeps a visited set. */
module Emission {
  import opened Integers
  import opened Sequences
  import opened TypeModel
  import opened DependencyGraph
  import opened Ordering

  /** The entries of `s` that are not in `seen`, each at its first occurrence. */
  ghost function Fresh(seen: set<NodeId>, s: seq<NodeId>): seq<NodeId> {
    if s == [] then [] else
      var before := Fresh(seen, s[..|s| - 1]);
      var last := s[|s| - 1];
      if last in seen || last in before then before else before + [last]
  }

  lemma {:induction false} FreshMembers(seen: set<NodeId>, s: seq<NodeId>)
    ensures Elems(Fresh(seen, s)) == Elems(s) - seen
    ensures Distinct(Fresh(seen, s))
  {
    if s != [] {
      FreshMembers(seen, s[..|s| - 1]);
      var before := Fresh(seen, s[..|s| - 1]);
      assert Elems(s) == Elems(s[..|s| - 1]) + {s[|s| - 1]};
      assert Elems(before + [s[|s| - 1]]) == Elems(before) + {s[|s| - 1]};
      assert forall i | 0 <= i < |before| :: before[i] in before;
    }
  }

  lemma {:induction false} NothingFresh(seen: set<NodeId>, s: seq<NodeId>)
    requires forall id | id in s :: id in seen
    ensures Fresh(seen, s) == []
  {
    if s != [] {
      NothingFresh(seen, s[..|s| - 1]);
    }
  }

  lemma {:induction false} FreshConcat(seen: set<NodeId>, a: seq<NodeId>, b: seq<NodeId>)
    ensures Fresh(seen, a + b) == Fresh(seen, a) + Fresh(seen + Elems(a), b)
  {
    if b == [] {
      assert a + b == a;
    } else {
      var front := b[..|b| - 1];
      FreshConcat(seen, a, front);
      assert (a + b)[..|a + b| - 1] == a + front;
      FreshMembers(seen, a);
      assert forall x :: x in a <==> x in Elems(a);
      assert forall x :: x in Fresh(seen, a) <==> x in Elems(Fresh(seen, a));
    }
  }

  /** Dropping repeats and already written types keeps definitions before uses. */
  lemma {:induction false} FreshKeepsDefinedBeforeUse(types: TypeMap, seen: set<NodeId>, s: seq<NodeId>)
    requires DefinedBeforeUse(types, {}, s)
    ensures DefinedBeforeUse(types, seen, Fresh(seen, s))
  {
    if s != [] {
      var front, last := s[..|s| - 1], s[|s| - 1];
      forall k | 0 <= k < |front|
        ensures Emittable(types, front[k]) && Satisfied(types, {} + Elems(front[..k]), types[front[k]])
      {
        assert front[..k] == s[..k] && front[k] == s[k];
      }
      FreshKeepsDefinedBeforeUse(types, seen, front);
      FreshMembers(seen, front);
      assert Satisfied(types, {} + Elems(s[..|s| - 1]), types[last]);
      var before := Fresh(seen, front);
      assert forall x | x in front :: x in seen + Elems(before);
      assert Elems([last][..0]) == {};
      assert seen + Elems(before) + Elems([last][..0]) == seen + Elems(before);
      assert Satisfied(types, seen + Elems(before), types[last]);
      DefinedConcat(types, seen, before, [last]);
    }
  }

  // ----- Dependency-closed sets -----

  /** Everything that a written type needs is written. */
  ghost predicate Closed(types: TypeMap, seen: set<NodeId>) {
    forall id | id in seen :: Emittable(types, id) && Satisfied(types, seen, types[id])
  }

  lemma DefinedIsClosed(types: TypeMap, seen: set<NodeId>, s: seq<NodeId>)
    requires Closed(types, seen) && DefinedBeforeUse(types, seen, s)
    ensures Closed(types, seen + Elems(s))
  {
    forall id | id in seen + Elems(s)
      ensures Emittable(types, id) && Satisfied(types, seen + Elems(s), types[id])
    {
      if id in s {
        var k :| 0 <= k < |s| && s[k] == id;
        assert Satisfied(types, seen + Elems(s[..k]), types[s[k]]);
      } else {
        assert Satisfied(types, seen, types[id]);
      }
    }
  }

  lemma {:induction false} ClosedUnderPaths(types: TypeMap, seen: set<NodeId>, p: seq<NodeId>)
    requires Closed(types, seen) && Path(types, p) && p[0] in seen
    ensures p[|p| - 1] in types && (types[p[|p| - 1]].Base? || p[|p| - 1] in seen)
    decreases |p|
  {
    if |p| > 1 {
      assert Names(types[p[0]], p[0 + 1]);
      assert Satisfied(types, seen, types[p[0]]);
      var q := p[1..];
      forall i | 0 <= i < |q| - 1
        ensures q[i] in types && Names(types[q[i]], q[i + 1])
      {
        assert Names(types[p[i + 1]], p[i + 1 + 1]);
      }
      if types[q[0]].Base? {
        assert |q| > 1 ==> Names(types[q[0]], q[0 + 1]);
      } else {
        ClosedUnderPaths(types, seen, q);
      }
    }
  }

  // ----- The efficient search -----

  /** Depth-first search in post-order that never enters a type of `seen` and
      adds what it visits to `seen` as it goes. */
  ghost function Search(types: TypeMap, seen: set<NodeId>, t: DataType): seq<NodeId>
    requires Known(types, t) && Orderable(types, t.id)
    decreases Rank(types, t.id), if t.Struct? then |t.fields| + 1 else 0
  {
    OrderableStep(types, t);
    if t.Base? || t.id in seen then []
    else if t.Enum? then [t.id]
    else SearchFields(types, seen, t, |t.fields|) + [t.id]
  }

  ghost function SearchFields(types: TypeMap, seen: set<NodeId>, t: DataType, n: nat): seq<NodeId>
    requires Known(types, t) && t.Struct? && n <= |t.fields| && EarlierOrderable(types, t, n)
    decreases Rank(types, t.id), n
  {
    if n == 0 then [] else
      FieldKnown(types, t, n - 1);
      var before := SearchFields(types, seen, t, n - 1);
      var d := t.fields[n - 1].dataType;
      OrderableIsThere(types, d);
      before + Search(types, seen + Elems(before), types[d])
  }

  lemma FreshInTwo(seen: set<NodeId>, a: seq<NodeId>, b: seq<NodeId>)
    ensures seen + Elems(Fresh(seen, a)) == seen + Elems(a)
    ensures Fresh(seen, a + b) == Fresh(seen, a) + Fresh(seen + Elems(a), b)
    ensures seen + Elems(a) + Elems(b) == seen + Elems(a + b)
  {
    FreshMembers(seen, a);
    FreshConcat(seen, a, b);
    ElemsConcat(a, b);
  }

  lemma NothingYet(types: TypeMap, seen: set<NodeId>, t: DataType)
    requires Known(types, t) && t.Struct?
    ensures WalkFields(types, t, 0).order == [] && SearchFields(types, seen, t, 0) == []
    ensures Fresh(seen, []) == [] && seen + Elems([]) == seen
  {
  }

  lemma SearchOneMore(types: TypeMap, seen: set<NodeId>, t: DataType, n: nat)
    requires Known(types, t) && t.Struct? && n < |t.fields| && EarlierOrderable(types, t, n + 1)
    requires t.fields[n].dataType in types && Known(types, types[t.fields[n].dataType])
    requires Orderable(types, types[t.fields[n].dataType].id)
    ensures EarlierOrderable(types, t, n)
    ensures var found := SearchFields(types, seen, t, n);
      SearchFields(types, seen, t, n + 1) == found + Search(types, seen + Elems(found), types[t.fields[n].dataType])
  {
    hide Orderable, Rank, NoEnteredCycle, Search, Elems;
  }

  lemma {:induction false} FieldsRefineSearch(types: TypeMap, seen: set<NodeId>, t: DataType, n: nat)
    requires Known(types, t) && t.Struct? && n <= |t.fields|
    requires WalkFields(types, t, n).ok && Closed(types, seen)
    ensures Fresh(seen, WalkFields(types, t, n).order) == SearchFields(types, seen, t, n)
    ensures Closed(types, seen + Elems(WalkFields(types, t, n).order))
    decreases Rank(types, t.id), n
  {
    hide Orderable, EarlierOrderable, Rank, NoEnteredCycle, Closed, Fresh, Elems;
    hide Walk, WalkFields, Search, SearchFields;
    NothingYet(types, seen, t);
    if n > 0 {
      var d := WalkOneMore(types, t, n - 1);
      var before, below := WalkFields(types, t, n - 1).order, Walk(types, d).order;
      SearchOneMore(types, seen, t, n - 1);
      FieldsRefineSearch(types, seen, t, n - 1);
      WalkRefinesSearch(types, seen + Elems(before), d);
      FreshInTwo(seen, before, below);
    }
  }

  /** Replaying the repetitive order through the set of written types gives
      exactly what the search with a visited set produces. */
  lemma {:induction false} WalkRefinesSearch(types: TypeMap, seen: set<NodeId>, t: DataType)
    requires Known(types, t) && Walk(types, t).ok && Closed(types, seen)
    ensures Fresh(seen, Walk(types, t).order) == Search(types, seen, t)
    ensures Closed(types, seen + Elems(Walk(types, t).order))
    decreases Rank(types, t.id), if t.Struct? then |t.fields| + 1 else 0
  {
    hide EarlierOrderable, Rank, NoEnteredCycle;
    OrderableStep(types, t);
    var order := Walk(types, t).order;
    WalkDefinesBeforeUse(types, t);
    DefinedWeaken(types, {}, seen, order);
    DefinedIsClosed(types, seen, order);
    if t.id in seen {
      forall id | id in order
        ensures id in seen
      {
        ListsExactlyReachable(types, t, id);
        var p :| Path(types, p) && p[0] == t.id && p[|p| - 1] == id;
        ClosedUnderPaths(types, seen, p);
      }
      NothingFresh(seen, order);
    } else if t.Struct? {
      var before := WalkFields(types, t, |t.fields|).order;
      FieldsRefineSearch(types, seen, t, |t.fields|);
      FieldsListed(types, t, |t.fields|, t.id);
      forall i | 0 <= i < |t.fields|
        ensures !Reaches(types, t.fields[i].dataType, t.id)
      {
        NotItsOwnDependency(types, t, i);
      }
      FreshMembers(seen, before);
      assert t.id !in Elems(Fresh(seen, before));
      assert order[..|order| - 1] == before;
    }
  }

  // ----- Runs -----

  ghost predicate AllKnown(types: TypeMap, roots: seq<DataType>) {
    forall r | r in roots :: Known(types, r)
  }

  /** What one call for `t` writes when `emitted` has been written before. */
  ghost function Writes(types: TypeMap, emitted: seq<NodeId>, t: DataType): seq<NodeId>
    requires Known(types, t)
  {
    if Walk(types, t).ok then Fresh(Elems(emitted), Walk(types, t).order) else []
  }

  /** Everything written by the calls for `roots`, in order. */
  ghost function Run(types: TypeMap, roots: seq<DataType>): seq<NodeId>
    requires AllKnown(types, roots)
  {
    if roots == [] then [] else
      var before := Run(types, roots[..|roots| - 1]);
      before + Writes(types, before, roots[|roots| - 1])
  }

  /** The same calls made by one search whose visited set lives across calls. */
  ghost function SearchAll(types: TypeMap, roots: seq<DataType>): seq<NodeId>
    requires AllKnown(types, roots)
  {
    if roots == [] then [] else
      var before := SearchAll(types, roots[..|roots| - 1]);
      var t := roots[|roots| - 1];
      OkIffNothingMissing(types, t);
      if ReachesMissing(types, t) then before else before + Search(types, Elems(before), t)
  }

  /** `id` is a struct or enum below a root whose ordering succeeds. */
  ghost predicate Wanted(types: TypeMap, roots: seq<DataType>, id: NodeId) {
    && Emittable(types, id)
    && exists r | r in roots :: Reaches(types, r.id, id) && !ReachesMissing(types, r)
  }

  /** What one call keeps: no type twice, definitions before uses, closure. */
  ghost predicate Sound(types: TypeMap, emitted: seq<NodeId>) {
    Distinct(emitted) && DefinedBeforeUse(types, {}, emitted) && Closed(types, Elems(emitted))
  }

  lemma WritesKeepsSound(types: TypeMap, emitted: seq<NodeId>, t: DataType)
    requires Known(types, t) && Sound(types, emitted)
    ensures Sound(types, emitted + Writes(types, emitted, t))
    ensures ReachesMissing(types, t) ==> Writes(types, emitted, t) == []
    ensures !ReachesMissing(types, t) ==>
      Orderable(types, t.id) && Writes(types, emitted, t) == Search(types, Elems(emitted), t)
  {
    hide Orderable, Rank, NoEnteredCycle;
    OkIffNothingMissing(types, t);
    var more := Writes(types, emitted, t);
    if Walk(types, t).ok {
      var seen, order := Elems(emitted), Walk(types, t).order;
      WalkRefinesSearch(types, seen, t);
      WalkDefinesBeforeUse(types, t);
      FreshKeepsDefinedBeforeUse(types, seen, order);
      FreshMembers(seen, order);
      AppendKeepsSound(types, emitted, more);
    } else {
      assert emitted + more == emitted;
    }
  }

  lemma AppendKeepsSound(types: TypeMap, emitted: seq<NodeId>, more: seq<NodeId>)
    requires Sound(types, emitted) && Distinct(more) && Elems(more) !! Elems(emitted)
    requires DefinedBeforeUse(types, Elems(emitted), more)
    ensures Sound(types, emitted + more)
  {
    var seen := Elems(emitted);
    assert {} + seen == seen;
    DefinedConcat(types, {}, emitted, more);
    DefinedIsClosed(types, seen, more);
    assert Elems(emitted + more) == seen + Elems(more);
    assert forall i | 0 <= i < |emitted| :: emitted[i] in seen;
    assert forall i | 0 <= i < |more| :: more[i] in Elems(more);
    DistinctConcat(emitted, more);
  }

  lemma WritesMembers(types: TypeMap, emitted: seq<NodeId>, t: DataType, id: NodeId)
    requires Known(types, t)
    ensures id in emitted + Writes(types, emitted, t) <==>
      id in emitted || (Emittable(types, id) && Reaches(types, t.id, id) && !ReachesMissing(types, t))
  {
    hide Orderable, Rank, NoEnteredCycle;
    OkIffNothingMissing(types, t);
    if Walk(types, t).ok {
      ListsExactlyReachable(types, t, id);
      FreshMembers(Elems(emitted), Walk(types, t).order);
      assert id in Writes(types, emitted, t) <==> id in Elems(Writes(types, emitted, t));
    }
  }

  /** Over any run: each type is written at most once and after what it needs,
      the written set is dependency-closed, it is exactly the union of what the
      good roots reach, and the whole output order is that of one search with a
      visited set. */
  lemma {:induction false} RunIsOneSearch(types: TypeMap, roots: seq<DataType>)
    requires AllKnown(types, roots)
    ensures Sound(types, Run(types, roots))
    ensures Run(types, roots) == SearchAll(types, roots)
    ensures forall id :: id in Run(types, roots) <==> Wanted(types, roots, id)
  {
    hide Orderable, Rank, NoEnteredCycle, Reaches, Search, Walk, Fresh;
    if roots != [] {
      var front, t := roots[..|roots| - 1], roots[|roots| - 1];
      assert Known(types, t);
      RunIsOneSearch(types, front);
      WritesKeepsSound(types, Run(types, front), t);
      forall id
        ensures id in Run(types, roots) <==> Wanted(types, roots, id)
      {
        WritesMembers(types, Run(types, front), t, id);
      }
      assert forall r :: r in roots <==> r in front || r == t;
    }
  }

  /** The set written depends only on which roots were asked for, not on the
      order or the number of the calls. */
  lemma WrittenSetIgnoresCallOrder(types: TypeMap, a: seq<DataType>, b: seq<DataType>)
    requires AllKnown(types, a) && AllKnown(types, b) && Elems(a) == Elems(b)
    ensures Elems(Run(types, a)) == Elems(Run(types, b))
  {
    RunIsOneSearch(types, a);
    RunIsOneSearch(types, b);
    forall id
      ensures Wanted(types, a, id) <==> Wanted(types, b, id)
    {
      assert forall r :: r in a <==> r in Elems(a);
      assert forall r :: r in b <==> r in Elems(b);
    }
  }

  /** The roots whose ordering succeeds. */
  ghost function Good(types: TypeMap, roots: seq<DataType>): seq<DataType> {
    if roots == [] then [] else
      var t := roots[|roots| - 1];
      Good(types, roots[..|roots| - 1]) + (if ReachesMissing(types, t) then [] else [t])
  }

  /** Calls whose ordering fails leave no trace in any run. */
  lemma {:induction false} FailedCallsLeaveNoTrace(types: TypeMap, roots: seq<DataType>)
    requires AllKnown(types, roots)
    ensures AllKnown(types, Good(types, roots))
    ensures Run(types, Good(types, roots)) == Run(types, roots)
  {
    if roots != [] {
      var front, t := roots[..|roots| - 1], roots[|roots| - 1];
      FailedCallsLeaveNoTrace(types, front);
      OkIffNothingMissing(types, t);
      var good := Good(types, front);
      if !ReachesMissing(types, t) {
        assert (good + [t])[..|good|] == good;
      } else {
        assert good + [] == good;
      }
    }
  }

  /** For every n there is a type for which 2^n - 1 entries are ordered and n types
      written. */
  lemma ChainWritesEachOnce(n: nat) returns (types: TypeMap, t: DataType)
    requires n > 0
    ensures Known(types, t) && Walk(types, t).ok
    ensures |Walk(types, t).order| == Pow2(n) - 1 && |Writes(types, [], t)| == n
  {
    var ids;
    types, ids := ChainExists(n);
    t := types[ids[0]];
    ChainOrderIsExponential(types, ids, 0);
    var order := Walk(types, t).order;
    FreshMembers({}, order);
    assert ids[0..] == ids;
    assert Elems<NodeId>([]) == {};
    DistinctCount(Fresh({}, order));
    DistinctCount(ids);
  }

  lemma {:induction false} FreshOfDistinct(s: seq<NodeId>)
    requires Distinct(s)
    ensures Fresh({}, s) == s
  {
    if s != [] {
      FreshOfDistinct(s[..|s| - 1]);
      assert s == s[..|s| - 1] + [s[|s| - 1]];
    }
  }

  /** A first call writes its order as it is exactly when no struct or enum is
      reached along two different field paths. */
  lemma OrderIsWrittenIff(types: TypeMap, t: DataType)
    requires Known(types, t) && Walk(types, t).ok
    ensures Writes(types, [], t) == Walk(types, t).order <==> OnePathEach(types, t)
    ensures |Writes(types, [], t)| == |Walk(types, t).order| <==> OnePathEach(types, t)
  {
    hide OnePathEach;
    var order := Walk(types, t).order;
    OrderIsDistinctIff(types, t);
    FreshMembers({}, order);
    assert Elems<NodeId>([]) == {};
    if Distinct(order) {
      FreshOfDistinct(order);
    }
    if |Fresh({}, order)| == |order| {
      DistinctCount(Fresh({}, order));
      CountedIsDistinct(order);
    }
  }

  lemma {:induction false} CountedIsDistinct(s: seq<NodeId>)
    requires |Elems(s)| == |s|
    ensures Distinct(s)
  {
    if s != [] {
      var front, last := s[..|s| - 1], s[|s| - 1];
      assert s == front + [last];
      ElemsConcat(front, [last]);
      assert Elems([last]) == {last};
      ElemsCount(front);
      CountedIsDistinct(front);
      assert last !in Elems(front);
    }
  }

  lemma {:induction false} ElemsCount(s: seq<NodeId>)
    ensures |Elems(s)| <= |s|
  {
    if s != [] {
      ElemsCount(s[..|s| - 1]);
      assert Elems(s) == Elems(s[..|s| - 1]) + {s[|s| - 1]};
    }
  }
}
