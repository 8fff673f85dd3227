/** The graph whose edges lead from a struct to the types of its fields: paths,
    reachability, and the rank that bounds every recursion over it. */
module DependencyGraph {
  import opened Sequences
  import opened TypeModel

  /** A path of field edges; every node but the last is a struct of the map. */
  ghost predicate Path(types: TypeMap, p: seq<NodeId>) {
    && |p| > 0
    && forall i | 0 <= i < |p| - 1 :: p[i] in types && Names(types[p[i]], p[i + 1])
  }

  ghost predicate Reaches(types: TypeMap, from: NodeId, to: NodeId) {
    exists p :: Path(types, p) && p[0] == from && p[|p| - 1] == to
  }

  /** A path from `from` on which every node, the last one too, is a struct. */
  ghost predicate StructPath(types: TypeMap, from: NodeId, p: seq<NodeId>) {
    Path(types, p) && p[0] == from && IsStruct(types, p[|p| - 1])
  }

  /** No cycle of structs can be reached from `id`. */
  ghost predicate NoCycleFrom(types: TypeMap, id: NodeId) {
    forall p | StructPath(types, id, p) :: Distinct(p)
  }

  /** The types that cannot be resolved from `t`. */
  ghost predicate ReachesMissing(types: TypeMap, t: DataType) {
    exists id :: Reaches(types, t.id, id) && id !in types
  }

  /** Below `id` there is neither a cycle nor an absent type. */
  ghost predicate Orderable(types: TypeMap, id: NodeId) {
    NoCycleFrom(types, id) && forall x | Reaches(types, id, x) :: x in types
  }

  /** Some field of struct `from` has type `to`, and everything below the fields
      before it is in order: an ordering pass that works through the fields of
      `from` gets as far as `to`. */
  ghost predicate Enters(types: TypeMap, from: NodeId, to: NodeId) {
    && IsStruct(types, from)
    && exists i | 0 <= i < |types[from].fields| ::
         types[from].fields[i].dataType == to && EarlierOrderable(types, types[from], i)
  }

  ghost predicate EarlierOrderable(types: TypeMap, t: DataType, i: int)
    requires t.Struct? && i <= |t.fields|
  {
    forall j | 0 <= j < i :: Orderable(types, t.fields[j].dataType)
  }

  /** A path of structs each of which the pass enters from the one before. */
  ghost predicate EnteredPath(types: TypeMap, from: NodeId, p: seq<NodeId>) {
    && |p| > 0 && p[0] == from && IsStruct(types, p[|p| - 1])
    && forall i | 0 <= i < |p| - 1 :: Enters(types, p[i], p[i + 1])
  }

  /** The pass from `id` enters no cycle of structs. */
  ghost predicate NoEnteredCycle(types: TypeMap, id: NodeId) {
    forall p | EnteredPath(types, id, p) :: Distinct(p)
  }

  ghost function StructIds(types: TypeMap): set<NodeId> {
    set id | id in types && types[id].Struct?
  }

  ghost predicate HasEnteredPath(types: TypeMap, id: NodeId, n: nat) {
    exists p :: EnteredPath(types, id, p) && |p| == n
  }

  ghost function Longest(types: TypeMap, id: NodeId, n: nat): nat {
    if n == 0 || HasEnteredPath(types, id, n) then n else Longest(types, id, n - 1)
  }

  /** The number of structs on the longest entered path from `id`. */
  ghost function Rank(types: TypeMap, id: NodeId): nat {
    Longest(types, id, |StructIds(types)|)
  }

  lemma {:induction false} LongestIsLongest(types: TypeMap, id: NodeId, n: nat, p: seq<NodeId>)
    requires EnteredPath(types, id, p) && |p| <= n
    ensures |p| <= Longest(types, id, n) <= n
    ensures HasEnteredPath(types, id, Longest(types, id, n))
    decreases n
  {
    if !HasEnteredPath(types, id, n) {
      LongestIsLongest(types, id, n - 1, p);
    }
  }

  lemma {:induction false} LongestBound(types: TypeMap, id: NodeId, n: nat)
    ensures Longest(types, id, n) <= n
    ensures !IsStruct(types, id) ==> Longest(types, id, n) == 0
    decreases n
  {
    hide EarlierOrderable;
    if n > 0 {
      if HasEnteredPath(types, id, n) {
        var p :| EnteredPath(types, id, p) && |p| == n;
        assert |p| > 1 ==> Enters(types, p[0], p[0 + 1]);
      } else {
        LongestBound(types, id, n - 1);
      }
    }
  }

  /** Pigeonhole: an entered path without repetition visits at most all structs. */
  lemma EnteredPathLength(types: TypeMap, id: NodeId, p: seq<NodeId>)
    requires NoEnteredCycle(types, id) && EnteredPath(types, id, p)
    ensures |p| <= |StructIds(types)|
  {
    hide EarlierOrderable;
    DistinctCount(p);
    forall x | x in p
      ensures x in StructIds(types)
    {
      var i :| 0 <= i < |p| && p[i] == x;
      if i < |p| - 1 {
        assert Enters(types, p[i], p[i + 1]);
      }
    }
    SubsetCount(Elems(p), StructIds(types));
  }

  lemma PrependEntered(types: TypeMap, from: NodeId, to: NodeId, p: seq<NodeId>)
    requires Enters(types, from, to) && EnteredPath(types, to, p)
    ensures EnteredPath(types, from, [from] + p)
  {
    hide Enters;
    var q := [from] + p;
    assert q[|q| - 1] == p[|p| - 1];
    forall i | 0 <= i < |q| - 1
      ensures Enters(types, q[i], q[i + 1])
    {
      if i > 0 {
        assert Enters(types, p[i - 1], p[i - 1 + 1]);
      }
    }
  }

  /** Entering a field lowers the rank and cannot create a cycle. */
  lemma RankDrops(types: TypeMap, from: NodeId, to: NodeId)
    requires Enters(types, from, to) && NoEnteredCycle(types, from)
    ensures NoEnteredCycle(types, to)
    ensures Rank(types, to) < Rank(types, from) <= |StructIds(types)|
  {
    hide EarlierOrderable;
    var n := |StructIds(types)|;
    assert EnteredPath(types, from, [from]);
    EnteredPathLength(types, from, [from]);
    LongestIsLongest(types, from, n, [from]);
    hide Enters, Longest;
    forall p | EnteredPath(types, to, p)
      ensures Distinct(p) && |p| + 1 <= n
    {
      PrependEntered(types, from, to, p);
      EnteredPathLength(types, from, [from] + p);
      assert p == ([from] + p)[1..];
    }
    hide NoEnteredCycle;
    LongestBound(types, to, n);
    if IsStruct(types, to) {
      assert EnteredPath(types, to, [to]);
      LongestIsLongest(types, to, n, [to]);
      var p :| EnteredPath(types, to, p) && |p| == Rank(types, to);
      PrependEntered(types, from, to, p);
      LongestIsLongest(types, from, n, [from] + p);
    }
  }

  /** The condition under which the generator can be asked for `t`: it is a type
      of the map, and the ordering pass from it enters no cycle. */
  ghost predicate Known(types: TypeMap, t: DataType) {
    Keyed(types) && t.id in types && types[t.id] == t && NoEnteredCycle(types, t.id)
  }

  lemma FieldKnown(types: TypeMap, t: DataType, i: nat)
    requires Known(types, t) && t.Struct? && i < |t.fields| && EarlierOrderable(types, t, i)
    ensures Rank(types, t.fields[i].dataType) < Rank(types, t.id) <= |StructIds(types)|
    ensures var d := t.fields[i].dataType;
      d in types ==> types[d].id == d && Known(types, types[d])
  {
    hide EarlierOrderable, Rank, NoEnteredCycle;
    assert Enters(types, t.id, t.fields[i].dataType);
    RankDrops(types, t.id, t.fields[i].dataType);
  }

  // ----- Paths and their first edge -----

  lemma Prepend(types: TypeMap, from: NodeId, p: seq<NodeId>)
    requires Path(types, p) && from in types && Names(types[from], p[0])
    ensures Path(types, [from] + p)
  {
    var q := [from] + p;
    forall i | 0 <= i < |q| - 1
      ensures q[i] in types && Names(types[q[i]], q[i + 1])
    {
      if i > 0 {
        assert Names(types[p[i - 1]], p[i - 1 + 1]);
      }
    }
  }

  lemma DropFirst(types: TypeMap, p: seq<NodeId>)
    requires Path(types, p) && |p| > 1
    ensures p[0] in types && Names(types[p[0]], p[1]) && Path(types, p[1..])
  {
    assert Names(types[p[0]], p[0 + 1]);
    var q := p[1..];
    forall i | 0 <= i < |q| - 1
      ensures q[i] in types && Names(types[q[i]], q[i + 1])
    {
      assert Names(types[p[i + 1]], p[i + 1 + 1]);
    }
  }

  /** Reachability unfolds at its first edge. */
  lemma ReachesStep(types: TypeMap, t: DataType, to: NodeId)
    requires t.id in types && types[t.id] == t
    ensures Reaches(types, t.id, to) <==>
      t.id == to || (t.Struct? && exists i | 0 <= i < |t.fields| :: Reaches(types, t.fields[i].dataType, to))
  {
    if t.id == to {
      assert Path(types, [to]);
    }
    if Reaches(types, t.id, to) && t.id != to {
      var p :| Path(types, p) && p[0] == t.id && p[|p| - 1] == to;
      DropFirst(types, p);
      assert p[1..][|p| - 2] == to;
      assert Reaches(types, p[1], to);
    }
    if t.Struct? {
      forall i | 0 <= i < |t.fields| && Reaches(types, t.fields[i].dataType, to)
        ensures Reaches(types, t.id, to)
      {
        var q :| Path(types, q) && q[0] == t.fields[i].dataType && q[|q| - 1] == to;
        var p := [t.id] + q;
        Prepend(types, t.id, q);
        assert Path(types, p) && p[|p| - 1] == to;
      }
    }
  }

  /** An id reaches itself, so below an orderable id everything is there. */
  lemma OrderableIsThere(types: TypeMap, id: NodeId)
    requires Orderable(types, id)
    ensures id in types
  {
    assert Path(types, [id]);
    assert Reaches(types, id, id);
  }

  /** A struct that is free of cycles is not reachable from its own fields. */
  lemma NotItsOwnDependency(types: TypeMap, t: DataType, i: nat)
    requires t.id in types && types[t.id] == t && NoCycleFrom(types, t.id) && t.Struct? && i < |t.fields|
    ensures !Reaches(types, t.fields[i].dataType, t.id)
  {
    var d := t.fields[i].dataType;
    if Reaches(types, d, t.id) {
      var q :| Path(types, q) && q[0] == d && q[|q| - 1] == t.id;
      var p := [t.id] + q;
      Prepend(types, t.id, q);
      assert p[|p| - 1] == t.id;
      assert StructPath(types, t.id, p);
    }
  }

  // ----- Orderable types, field by field -----

  lemma CycleFreeFields(types: TypeMap, t: DataType, i: nat)
    requires t.id in types && types[t.id] == t && NoCycleFrom(types, t.id) && t.Struct? && i < |t.fields|
    ensures NoCycleFrom(types, t.fields[i].dataType)
  {
    forall p | StructPath(types, t.fields[i].dataType, p)
      ensures Distinct(p)
    {
      var q := [t.id] + p;
      assert Names(t, p[0]);
      Prepend(types, t.id, p);
      hide Names, Path;
      assert q[|q| - 1] == p[|p| - 1];
      assert StructPath(types, t.id, q);
      assert p == q[1..];
    }
  }

  /** A cycle through a struct is a cycle below one of its fields. */
  lemma CycleFreeStruct(types: TypeMap, t: DataType)
    requires t.id in types && types[t.id] == t
    requires t.Struct? ==> forall i | 0 <= i < |t.fields| :: NoCycleFrom(types, t.fields[i].dataType)
    ensures NoCycleFrom(types, t.id)
  {
    forall p | StructPath(types, t.id, p)
      ensures Distinct(p)
    {
      if |p| > 1 {
        DropFirst(types, p);
        var q := p[1..];
        assert StructPath(types, q[0], q);
        forall j | 0 <= j < |q|
          ensures q[j] != t.id
        {
          if q[j] == t.id {
            BackToStart(types, t, q, j);
          }
        }
        assert p == [t.id] + q;
      }
    }
  }

  lemma BackToStart(types: TypeMap, t: DataType, q: seq<NodeId>, j: nat)
    requires t.id in types && types[t.id] == t && j < |q| && q[j] == t.id
    requires Names(t, q[0]) && StructPath(types, q[0], q)
    ensures !NoCycleFrom(types, q[0])
  {
    var r := q[..j + 1] + [q[0]];
    forall i | 0 <= i < |r| - 1
      ensures r[i] in types && Names(types[r[i]], r[i + 1])
    {
      if i < j {
        assert Names(types[q[i]], q[i + 1]);
      }
    }
    assert |q| > 1 ==> Names(types[q[0]], q[0 + 1]);
    assert StructPath(types, q[0], r);
    assert r[0] == r[j + 1];
  }

  /** A type is orderable exactly when all types its fields name are. */
  lemma OrderableStep(types: TypeMap, t: DataType)
    requires t.id in types && types[t.id] == t
    ensures Orderable(types, t.id) <==> (t.Struct? ==> EarlierOrderable(types, t, |t.fields|))
  {
    hide NoCycleFrom, Reaches;
    forall id
      ensures Reaches(types, t.id, id) <==>
        t.id == id || (t.Struct? && exists i | 0 <= i < |t.fields| :: Reaches(types, t.fields[i].dataType, id))
    {
      ReachesStep(types, t, id);
    }
    if t.Struct? && NoCycleFrom(types, t.id) {
      forall i | 0 <= i < |t.fields| {
        CycleFreeFields(types, t, i);
      }
    }
    if t.Struct? ==> forall i | 0 <= i < |t.fields| :: NoCycleFrom(types, t.fields[i].dataType) {
      CycleFreeStruct(types, t);
    }
  }

  /** Where there is no cycle at all none is entered. */
  lemma CycleFreeIsKnown(types: TypeMap, t: DataType)
    requires Keyed(types) && t.id in types && types[t.id] == t && NoCycleFrom(types, t.id)
    ensures Known(types, t)
  {
    forall p | EnteredPath(types, t.id, p)
      ensures Distinct(p)
    {
      forall i | 0 <= i < |p| - 1
        ensures p[i] in types && Names(types[p[i]], p[i + 1])
      {
        assert Enters(types, p[i], p[i + 1]);
      }
      assert StructPath(types, t.id, p);
    }
  }
}
