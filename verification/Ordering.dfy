/** The ordering pass: a post-order walk along field types that keeps no record
    of what it has visited, so a type reached twice is listed twice. */
module Ordering {
  import opened Integers
  import opened Sequences
  import opened TypeModel
  import opened DependencyGraph
  import opened Options

  /** The walk's verdict and the ids it appended, the partial list on failure too. */
  datatype Walked = Walked(ok: bool, order: seq<NodeId>)

  ghost function Walk(types: TypeMap, t: DataType): (w: Walked)
    requires Known(types, t)
    ensures w.ok <==> Orderable(types, t.id)
    decreases Rank(types, t.id), if t.Struct? then |t.fields| + 1 else 0
  {
    hide Orderable, EarlierOrderable, Rank, NoEnteredCycle;
    OrderableStep(types, t);
    match t
    case Base(_, _) => Walked(true, [])
    case Enum(_, id, _) => Walked(true, [id])
    case Struct(_, id, fields) =>
      var w := WalkFields(types, t, |fields|);
      if w.ok then Walked(true, w.order + [id]) else w
  }

  /** The walk over the first `n` fields of `t`; it stops at the first failure. */
  ghost function WalkFields(types: TypeMap, t: DataType, n: nat): (w: Walked)
    requires Known(types, t) && t.Struct? && n <= |t.fields|
    ensures w.ok <==> EarlierOrderable(types, t, n)
    decreases Rank(types, t.id), n
  {
    hide Orderable, Rank, NoEnteredCycle;
    if n == 0 then Walked(true, []) else
      var before := WalkFields(types, t, n - 1);
      var d := t.fields[n - 1].dataType;
      if !before.ok then before
      else if d !in types then
        NothingBelowMissing(types, d);
        Walked(false, before.order)
      else
        FieldKnown(types, t, n - 1);
        var w := Walk(types, types[d]);
        Walked(w.ok, before.order + w.order)
  }

  /** A successful walk over one more field. */
  lemma WalkOneMore(types: TypeMap, t: DataType, n: nat) returns (d: DataType)
    requires Known(types, t) && t.Struct? && n < |t.fields| && WalkFields(types, t, n + 1).ok
    ensures t.fields[n].dataType in types && d == types[t.fields[n].dataType] && Known(types, d)
    ensures Rank(types, d.id) < Rank(types, t.id)
    ensures WalkFields(types, t, n).ok && Walk(types, d).ok
    ensures WalkFields(types, t, n + 1).order == WalkFields(types, t, n).order + Walk(types, d).order
  {
    hide Orderable, EarlierOrderable, Rank, NoEnteredCycle, Walk;
    assert WalkFields(types, t, n).ok;
    FieldKnown(types, t, n);
    d := types[t.fields[n].dataType];
  }

  lemma NothingBelowMissing(types: TypeMap, id: NodeId)
    requires id !in types
    ensures !Orderable(types, id)
  {
    if Orderable(types, id) {
      OrderableIsThere(types, id);
    }
  }

  // ----- When the walk fails -----

  lemma {:induction false} NothingMissingIsOrderable(types: TypeMap, t: DataType, n: nat)
    requires Known(types, t) && !ReachesMissing(types, t)
    requires if t.Struct? then n <= |t.fields| + 1 else n == 0
    ensures if t.Struct? && n <= |t.fields| then EarlierOrderable(types, t, n) else Orderable(types, t.id)
    decreases Rank(types, t.id), n
  {
    hide Orderable, Rank, NoEnteredCycle, Reaches;
    OrderableStep(types, t);
    if t.Struct? && n > 0 {
      NothingMissingIsOrderable(types, t, n - 1);
      if n <= |t.fields| {
        var d := t.fields[n - 1].dataType;
        FieldKnown(types, t, n - 1);
        FieldMissesNothing(types, t, n - 1);
        var below := types[d];
        NothingMissingIsOrderable(types, below, if below.Struct? then |below.fields| + 1 else 0);
      }
    }
  }

  lemma FieldMissesNothing(types: TypeMap, t: DataType, i: nat)
    requires Keyed(types) && t.id in types && types[t.id] == t && t.Struct? && i < |t.fields|
    requires !ReachesMissing(types, t)
    ensures t.fields[i].dataType in types && !ReachesMissing(types, types[t.fields[i].dataType])
  {
    var d := t.fields[i].dataType;
    assert Path(types, [d]);
    assert Reaches(types, d, d);
    forall id | Reaches(types, d, id)
      ensures id in types
    {
      ReachesStep(types, t, id);
    }
  }

  /** The walk fails exactly when some struct it can reach has a field whose type
      is absent from the map. */
  lemma OkIffNothingMissing(types: TypeMap, t: DataType)
    requires Known(types, t)
    ensures Walk(types, t).ok <==> !ReachesMissing(types, t)
  {
    if !ReachesMissing(types, t) {
      NothingMissingIsOrderable(types, t, if t.Struct? then |t.fields| + 1 else 0);
    }
  }

  // ----- What is listed -----

  lemma {:induction false} FieldsListed(types: TypeMap, t: DataType, n: nat, id: NodeId)
    requires Known(types, t) && t.Struct? && n <= |t.fields| && WalkFields(types, t, n).ok
    ensures id in WalkFields(types, t, n).order <==>
      exists i | 0 <= i < n :: Reaches(types, t.fields[i].dataType, id) && Emittable(types, id)
    decreases Rank(types, t.id), n
  {
    hide Orderable, EarlierOrderable, Rank, NoEnteredCycle, Reaches, Emittable;
    if n > 0 {
      var d := WalkOneMore(types, t, n - 1);
      FieldsListed(types, t, n - 1, id);
      ListsExactlyReachable(types, d, id);
    }
  }

  /** A successful walk lists exactly the structs and enums reachable from its root. */
  lemma {:induction false} ListsExactlyReachable(types: TypeMap, t: DataType, id: NodeId)
    requires Known(types, t) && Walk(types, t).ok
    ensures id in Walk(types, t).order <==> Reaches(types, t.id, id) && Emittable(types, id)
    decreases Rank(types, t.id), if t.Struct? then |t.fields| + 1 else 0
  {
    hide Orderable, Rank, NoEnteredCycle;
    ReachesStep(types, t, id);
    if t.Struct? {
      FieldsListed(types, t, |t.fields|, id);
    }
  }

  // ----- Define before use -----

  /** Every struct or enum named by a field of `t` is in `known`, and no field type is absent. */
  ghost predicate Satisfied(types: TypeMap, known: set<NodeId>, t: DataType) {
    t.Struct? ==> forall i | 0 <= i < |t.fields| ::
      t.fields[i].dataType in types && (types[t.fields[i].dataType].Base? || t.fields[i].dataType in known)
  }

  /** `s` lists emittable types, each after everything its fields name, where
      the types in `known` count as listed before. */
  ghost predicate DefinedBeforeUse(types: TypeMap, known: set<NodeId>, s: seq<NodeId>) {
    forall k | 0 <= k < |s| :: Emittable(types, s[k]) && Satisfied(types, known + Elems(s[..k]), types[s[k]])
  }

  lemma DefinedConcat(types: TypeMap, known: set<NodeId>, a: seq<NodeId>, b: seq<NodeId>)
    requires DefinedBeforeUse(types, known, a) && DefinedBeforeUse(types, known + Elems(a), b)
    ensures DefinedBeforeUse(types, known, a + b)
  {
    forall k | 0 <= k < |a + b|
      ensures Emittable(types, (a + b)[k]) && Satisfied(types, known + Elems((a + b)[..k]), types[(a + b)[k]])
    {
      if k < |a| {
        assert (a + b)[..k] == a[..k];
      } else {
        assert (a + b)[..k] == a + b[..k - |a|];
        assert known + Elems(a) + Elems(b[..k - |a|]) == known + Elems((a + b)[..k]);
      }
    }
  }

  lemma DefinedWeaken(types: TypeMap, known: set<NodeId>, more: set<NodeId>, s: seq<NodeId>)
    requires DefinedBeforeUse(types, known, s) && known <= more
    ensures DefinedBeforeUse(types, more, s)
  {
    forall k | 0 <= k < |s|
      ensures Satisfied(types, more + Elems(s[..k]), types[s[k]])
    {
      assert Satisfied(types, known + Elems(s[..k]), types[s[k]]);
    }
  }

  lemma {:induction false} FieldsDefineBeforeUse(types: TypeMap, t: DataType, n: nat)
    requires Known(types, t) && t.Struct? && n <= |t.fields| && WalkFields(types, t, n).ok
    ensures DefinedBeforeUse(types, {}, WalkFields(types, t, n).order)
    decreases Rank(types, t.id), n
  {
    hide Orderable, EarlierOrderable, Rank, NoEnteredCycle;
    if n > 0 {
      var d := WalkOneMore(types, t, n - 1);
      FieldsDefineBeforeUse(types, t, n - 1);
      var before := WalkFields(types, t, n - 1).order;
      WalkDefinesBeforeUse(types, d);
      DefinedWeaken(types, {}, {} + Elems(before), Walk(types, d).order);
      DefinedConcat(types, {}, before, Walk(types, d).order);
    }
  }

  /** The order lists every type after the types its fields name. */
  lemma {:induction false} WalkDefinesBeforeUse(types: TypeMap, t: DataType)
    requires Known(types, t) && Walk(types, t).ok
    ensures DefinedBeforeUse(types, {}, Walk(types, t).order)
    decreases Rank(types, t.id), if t.Struct? then |t.fields| + 1 else 0
  {
    hide Orderable, Rank, NoEnteredCycle;
    if t.Struct? {
      var before := WalkFields(types, t, |t.fields|).order;
      FieldsDefineBeforeUse(types, t, |t.fields|);
      forall i | 0 <= i < |t.fields|
        ensures t.fields[i].dataType in types
        ensures types[t.fields[i].dataType].Base? || t.fields[i].dataType in before
      {
        var d := t.fields[i].dataType;
        OrderableIsThere(types, d);
        FieldsListed(types, t, |t.fields|, d);
        assert Path(types, [d]);
        assert Reaches(types, d, d);
      }
      assert Satisfied(types, Elems(before), t);
      var last := [t.id];
      assert {} + Elems(before) + Elems(last[..0]) == Elems(before);
      DefinedConcat(types, {}, before, last);
    }
  }

  // ----- How long the order is -----

  /** The type that the field path `p`, a list of field positions, leads to. */
  ghost function Follow(types: TypeMap, t: DataType, p: seq<nat>): Option<DataType>
    decreases |p|
  {
    if p == [] then Some(t)
    else if t.Struct? && p[0] < |t.fields| && t.fields[p[0]].dataType in types then
      Follow(types, types[t.fields[p[0]].dataType], p[1..])
    else None
  }

  ghost predicate EndsInStructOrEnum(types: TypeMap, t: DataType, p: seq<nat>) {
    Follow(types, t, p).Some? && !Follow(types, t, p).value.Base?
  }

  ghost function Under(i: nat, ps: seq<seq<nat>>): seq<seq<nat>> {
    seq(|ps|, k requires 0 <= k < |ps| => [i] + ps[k])
  }

  /** All field paths from `t` that end in a struct or enum, in walk order. */
  ghost function FieldPaths(types: TypeMap, t: DataType): seq<seq<nat>>
    requires Known(types, t) && Orderable(types, t.id)
    decreases Rank(types, t.id), if t.Struct? then |t.fields| + 1 else 0
  {
    OrderableStep(types, t);
    match t
    case Base(_, _) => []
    case Enum(_, _, _) => [[]]
    case Struct(_, _, fields) => FieldPathsOf(types, t, |fields|) + [[]]
  }

  ghost function FieldPathsOf(types: TypeMap, t: DataType, n: nat): seq<seq<nat>>
    requires Known(types, t) && t.Struct? && n <= |t.fields| && EarlierOrderable(types, t, n)
    decreases Rank(types, t.id), n
  {
    if n == 0 then [] else
      FieldKnown(types, t, n - 1);
      var d := t.fields[n - 1].dataType;
      OrderableIsThere(types, d);
      FieldPathsOf(types, t, n - 1) + Under(n - 1, FieldPaths(types, types[d]))
  }

  /** `ps` lists, without repetition, exactly the paths satisfying the condition
      whose first step is below `n`. */
  ghost predicate ListsPathsBelow(types: TypeMap, t: DataType, n: nat, ps: seq<seq<nat>>) {
    && Distinct(ps)
    && forall p :: p in ps <==> p != [] && p[0] < n && EndsInStructOrEnum(types, t, p)
  }

  lemma UnderMembers(i: nat, ps: seq<seq<nat>>)
    ensures forall p :: p in Under(i, ps) <==> p != [] && p[0] == i && p[1..] in ps
    ensures Distinct(ps) ==> Distinct(Under(i, ps))
  {
    var under := Under(i, ps);
    assert forall k | 0 <= k < |ps| :: under[k][1..] == ps[k];
    forall p | p != [] && p[0] == i && p[1..] in ps
      ensures p in under
    {
      var k :| 0 <= k < |ps| && ps[k] == p[1..];
      assert under[k] == p;
    }
  }

  lemma {:induction false} FieldPathsOfComplete(types: TypeMap, t: DataType, n: nat)
    requires Known(types, t) && t.Struct? && n <= |t.fields| && EarlierOrderable(types, t, n)
    ensures ListsPathsBelow(types, t, n, FieldPathsOf(types, t, n))
    decreases Rank(types, t.id), n
  {
    hide Orderable, Rank, NoEnteredCycle;
    if n > 0 {
      FieldKnown(types, t, n - 1);
      FieldPathsOfComplete(types, t, n - 1);
      var d := t.fields[n - 1].dataType;
      OrderableIsThere(types, d);
      FieldPathsComplete(types, types[d]);
      PathsThrough(types, t, n - 1, FieldPathsOf(types, t, n - 1), FieldPaths(types, types[d]));
    }
  }

  /** One more field adds exactly the paths that start with it. */
  lemma PathsThrough(types: TypeMap, t: DataType, n: nat, before: seq<seq<nat>>, below: seq<seq<nat>>)
    requires t.Struct? && n < |t.fields| && t.fields[n].dataType in types && ListsPathsBelow(types, t, n, before)
    requires Distinct(below)
    requires forall p :: p in below <==> EndsInStructOrEnum(types, types[t.fields[n].dataType], p)
    ensures ListsPathsBelow(types, t, n + 1, before + Under(n, below))
  {
    var under := Under(n, below);
    UnderMembers(n, below);
    forall p
      ensures p in before + under <==> p != [] && p[0] < n + 1 && EndsInStructOrEnum(types, t, p)
    {
      assert p in before + under <==> p in before || p in under;
    }
    hide EndsInStructOrEnum, Under;
    assert forall i | 0 <= i < |before| :: before[i] in before;
    assert forall j | 0 <= j < |under| :: under[j] in under;
    DistinctConcat(before, under);
  }

  lemma {:induction false} FieldPathsComplete(types: TypeMap, t: DataType)
    requires Known(types, t) && Orderable(types, t.id)
    ensures Distinct(FieldPaths(types, t))
    ensures forall p :: p in FieldPaths(types, t) <==> EndsInStructOrEnum(types, t, p)
    decreases Rank(types, t.id), if t.Struct? then |t.fields| + 1 else 0
  {
    hide Orderable, Rank, NoEnteredCycle;
    OrderableStep(types, t);
    if t.Struct? {
      FieldPathsOfComplete(types, t, |t.fields|);
      var before := FieldPathsOf(types, t, |t.fields|);
      assert forall i | 0 <= i < |before| :: before[i] in before;
      assert forall p :: p in FieldPaths(types, t) <==> p in before || p == [];
    }
  }

  /** Entry by entry, `order` names the types that the paths `ps` lead to. */
  ghost predicate LeadsTo(types: TypeMap, t: DataType, ps: seq<seq<nat>>, order: seq<NodeId>) {
    |ps| == |order| && forall k | 0 <= k < |ps| :: LeadsToId(types, t, ps[k], order[k])
  }

  ghost predicate LeadsToId(types: TypeMap, t: DataType, p: seq<nat>, id: NodeId) {
    Follow(types, t, p).Some? && Follow(types, t, p).value.id == id
  }

  lemma UnderLeadsTo(types: TypeMap, t: DataType, i: nat, ps: seq<seq<nat>>, order: seq<NodeId>)
    requires t.Struct? && i < |t.fields| && t.fields[i].dataType in types
    requires LeadsTo(types, types[t.fields[i].dataType], ps, order)
    ensures LeadsTo(types, t, Under(i, ps), order)
  {
    var d := types[t.fields[i].dataType];
    forall k | 0 <= k < |ps|
      ensures LeadsToId(types, t, Under(i, ps)[k], order[k])
    {
      assert LeadsToId(types, d, ps[k], order[k]);
      assert Under(i, ps)[k][1..] == ps[k];
    }
  }

  lemma ConcatLeadsTo(types: TypeMap, t: DataType, ps: seq<seq<nat>>, s: seq<NodeId>, qs: seq<seq<nat>>, r: seq<NodeId>)
    requires LeadsTo(types, t, ps, s) && LeadsTo(types, t, qs, r)
    ensures LeadsTo(types, t, ps + qs, s + r)
  {
    hide LeadsToId;
  }

  lemma PathsOneMore(types: TypeMap, t: DataType, n: nat)
    requires Known(types, t) && t.Struct? && n < |t.fields| && EarlierOrderable(types, t, n + 1)
    requires t.fields[n].dataType in types && Known(types, types[t.fields[n].dataType])
    requires Orderable(types, types[t.fields[n].dataType].id)
    ensures EarlierOrderable(types, t, n)
    ensures FieldPathsOf(types, t, n + 1) ==
      FieldPathsOf(types, t, n) + Under(n, FieldPaths(types, types[t.fields[n].dataType]))
  {
    hide Orderable, Rank, NoEnteredCycle, Under, FieldPaths;
  }

  lemma {:induction false} FieldEntriesFollow(types: TypeMap, t: DataType, n: nat)
    requires Known(types, t) && t.Struct? && n <= |t.fields| && WalkFields(types, t, n).ok
    ensures LeadsTo(types, t, FieldPathsOf(types, t, n), WalkFields(types, t, n).order)
    decreases Rank(types, t.id), n
  {
    hide Orderable, EarlierOrderable, Rank, NoEnteredCycle, Walk, FieldPaths, Under, LeadsToId;
    if n > 0 {
      var d := WalkOneMore(types, t, n - 1);
      PathsOneMore(types, t, n - 1);
      hide WalkFields, FieldPathsOf, LeadsTo;
      FieldEntriesFollow(types, t, n - 1);
      EntriesFollow(types, d);
      UnderLeadsTo(types, t, n - 1, FieldPaths(types, d), Walk(types, d).order);
      ConcatLeadsTo(types, t, FieldPathsOf(types, t, n - 1), WalkFields(types, t, n - 1).order,
                    Under(n - 1, FieldPaths(types, d)), Walk(types, d).order);
    }
  }

  lemma {:induction false} EntriesFollow(types: TypeMap, t: DataType)
    requires Known(types, t) && Walk(types, t).ok
    ensures LeadsTo(types, t, FieldPaths(types, t), Walk(types, t).order)
    decreases Rank(types, t.id), if t.Struct? then |t.fields| + 1 else 0
  {
    assert LeadsToId(types, t, [], t.id);
    hide Orderable, EarlierOrderable, Rank, NoEnteredCycle, WalkFields, FieldPathsOf, LeadsToId;
    OrderableStep(types, t);
    if t.Struct? {
      FieldEntriesFollow(types, t, |t.fields|);
      ConcatLeadsTo(types, t, FieldPathsOf(types, t, |t.fields|), WalkFields(types, t, |t.fields|).order, [[]], [t.id]);
    }
  }

  /** The order has one entry for every field path that ends in a struct or enum,
      and the entry is the type that the path leads to. */
  lemma OrderFollowsFieldPaths(types: TypeMap, t: DataType) returns (paths: seq<seq<nat>>)
    requires Known(types, t) && Walk(types, t).ok
    ensures Distinct(paths) && forall p :: p in paths <==> EndsInStructOrEnum(types, t, p)
    ensures LeadsTo(types, t, paths, Walk(types, t).order)
  {
    FieldPathsComplete(types, t);
    EntriesFollow(types, t);
    paths := FieldPaths(types, t);
  }

  /** No struct or enum is reached from `t` along two different field paths. */
  ghost predicate OnePathEach(types: TypeMap, t: DataType) {
    forall p, q, id |
      EndsInStructOrEnum(types, t, p) && EndsInStructOrEnum(types, t, q) &&
      LeadsToId(types, t, p, id) && LeadsToId(types, t, q, id) :: p == q
  }

  /** The order repeats nothing exactly when there is one field path to each type. */
  lemma OrderIsDistinctIff(types: TypeMap, t: DataType)
    requires Known(types, t) && Walk(types, t).ok
    ensures Distinct(Walk(types, t).order) <==> OnePathEach(types, t)
  {
    var paths := OrderFollowsFieldPaths(types, t);
    ListedDistinctIff(types, t, paths, Walk(types, t).order);
  }

  lemma ListedDistinctIff(types: TypeMap, t: DataType, paths: seq<seq<nat>>, order: seq<NodeId>)
    requires Distinct(paths) && forall p :: p in paths <==> EndsInStructOrEnum(types, t, p)
    requires LeadsTo(types, t, paths, order)
    ensures Distinct(order) <==> OnePathEach(types, t)
  {
    assert forall p, id, id' | LeadsToId(types, t, p, id) && LeadsToId(types, t, p, id') :: id == id';
    hide EndsInStructOrEnum, LeadsToId;
    if OnePathEach(types, t) {
      forall i, j | 0 <= i < j < |order|
        ensures order[i] != order[j]
      {
        assert paths[i] in paths && paths[j] in paths && paths[i] != paths[j];
        assert LeadsToId(types, t, paths[i], order[i]) && LeadsToId(types, t, paths[j], order[j]);
      }
    }
    if Distinct(order) {
      forall p, q, id |
        EndsInStructOrEnum(types, t, p) && EndsInStructOrEnum(types, t, q) &&
        LeadsToId(types, t, p, id) && LeadsToId(types, t, q, id)
        ensures p == q
      {
        var i :| 0 <= i < |paths| && paths[i] == p;
        var j :| 0 <= j < |paths| && paths[j] == q;
        assert LeadsToId(types, t, paths[i], order[i]) && LeadsToId(types, t, paths[j], order[j]);
      }
    }
  }

  // ----- The exponential case -----

  /** Each struct of `ids` but the last has two fields, both of the next struct. */
  ghost predicate DoublingChain(types: TypeMap, ids: seq<NodeId>) {
    && Keyed(types)
    && Distinct(ids)
    && forall i | 0 <= i < |ids| ::
      && IsStruct(types, ids[i])
      && |types[ids[i]].fields| == (if i == |ids| - 1 then 0 else 2)
      && forall f | f in types[ids[i]].fields :: i < |ids| - 1 && f.dataType == ids[i + 1]
  }

  /** There is a doubling chain of every length. */
  lemma ChainExists(n: nat) returns (types: TypeMap, ids: seq<NodeId>)
    ensures DoublingChain(types, ids) && |ids| == n
  {
    ids := seq(n, i requires 0 <= i < n => Textual(0, seq(i, _ => 'a')));
    assert Numbered(ids);
    types := ChainOf(ids);
    ChainIsDoubling(ids);
  }

  /** An id's position can be read off its text. */
  ghost predicate Numbered(ids: seq<NodeId>) {
    forall i | 0 <= i < |ids| :: ids[i].Textual? && |ids[i].text| == i
  }

  ghost function ChainNode(ids: seq<NodeId>, i: nat): DataType
    requires i < |ids|
  {
    Struct("Node", ids[i],
      if i == |ids| - 1 then [] else [Field("Left", -1, ids[i + 1]), Field("Right", -1, ids[i + 1])])
  }

  ghost function ChainOf(ids: seq<NodeId>): TypeMap
    requires Numbered(ids)
  {
    map id | id in ids :: ChainNode(ids, |id.text|)
  }

  lemma ChainIsDoubling(ids: seq<NodeId>)
    requires Numbered(ids)
    ensures DoublingChain(ChainOf(ids), ids)
  {
    ChainIsKeyed(ids);
    hide Keyed, Distinct, DoublingChain, ChainNode;
    NodesAreDoubling(ChainOf(ids), ids);
  }

  lemma NodesAreDoubling(types: TypeMap, ids: seq<NodeId>)
    requires Keyed(types) && Distinct(ids)
    requires forall i | 0 <= i < |ids| :: ids[i] in types && types[ids[i]] == ChainNode(ids, i)
    ensures DoublingChain(types, ids)
  {
    hide Keyed, Distinct;
  }

  lemma ChainIsKeyed(ids: seq<NodeId>)
    requires Numbered(ids)
    ensures Keyed(ChainOf(ids)) && Distinct(ids)
  {
    forall id | id in ids
      ensures ids[|id.text|] == id
    {
      var i :| 0 <= i < |ids| && ids[i] == id;
    }
  }

  lemma {:induction false} ChainPath(types: TypeMap, ids: seq<NodeId>, i: nat, p: seq<NodeId>, j: nat)
    requires DoublingChain(types, ids) && i < |ids|
    requires StructPath(types, ids[i], p) && j < |p|
    ensures i + j < |ids| && p[j] == ids[i + j]
  {
    if j > 0 {
      ChainPath(types, ids, i, p, j - 1);
      assert Names(types[p[j - 1]], p[j - 1 + 1]);
    }
  }

  lemma ChainKnown(types: TypeMap, ids: seq<NodeId>, i: nat)
    requires DoublingChain(types, ids) && i < |ids|
    ensures Known(types, types[ids[i]])
  {
    forall p | StructPath(types, ids[i], p)
      ensures Distinct(p)
    {
      forall j, k | 0 <= j < k < |p|
        ensures p[j] != p[k]
      {
        ChainPath(types, ids, i, p, j);
        ChainPath(types, ids, i, p, k);
      }
    }
    CycleFreeIsKnown(types, types[ids[i]]);
  }

  /** On a doubling chain of n structs the order has 2^n - 1 entries. */
  lemma {:induction false} ChainOrderIsExponential(types: TypeMap, ids: seq<NodeId>, i: nat)
    requires DoublingChain(types, ids) && i < |ids|
    ensures Known(types, types[ids[i]])
    ensures Walk(types, types[ids[i]]).ok
    ensures |Walk(types, types[ids[i]]).order| == Pow2(|ids| - i) - 1
    ensures Elems(Walk(types, types[ids[i]]).order) == Elems(ids[i..])
    decreases |ids| - i
  {
    ChainKnown(types, ids, i);
    var t := types[ids[i]];
    assert ids[i..] == [ids[i]] + ids[i + 1..];
    if i < |ids| - 1 {
      ChainOrderIsExponential(types, ids, i + 1);
      var d := types[ids[i + 1]];
      assert t.fields[0] in t.fields && t.fields[1] in t.fields;
      assert WalkFields(types, t, 0) == Walked(true, []);
      assert WalkFields(types, t, 1) == Walked(true, [] + Walk(types, d).order);
      var below := Walk(types, d).order;
      assert WalkFields(types, t, 2) == Walked(true, [] + below + below);
      assert Elems([] + below + below + [t.id]) == Elems(below) + {t.id};
      assert Elems(ids[i..]) == Elems(ids[i + 1..]) + {t.id};
    }
  }
}
