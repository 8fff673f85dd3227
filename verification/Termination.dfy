/** When the ordering pass ends. It has no cycle check, so it ends exactly when
    it enters no cycle of structs; an absent field type stops it before the
    fields behind it are entered. */
module Termination {
  import opened TypeModel
  import opened DependencyGraph
  import opened Ordering
  import opened Options

  /** The walk from `t` with room for `n` structs open at a time; none when it
      needs more. */
  ghost function WalkWithin(types: TypeMap, t: DataType, n: nat): Option<Walked>
    decreases n, 0
  {
    match t
    case Base(_, _) => Some(Walked(true, []))
    case Enum(_, id, _) => Some(Walked(true, [id]))
    case Struct(_, id, fields) =>
      if n == 0 then None else
        match FieldsWithin(types, t, |fields|, n - 1)
        case None => None
        case Some(w) => Some(if w.ok then Walked(true, w.order + [id]) else w)
  }

  /** The first `k` fields of `t`, each with room for `n` structs. */
  ghost function FieldsWithin(types: TypeMap, t: DataType, k: nat, n: nat): Option<Walked>
    requires t.Struct? && k <= |t.fields|
    decreases n, k + 1
  {
    if k == 0 then Some(Walked(true, [])) else
      match FieldsWithin(types, t, k - 1, n)
      case None => None
      case Some(before) =>
        var d := t.fields[k - 1].dataType;
        if !before.ok then Some(before)
        else if d !in types then Some(Walked(false, before.order))
        else
          match WalkWithin(types, types[d], n)
          case None => None
          case Some(w) => Some(Walked(w.ok, before.order + w.order))
  }

  ghost predicate Ends(types: TypeMap, t: DataType) {
    exists n: nat :: WalkWithin(types, t, n).Some?
  }

  // ----- Room -----

  lemma {:induction false} MoreRoom(types: TypeMap, t: DataType, m: nat, n: nat)
    requires WalkWithin(types, t, m).Some? && m <= n
    ensures WalkWithin(types, t, n) == WalkWithin(types, t, m)
    decreases m, 0
  {
    if t.Struct? {
      MoreRoomForFields(types, t, |t.fields|, m - 1, n - 1);
    }
  }

  lemma {:induction false} MoreRoomForFields(types: TypeMap, t: DataType, k: nat, m: nat, n: nat)
    requires t.Struct? && k <= |t.fields| && FieldsWithin(types, t, k, m).Some? && m <= n
    ensures FieldsWithin(types, t, k, n) == FieldsWithin(types, t, k, m)
    decreases m, k + 1
  {
    if k > 0 {
      MoreRoomForFields(types, t, k - 1, m, n);
      var d := t.fields[k - 1].dataType;
      if FieldsWithin(types, t, k - 1, m).value.ok && d in types {
        MoreRoom(types, types[d], m, n);
      }
    }
  }

  /** With at least as many open structs as the rank, which is at most the number
      of structs, the bounded walk is the walk. */
  lemma {:induction false} RankSuffices(types: TypeMap, t: DataType, n: nat)
    requires Known(types, t) && Rank(types, t.id) <= n
    ensures WalkWithin(types, t, n) == Some(Walk(types, t))
    ensures Rank(types, t.id) <= |StructIds(types)|
    decreases n, 0
  {
    hide Orderable, EarlierOrderable, Longest;
    LongestBound(types, t.id, |StructIds(types)|);
    if t.Struct? {
      assert EnteredPath(types, t.id, [t.id]);
      EnteredPathLength(types, t.id, [t.id]);
      LongestIsLongest(types, t.id, |StructIds(types)|, [t.id]);
      RankSufficesForFields(types, t, |t.fields|, n - 1);
    }
  }

  lemma {:induction false} RankSufficesForFields(types: TypeMap, t: DataType, k: nat, n: nat)
    requires Known(types, t) && t.Struct? && k <= |t.fields| && Rank(types, t.id) <= n + 1
    ensures FieldsWithin(types, t, k, n) == Some(WalkFields(types, t, k))
    decreases n, k + 1
  {
    hide Orderable, EarlierOrderable, Rank, NoEnteredCycle;
    if k > 0 {
      RankSufficesForFields(types, t, k - 1, n);
      var d := t.fields[k - 1].dataType;
      if WalkFields(types, t, k - 1).ok && d in types {
        FieldKnown(types, t, k - 1);
        RankSuffices(types, types[d], n);
      }
    }
  }

  // ----- Along entered fields -----

  /** What ends at all agrees with the walk, whatever the room. */
  lemma EndsAsTheWalk(types: TypeMap, t: DataType, n: nat)
    requires Known(types, t) && WalkWithin(types, t, n).Some?
    ensures WalkWithin(types, t, n) == Some(Walk(types, t))
  {
    var most := n + Rank(types, t.id);
    MoreRoom(types, t, n, most);
    RankSuffices(types, t, most);
  }

  lemma {:induction false} EarlierFieldsEnd(types: TypeMap, t: DataType, i: nat, k: nat, n: nat)
    requires t.Struct? && i <= k <= |t.fields| && FieldsWithin(types, t, k, n).Some?
    ensures FieldsWithin(types, t, i, n).Some?
    decreases k
  {
    if i < k {
      EarlierFieldsEnd(types, t, i, k - 1, n);
    }
  }

  /** Fields below which all is in order are passed without failure. */
  lemma {:induction false} OrderableFieldsPass(types: TypeMap, t: DataType, i: nat, n: nat)
    requires Keyed(types) && t.Struct? && i <= |t.fields|
    requires EarlierOrderable(types, t, i) && FieldsWithin(types, t, i, n).Some?
    ensures FieldsWithin(types, t, i, n).value.ok
    decreases i
  {
    if i > 0 {
      OrderableFieldsPass(types, t, i - 1, n);
      var d := t.fields[i - 1].dataType;
      OrderableIsThere(types, d);
      CycleFreeIsKnown(types, types[d]);
      EndsAsTheWalk(types, types[d], n);
    }
  }

  /** What is entered has one struct less to open. */
  lemma RoomShrinks(types: TypeMap, from: NodeId, to: NodeId, n: nat)
    requires Keyed(types) && Enters(types, from, to) && to in types
    requires WalkWithin(types, types[from], n).Some?
    ensures n > 0 && WalkWithin(types, types[to], n - 1).Some?
  {
    var t := types[from];
    var i :| 0 <= i < |t.fields| && t.fields[i].dataType == to && EarlierOrderable(types, t, i);
    EarlierFieldsEnd(types, t, i, |t.fields|, n - 1);
    EarlierFieldsEnd(types, t, i + 1, |t.fields|, n - 1);
    OrderableFieldsPass(types, t, i, n - 1);
  }

  lemma {:induction false} RoomAlongPath(types: TypeMap, from: NodeId, p: seq<NodeId>, n: nat, i: nat, j: nat)
    requires Keyed(types) && EnteredPath(types, from, p) && i <= j < |p|
    requires p[i] in types && WalkWithin(types, types[p[i]], n).Some?
    ensures p[j] in types && j - i <= n && WalkWithin(types, types[p[j]], n - (j - i)).Some?
    decreases j - i
  {
    hide WalkWithin;
    if i < j {
      assert Enters(types, p[i], p[i + 1]);
      assert i + 1 < |p| - 1 ==> Enters(types, p[i + 1], p[i + 1 + 1]);
      RoomShrinks(types, p[i], p[i + 1], n);
      RoomAlongPath(types, from, p, n - 1, i + 1, j);
    }
  }

  /** The least room that suffices. */
  ghost function LeastRoom(types: TypeMap, t: DataType, n: nat): (m: nat)
    requires WalkWithin(types, t, n).Some?
    ensures m <= n && WalkWithin(types, t, m).Some? && (m > 0 ==> WalkWithin(types, t, m - 1).None?)
  {
    if n > 0 && WalkWithin(types, t, n - 1).Some? then LeastRoom(types, t, n - 1) else n
  }

  lemma EndingExcludesCycles(types: TypeMap, t: DataType, n: nat)
    requires Keyed(types) && t.id in types && types[t.id] == t && WalkWithin(types, t, n).Some?
    ensures NoEnteredCycle(types, t.id)
  {
    hide WalkWithin, Enters;
    forall p, i, j | EnteredPath(types, t.id, p) && 0 <= i < j < |p|
      ensures p[i] != p[j]
    {
      RoomAlongPath(types, t.id, p, n, 0, i);
      var least := LeastRoom(types, types[p[i]], n - i);
      RoomAlongPath(types, t.id, p, least, i, j);
      if p[i] == p[j] {
        MoreRoom(types, types[p[i]], least - (j - i), least - 1);
      }
    }
  }

  // ----- Exactly when it ends -----

  /** The ordering of `t` ends exactly when it enters no cycle of structs. */
  lemma EndsIffNoEnteredCycle(types: TypeMap, t: DataType)
    requires Keyed(types) && t.id in types && types[t.id] == t
    ensures Ends(types, t) <==> NoEnteredCycle(types, t.id)
  {
    if NoEnteredCycle(types, t.id) {
      RankSuffices(types, t, Rank(types, t.id));
    }
    if Ends(types, t) {
      var n: nat :| WalkWithin(types, t, n).Some?;
      EndingExcludesCycles(types, t, n);
    }
  }

  /** It ends without failing exactly when no cycle and no absent type can be
      reached at all. */
  lemma EndsWellIffOrderable(types: TypeMap, t: DataType)
    requires Keyed(types) && t.id in types && types[t.id] == t
    ensures (exists n: nat :: WalkWithin(types, t, n).Some? && WalkWithin(types, t, n).value.ok) <==>
      NoCycleFrom(types, t.id) && !ReachesMissing(types, t)
  {
    EndsIffNoEnteredCycle(types, t);
    if NoCycleFrom(types, t.id) {
      CycleFreeIsKnown(types, t);
    }
    if Known(types, t) {
      OkIffNothingMissing(types, t);
      RankSuffices(types, t, Rank(types, t.id));
    }
    if n: nat :| WalkWithin(types, t, n).Some? && WalkWithin(types, t, n).value.ok {
      EndsAsTheWalk(types, t, n);
    }
  }

  // ----- Two smallest inputs -----

  /** A struct with a field of its own type is never ordered. */
  lemma {:induction false} SelfReferenceNeverEnds(id: NodeId, n: nat)
    ensures var t := Struct("Node", id, [Field("Next", -1, id)]);
      WalkWithin(map[id := t], t, n).None?
    decreases n
  {
    var t := Struct("Node", id, [Field("Next", -1, id)]);
    if n > 0 {
      SelfReferenceNeverEnds(id, n - 1);
      assert FieldsWithin(map[id := t], t, 0, n - 1) == Some(Walked(true, []));
    }
  }

  /** With a field of an absent type before it, it fails at once: the cycle is
      reachable, but never entered. */
  lemma AbsentTypeShieldsCycle(id: NodeId, gone: NodeId)
    requires gone != id
    ensures var t := Struct("Node", id, [Field("Gone", -1, gone), Field("Next", -1, id)]);
      var types: TypeMap := map[id := t];
      WalkWithin(types, t, 1) == Some(Walked(false, [])) && !NoCycleFrom(types, id)
  {
    var t := Struct("Node", id, [Field("Gone", -1, gone), Field("Next", -1, id)]);
    var types: TypeMap := map[id := t];
    assert FieldsWithin(types, t, 0, 0) == Some(Walked(true, []));
    assert FieldsWithin(types, t, 1, 0) == Some(Walked(false, []));
    var p := [id, id];
    assert t.fields[1].dataType == id;
    assert StructPath(types, id, p);
    assert p[0] == p[1];
  }
}
