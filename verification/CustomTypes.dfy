/** Freeing the custom data types of a server: a linked list of arrays of types
    with arrays of members, all owned by hand. */
module CustomTypes {
  import opened Sequences

  /** An address; 0 is the null pointer. */
  type Ptr = nat

  datatype TypeDesc = TypeDesc(typeName: Ptr, isUnion: bool, membersSize: nat, members: Ptr)

  datatype Block =
    | ListNode(next: Ptr, types: Ptr, typesSize: nat)
    | TypeArray(elements: seq<TypeDesc>)
    | MemberArray(names: seq<Ptr>)
    | Chars

  type Cells = map<Ptr, Block>

  // ----- Who owns what -----

  function One(p: Ptr): seq<Ptr> {
    if p == 0 then [] else [p]
  }

  function NonNull(ps: seq<Ptr>): seq<Ptr> {
    if ps == [] then [] else NonNull(ps[..|ps| - 1]) + One(ps[|ps| - 1])
  }

  /** The last member name of a union is not owned. */
  function OwnedMembers(t: TypeDesc): int {
    if t.isUnion then t.membersSize - 1 else t.membersSize
  }

  /** A type's member array is there and as long as it says; a union has a member. */
  predicate ValidType(cells: Cells, t: TypeDesc) {
    && (t.isUnion ==> t.membersSize > 0)
    && if t.members == 0 then t.membersSize == if t.isUnion then 1 else 0
       else t.members in cells && cells[t.members].MemberArray? && |cells[t.members].names| == t.membersSize
  }

  function OwnedNames(cells: Cells, t: TypeDesc): seq<Ptr>
    requires ValidType(cells, t)
  {
    if t.members == 0 then [] else cells[t.members].names[..OwnedMembers(t)]
  }

  /** The blocks that belong to one type, in the order they are freed. */
  function OwnedByType(cells: Cells, t: TypeDesc): seq<Ptr>
    requires ValidType(cells, t)
  {
    One(t.typeName) + NonNull(OwnedNames(cells, t)) + One(t.members)
  }

  function OwnedByTypes(cells: Cells, ts: seq<TypeDesc>): seq<Ptr>
    requires forall i | 0 <= i < |ts| :: ValidType(cells, ts[i])
  {
    if ts == [] then [] else OwnedByTypes(cells, ts[..|ts| - 1]) + OwnedByType(cells, ts[|ts| - 1])
  }

  predicate ValidNode(cells: Cells, p: Ptr) {
    && p != 0 && p in cells && cells[p].ListNode?
    && (cells[p].types != 0 ==>
          && cells[p].types in cells && cells[cells[p].types].TypeArray?
          && |cells[cells[p].types].elements| == cells[p].typesSize
          && forall i | 0 <= i < cells[p].typesSize :: ValidType(cells, cells[cells[p].types].elements[i]))
  }

  function TypesOf(cells: Cells, p: Ptr): seq<TypeDesc>
    requires ValidNode(cells, p)
  {
    if cells[p].types == 0 then [] else cells[cells[p].types].elements
  }

  function OwnedByNode(cells: Cells, p: Ptr): seq<Ptr>
    requires ValidNode(cells, p)
  {
    OwnedByTypes(cells, TypesOf(cells, p)) + One(cells[p].types) + [p]
  }

  /** Type `t` owns block `q`: its name, its member array, or an owned member name. */
  predicate TypeOwns(cells: Cells, t: TypeDesc, q: Ptr)
    requires ValidType(cells, t)
  {
    q != 0 && (q == t.typeName || q == t.members || OwnsName(cells, t, q))
  }

  /** `q` is the name of a member, but not of the last one of a union. */
  predicate OwnsName(cells: Cells, t: TypeDesc, q: Ptr)
    requires ValidType(cells, t)
  {
    t.members != 0 && exists k | 0 <= k < |cells[t.members].names| ::
      (t.isUnion ==> k < |cells[t.members].names| - 1) && cells[t.members].names[k] == q
  }

  /** `chain` lists the nodes from `head` to the end of the list. */
  predicate IsList(cells: Cells, head: Ptr, chain: seq<Ptr>) {
    && (forall i | 0 <= i < |chain| :: ValidNode(cells, chain[i]))
    && (forall i | 0 <= i < |chain| - 1 :: cells[chain[i]].next == chain[i + 1])
    && (if chain == [] then head == 0 else head == chain[0] && cells[chain[|chain| - 1]].next == 0)
  }

  function OwnedByList(cells: Cells, chain: seq<Ptr>): seq<Ptr>
    requires forall i | 0 <= i < |chain| :: ValidNode(cells, chain[i])
  {
    if chain == [] then [] else OwnedByList(cells, chain[..|chain| - 1]) + OwnedByNode(cells, chain[|chain| - 1])
  }

  /** Pairwise different live blocks. */
  ghost predicate Separate(cells: Cells, ps: seq<Ptr>) {
    Distinct(ps) && forall p | p in ps :: p in cells
  }

  lemma SeparateConcat(cells: Cells, a: seq<Ptr>, b: seq<Ptr>)
    requires Separate(cells, a + b)
    ensures Separate(cells, a) && Separate(cells, b) && Elems(a) !! Elems(b)
    ensures Separate(cells - Elems(a), b)
    ensures cells - Elems(a) - Elems(b) == cells - Elems(a + b)
  {
    assert forall i | 0 <= i < |a| :: (a + b)[i] == a[i];
    assert forall i | 0 <= i < |b| :: (a + b)[|a| + i] == b[i];
    assert forall p | p in a :: p in a + b;
    assert forall p | p in b :: p in a + b;
    assert Elems(a + b) == Elems(a) + Elems(b);
  }

  /** Freeing other blocks leaves what a type owns as it was. */
  lemma TypeFrame(cells: Cells, gone: set<Ptr>, t: TypeDesc)
    requires ValidType(cells, t) && (t.members == 0 || t.members !in gone)
    ensures ValidType(cells - gone, t) && OwnedByType(cells - gone, t) == OwnedByType(cells, t)
  {
  }

  class Memory {
    var cells: Cells
    ghost var freed: seq<Ptr>

    /** `free`: the block must be live; the null pointer is let through. */
    method Free(p: Ptr)
      requires p == 0 || p in cells
      modifies this
      ensures cells == old(cells) - Elems(One(p)) && freed == old(freed) + One(p)
    {
      if p != 0 {
        cells := cells - {p};
        freed := freed + [p];
      }
      assert freed == old(freed) + One(p);
    }

    /** Frees the owned member names, clearing each pointer, and then the array. */
    method FreeMembers(t: TypeDesc)
      requires ValidType(cells, t) && Separate(cells, NonNull(OwnedNames(cells, t)) + One(t.members))
      modifies this
      ensures cells == old(cells) - Elems(NonNull(OwnedNames(old(cells), t)) + One(t.members))
      ensures freed == old(freed) + (NonNull(OwnedNames(old(cells), t)) + One(t.members))
    {
      ghost var names := OwnedNames(cells, t);
      SeparateConcat(cells, NonNull(names), One(t.members));
      if t.members != 0 {
        assert t.members in Elems(One(t.members));
        ClearNames(t);
      }
      Free(t.members);
      assert Elems(One(t.members)) == if t.members == 0 then {} else {t.members};
      assert Elems(NonNull(names) + One(t.members)) == Elems(NonNull(names)) + Elems(One(t.members));
      assert freed == old(freed) + (NonNull(names) + One(t.members));
    }

    method ClearNames(t: TypeDesc)
      requires ValidType(cells, t) && t.members != 0
      requires Separate(cells, NonNull(OwnedNames(cells, t))) && t.members !in NonNull(OwnedNames(cells, t))
      modifies this
      ensures t.members in cells
      ensures cells - {t.members} == old(cells) - Elems(NonNull(OwnedNames(old(cells), t))) - {t.members}
      ensures freed == old(freed) + NonNull(OwnedNames(old(cells), t))
    {
      hide NonNull;
      ghost var names := OwnedNames(cells, t);
      assert names[..0] == [] && NonNull(names[..0]) == [] by { NonNullOfNothing(); }
      for i := 0 to OwnedMembers(t)
        invariant t.members in cells && cells[t.members].MemberArray? && |cells[t.members].names| == t.membersSize
        invariant forall k | i <= k < OwnedMembers(t) :: cells[t.members].names[k] == names[k]
        invariant cells - {t.members} == old(cells) - Elems(NonNull(names[..i])) - {t.members}
        invariant freed == old(freed) + NonNull(names[..i])
      {
        NextName(old(cells), names, i);
        var p := cells[t.members].names[i];
        assert p == 0 || (p in old(cells) - Elems(NonNull(names[..i])) - {t.members});
        Free(p);
        cells := cells[t.members := MemberArray(cells[t.members].names[i := 0])];
        RemoveMore(old(cells), NonNull(names[..i]), p, t.members);
      }
      assert names[..OwnedMembers(t)] == names;
    }

    method FreeType(t: TypeDesc)
      requires ValidType(cells, t) && Separate(cells, OwnedByType(cells, t))
      modifies this
      ensures cells == old(cells) - Elems(OwnedByType(old(cells), t))
      ensures freed == old(freed) + OwnedByType(old(cells), t)
    {
      hide NonNull;
      ghost var a, b := One(t.typeName), NonNull(OwnedNames(cells, t)) + One(t.members);
      assert OwnedByType(cells, t) == a + b;
      SeparateConcat(cells, a, b);
      assert t.typeName != 0 ==> t.typeName == a[0] && t.typeName in Elems(a);
      assert t.members != 0 ==> t.members == b[|b| - 1] && t.members in Elems(b);
      TypeFrame(cells, Elems(a), t);
      Free(t.typeName);
      FreeMembers(t);
      assert freed == old(freed) + (a + b);
    }

    /** Frees what the types of the array at `p` own. */
    method FreeTypes(p: Ptr)
      requires p in cells && cells[p].TypeArray?
      requires forall i | 0 <= i < |cells[p].elements| :: ValidType(cells, cells[p].elements[i])
      requires Separate(cells, OwnedByTypes(cells, cells[p].elements) + [p])
      modifies this
      ensures cells == old(cells) - Elems(OwnedByTypes(old(cells), old(cells)[p].elements))
      ensures freed == old(freed) + OwnedByTypes(old(cells), old(cells)[p].elements)
    {
      hide ValidType, OwnedByType;
      ghost var was: Cells := cells;
      ghost var ts := cells[p].elements;
      var i := 0;
      NoTypes(was, ts);
      assert was - Elems(OwnedByTypes(was, ts[..0])) == was;
      hide OwnedByTypes, Separate, Elems;
      while i != |cells[p].elements|
        invariant 0 <= i <= |ts|
        invariant p in cells && cells[p] == was[p]
        invariant cells == was - Elems(OwnedByTypes(was, ts[..i]))
        invariant freed == old(freed) + OwnedByTypes(was, ts[..i])
        decreases |ts| - i
      {
        TypeAt(was, ts, i, p);
        FreeType(cells[p].elements[i]);
        i := i + 1;
      }
      assert ts[..|ts|] == ts;
    }

    method FreeNode(p: Ptr)
      requires ValidNode(cells, p) && Separate(cells, OwnedByNode(cells, p))
      modifies this
      ensures cells == old(cells) - Elems(OwnedByNode(old(cells), p))
      ensures freed == old(freed) + OwnedByNode(old(cells), p)
    {
      hide OwnedByTypes, ValidType;
      ghost var was := cells;
      var types := cells[p].types;
      ghost var a, b := OwnedByTypes(was, TypesOf(was, p)), One(types);
      SeparateConcat(was, a + b, [p]);
      SeparateConcat(was, a, b);
      assert p == [p][0] && p in Elems([p]);
      if types != 0 {
        assert b[0] == types && types in Elems(b);
        FreeTypes(types);
      } else {
        NoTypes(was, []);
      }
      assert cells == was - Elems(a) && freed == old(freed) + a;
      Free(types);
      Free(p);
      assert freed == old(freed) + (a + b + [p]);
      assert Elems(a + b + [p]) == Elems(a) + Elems(b) + {p};
    }

    /** Walks the list from `head`, reading each node's successor before freeing
        the node. Every owned block is freed exactly once and nothing freed is
        read: both are conditions of `Free` and of reading `cells`. */
    method CleanupCustomTypes(head: Ptr, ghost chain: seq<Ptr>)
      requires IsList(cells, head, chain) && Separate(cells, OwnedByList(cells, chain))
      modifies this
      ensures cells == old(cells) - Elems(OwnedByList(old(cells), chain))
      ensures freed == old(freed) + OwnedByList(old(cells), chain)
    {
      hide OwnedByNode;
      ghost var was := cells;
      var types := head;
      ghost var i := 0;
      while types != 0
        invariant 0 <= i <= |chain|
        invariant types == if i < |chain| then chain[i] else 0
        invariant cells == was - Elems(OwnedByList(was, chain[..i]))
        invariant freed == old(freed) + OwnedByList(was, chain[..i])
        decreases |chain| - i
      {
        NodeAt(was, chain, i);
        var next := cells[types].next;
        FreeNode(types);
        assert chain[..i + 1][..i] == chain[..i];
        types := next;
        i := i + 1;
      }
      assert chain[..i] == chain;
    }
  }

  lemma NoTypes(cells: Cells, ts: seq<TypeDesc>)
    ensures OwnedByTypes(cells, ts[..0]) == []
  {
  }

  lemma NonNullOfNothing()
    ensures NonNull([]) == []
  {
  }

  lemma RemoveMore(cells: Cells, gone: seq<Ptr>, p: Ptr, other: Ptr)
    ensures cells - Elems(gone + One(p)) - {other} == cells - Elems(gone) - {other} - Elems(One(p))
  {
    assert Elems(gone + One(p)) == Elems(gone) + Elems(One(p));
  }

  lemma {:induction false} NonNullConcat(a: seq<Ptr>, b: seq<Ptr>)
    ensures NonNull(a + b) == NonNull(a) + NonNull(b)
  {
    hide One;
    if b == [] {
      assert a + b == a;
    } else {
      assert NonNull(b) == NonNull(b[..|b| - 1]) + One(b[|b| - 1]);
      var front, last := b[..|b| - 1], b[|b| - 1];
      NonNullConcat(a, front);
      assert (a + b)[..|a + b| - 1] == a + front && (a + b)[|a + b| - 1] == last;
      assert NonNull(a + b) == NonNull(a + front) + One(last);
      hide NonNull;
    }
  }

  lemma NextNameText(names: seq<Ptr>, i: nat)
    requires i < |names|
    ensures NonNull(names[..i + 1]) == NonNull(names[..i]) + One(names[i])
  {
    assert names[..i + 1][..i] == names[..i];
  }

  lemma NextName(cells: Cells, names: seq<Ptr>, i: nat)
    requires i < |names| && Separate(cells, NonNull(names))
    ensures NonNull(names[..i + 1]) == NonNull(names[..i]) + One(names[i])
    ensures names[i] == 0 || (names[i] in cells && names[i] !in NonNull(names[..i]) && names[i] in NonNull(names))
  {
    hide NonNull;
    NextNameText(names, i);
    NonNullConcat(names[..i + 1], names[i + 1..]);
    assert names == names[..i + 1] + names[i + 1..];
    var a, b, c := NonNull(names[..i]), One(names[i]), NonNull(names[i + 1..]);
    SeparateConcat(cells, a + b, c);
    SeparateConcat(cells, a, b);
    if names[i] != 0 {
      assert b[0] == names[i];
      assert names[i] in Elems(b);
      assert (a + b + c)[|a|] == names[i];
    }
  }

  lemma {:induction false} TypesSplit(cells: Cells, ts: seq<TypeDesc>, i: nat)
    requires i < |ts| && forall k | 0 <= k < |ts| :: ValidType(cells, ts[k])
    ensures OwnedByTypes(cells, ts[..i + 1]) == OwnedByTypes(cells, ts[..i]) + OwnedByType(cells, ts[i])
    ensures exists rest :: OwnedByTypes(cells, ts) == OwnedByTypes(cells, ts[..i]) + OwnedByType(cells, ts[i]) + rest
    decreases |ts|
  {
    hide ValidType, OwnedByType;
    assert ts[..i + 1][..i] == ts[..i];
    if i + 1 == |ts| {
      assert ts[..i + 1] == ts;
      assert OwnedByTypes(cells, ts) == OwnedByTypes(cells, ts[..i]) + OwnedByType(cells, ts[i]) + [];
    } else {
      var front := ts[..|ts| - 1];
      TypesSplit(cells, front, i);
      assert front[..i] == ts[..i];
      var rest :| OwnedByTypes(cells, front) == OwnedByTypes(cells, ts[..i]) + OwnedByType(cells, ts[i]) + rest;
      var more := rest + OwnedByType(cells, ts[|ts| - 1]);
      assert OwnedByTypes(cells, ts) == OwnedByTypes(cells, ts[..i]) + OwnedByType(cells, ts[i]) + more;
    }
  }

  /** When the first `i` types of the array at `p` are gone, the next one and
      the array are still as they were. */
  lemma TypeAt(was: Cells, ts: seq<TypeDesc>, i: nat, p: Ptr)
    requires i < |ts| && forall k | 0 <= k < |ts| :: ValidType(was, ts[k])
    requires Separate(was, OwnedByTypes(was, ts) + [p])
    ensures var cells := was - Elems(OwnedByTypes(was, ts[..i]));
      && ValidType(cells, ts[i]) && OwnedByType(cells, ts[i]) == OwnedByType(was, ts[i])
      && Separate(cells, OwnedByType(cells, ts[i]))
      && cells - Elems(OwnedByType(was, ts[i])) == was - Elems(OwnedByTypes(was, ts[..i + 1]))
      && p in cells - Elems(OwnedByType(was, ts[i]))
    ensures OwnedByTypes(was, ts[..i + 1]) == OwnedByTypes(was, ts[..i]) + OwnedByType(was, ts[i])
  {
    hide OwnedByTypes;
    TypesSplit(was, ts, i);
    var a, b := OwnedByTypes(was, ts[..i]), OwnedByType(was, ts[i]);
    var rest :| OwnedByTypes(was, ts) == a + b + rest;
    SeparateConcat(was, a + b + rest, [p]);
    SeparateConcat(was, a + b, rest);
    SeparateConcat(was, a, b);
    MembersOwned(was, ts[i]);
    TypeFrame(was, Elems(a), ts[i]);
    assert [p][0] == p && p in Elems([p]);
    assert Elems(a + b + rest) == Elems(a) + Elems(b) + Elems(rest);
  }

  lemma MembersOwned(cells: Cells, t: TypeDesc)
    requires ValidType(cells, t)
    ensures t.members != 0 ==> t.members in Elems(OwnedByType(cells, t))
  {
    var b := OwnedByType(cells, t);
    assert t.members != 0 ==> b[|b| - 1] == t.members;
  }

  lemma {:induction false} TypesFrame(cells: Cells, gone: set<Ptr>, ts: seq<TypeDesc>)
    requires forall k | 0 <= k < |ts| :: ValidType(cells, ts[k])
    requires Elems(OwnedByTypes(cells, ts)) !! gone
    ensures forall k | 0 <= k < |ts| :: ValidType(cells - gone, ts[k])
    ensures OwnedByTypes(cells - gone, ts) == OwnedByTypes(cells, ts)
  {
    hide ValidType, OwnedByType;
    if ts != [] {
      var front, t := ts[..|ts| - 1], ts[|ts| - 1];
      var a, b := OwnedByTypes(cells, front), OwnedByType(cells, t);
      assert Elems(a + b) == Elems(a) + Elems(b);
      TypesFrame(cells, gone, front);
      MembersOwned(cells, t);
      TypeFrame(cells, gone, t);
    }
  }

  lemma NodeFrame(cells: Cells, gone: set<Ptr>, p: Ptr)
    requires ValidNode(cells, p) && Elems(OwnedByNode(cells, p)) !! gone
    ensures p in cells - gone && cells[p].next == (cells - gone)[p].next
    ensures ValidNode(cells - gone, p) && OwnedByNode(cells - gone, p) == OwnedByNode(cells, p)
  {
    hide OwnedByTypes;
    var a, b := OwnedByTypes(cells, TypesOf(cells, p)), One(cells[p].types);
    var owned := a + b + [p];
    assert owned[|owned| - 1] == p && p in Elems(owned);
    if cells[p].types != 0 {
      assert owned[|a|] == cells[p].types && cells[p].types in Elems(owned);
    }
    assert forall q | q in Elems(a) :: q in owned && q in Elems(owned);
    TypesFrame(cells, gone, TypesOf(cells, p));
  }

  lemma {:induction false} NodesSplit(cells: Cells, chain: seq<Ptr>, i: nat)
    requires i < |chain| && forall k | 0 <= k < |chain| :: ValidNode(cells, chain[k])
    ensures OwnedByList(cells, chain[..i + 1]) == OwnedByList(cells, chain[..i]) + OwnedByNode(cells, chain[i])
    ensures exists rest ::
      OwnedByList(cells, chain) == OwnedByList(cells, chain[..i]) + OwnedByNode(cells, chain[i]) + rest
    decreases |chain|
  {
    hide ValidNode, OwnedByNode;
    assert chain[..i + 1][..i] == chain[..i];
    if i + 1 == |chain| {
      assert chain[..i + 1] == chain;
      assert OwnedByList(cells, chain) == OwnedByList(cells, chain[..i]) + OwnedByNode(cells, chain[i]) + [];
    } else {
      var front := chain[..|chain| - 1];
      NodesSplit(cells, front, i);
      assert front[..i] == chain[..i];
      var rest :| OwnedByList(cells, front) == OwnedByList(cells, chain[..i]) + OwnedByNode(cells, chain[i]) + rest;
      var more := rest + OwnedByNode(cells, chain[|chain| - 1]);
      assert OwnedByList(cells, chain) == OwnedByList(cells, chain[..i]) + OwnedByNode(cells, chain[i]) + more;
    }
  }

  /** When the first `i` nodes are gone, the next one is still as it was. */
  lemma NodeAt(was: Cells, chain: seq<Ptr>, i: nat)
    requires i < |chain| && forall k | 0 <= k < |chain| :: ValidNode(was, chain[k])
    requires Separate(was, OwnedByList(was, chain))
    ensures var cells := was - Elems(OwnedByList(was, chain[..i]));
      && ValidNode(cells, chain[i]) && cells[chain[i]].next == was[chain[i]].next
      && OwnedByNode(cells, chain[i]) == OwnedByNode(was, chain[i])
      && Separate(cells, OwnedByNode(cells, chain[i]))
      && cells - Elems(OwnedByNode(was, chain[i])) == was - Elems(OwnedByList(was, chain[..i + 1]))
  {
    hide OwnedByList;
    NodesSplit(was, chain, i);
    var a, b := OwnedByList(was, chain[..i]), OwnedByNode(was, chain[i]);
    var rest :| OwnedByList(was, chain) == a + b + rest;
    hide OwnedByNode;
    SeparateConcat(was, a + b, rest);
    SeparateConcat(was, a, b);
    NodeFrame(was, Elems(a), chain[i]);
  }

  lemma {:induction false} OwnedByTypesExactly(cells: Cells, ts: seq<TypeDesc>, q: Ptr)
    requires forall i | 0 <= i < |ts| :: ValidType(cells, ts[i])
    ensures q in OwnedByTypes(cells, ts) <==> exists i | 0 <= i < |ts| :: TypeOwns(cells, ts[i], q)
  {
    hide ValidType, TypeOwns, OwnedByType;
    if ts != [] {
      var front, t := ts[..|ts| - 1], ts[|ts| - 1];
      OwnedByTypesExactly(cells, front, q);
      TypeOwnsExactly(cells, t, q);
      assert forall i | 0 <= i < |front| :: front[i] == ts[i];
    }
  }

  lemma OwnedNamesExactly(cells: Cells, t: TypeDesc, q: Ptr)
    requires ValidType(cells, t)
    ensures q in OwnedNames(cells, t) <==> OwnsName(cells, t, q)
  {
    if q in OwnedNames(cells, t) {
      var k :| 0 <= k < |OwnedNames(cells, t)| && OwnedNames(cells, t)[k] == q;
      assert cells[t.members].names[k] == q;
    }
  }

  lemma TypeOwnsExactly(cells: Cells, t: TypeDesc, q: Ptr)
    requires ValidType(cells, t)
    ensures q in OwnedByType(cells, t) <==> TypeOwns(cells, t, q)
  {
    OwnedNamesExactly(cells, t, q);
    NonNullMembers(OwnedNames(cells, t));
    hide NonNull, OwnedNames, OwnsName;
  }

  lemma {:induction false} NonNullMembers(ps: seq<Ptr>)
    ensures forall p :: p in NonNull(ps) <==> p in ps && p != 0
  {
    if ps != [] {
      NonNullMembers(ps[..|ps| - 1]);
    }
  }

  /** Node `p` owns block `q`: itself, its type array, or what its types own. */
  ghost predicate NodeOwns(cells: Cells, p: Ptr, q: Ptr)
    requires ValidNode(cells, p)
  {
    || q == p
    || (q != 0 && q == cells[p].types)
    || exists k | 0 <= k < |TypesOf(cells, p)| :: TypeOwns(cells, TypesOf(cells, p)[k], q)
  }

  lemma OwnedByNodeExactly(cells: Cells, p: Ptr, q: Ptr)
    requires ValidNode(cells, p)
    ensures q in OwnedByNode(cells, p) <==> NodeOwns(cells, p, q)
  {
    hide ValidType, TypeOwns, OwnedByTypes;
    OwnedByTypesExactly(cells, TypesOf(cells, p), q);
  }

  /** What is freed is exactly the nodes, their type arrays, and what the types
      in them own: no block is left out and no other is touched. */
  lemma {:induction false} OwnedByListExactly(cells: Cells, chain: seq<Ptr>, q: Ptr)
    requires forall i | 0 <= i < |chain| :: ValidNode(cells, chain[i])
    ensures q in OwnedByList(cells, chain) <==> exists i | 0 <= i < |chain| :: NodeOwns(cells, chain[i], q)
  {
    hide ValidNode, NodeOwns, OwnedByNode;
    if chain != [] {
      OwnedByListExactly(cells, chain[..|chain| - 1], q);
      OwnedByNodeExactly(cells, chain[|chain| - 1], q);
    }
  }
}
