/** The C variants behind the library's variant objects: which object frees which
    cell, and what each holds, over copies, moves and destruction. */
module VariantCells {
  import opened Options

  /** Address of a C variant. */
  type Ptr = nat

  /** What a C variant holds: a type and data, here by number; 0 is empty. */
  type Content = nat

  const EMPTY: Content := 0

  /** Names a variant object of the program. */
  type Name = string

  /** A variant object: its cell, null after it was moved from, and whether it frees it. */
  datatype Slot = Slot(cell: Option<Ptr>, owned: bool)

  /** The objects alive, the cells allocated with their contents, and those of the
      cells that belong to the C server. */
  datatype State = State(vars: map<Name, Slot>, cells: map<Ptr, Content>, external: set<Ptr>)

  ghost predicate Owns(vars: map<Name, Slot>, x: Name, p: Ptr) {
    x in vars && vars[x] == Slot(Some(p), true)
  }

  ghost predicate HasOwner(vars: map<Name, Slot>, p: Ptr) {
    exists x :: Owns(vars, x, p)
  }

  /** Each cell has exactly one owner: the C server or one object; objects that
      own nothing hold null or a cell of the C server. */
  ghost predicate Disciplined(s: State) {
    && s.external <= s.cells.Keys
    && (forall x | x in s.vars && s.vars[x].owned ::
          s.vars[x].cell.Some? && s.vars[x].cell.value in s.cells && s.vars[x].cell.value !in s.external)
    && (forall x | x in s.vars && !s.vars[x].owned :: s.vars[x].cell.Some? ==> s.vars[x].cell.value in s.external)
    && (forall x, y, p | Owns(s.vars, x, p) && Owns(s.vars, y, p) :: x == y)
    && (forall p | p in s.cells && p !in s.external :: HasOwner(s.vars, p))
  }

  /** `UA_Variant_delete` on what a slot owns. */
  function Release(cells: map<Ptr, Content>, v: Slot): map<Ptr, Content> {
    if v.owned && v.cell.Some? then cells - {v.cell.value} else cells
  }

  datatype Op =
    | Create(x: Name, p: Ptr, content: Content)
    | Set(x: Name, content: Content)
    | Borrow(x: Name, p: Ptr)
    | CopyConstruct(x: Name, y: Name, p: Ptr)
    | MoveConstruct(x: Name, y: Name)
    | CopyAssign(x: Name, y: Name)
    | MoveAssign(x: Name, y: Name)
    | Destroy(x: Name)

  /** What the language and the allocator guarantee: objects come into being
      once, `p` is an unused address, or for a borrow a cell of the C server;
      copies read a cell that is there, and one that is written or assigned to
      is there too. */
  ghost predicate Possible(s: State, op: Op) {
    match op
    case Create(x, p, _) => x !in s.vars && p !in s.cells
    case Set(x, _) => x in s.vars && HasCell(s, x)
    case Borrow(x, p) => x !in s.vars && p in s.external && p in s.cells
    case CopyConstruct(x, y, p) => x !in s.vars && y in s.vars && HasCell(s, y) && p !in s.cells
    case MoveConstruct(x, y) => x !in s.vars && y in s.vars
    case CopyAssign(x, y) => x in s.vars && y in s.vars && HasCell(s, x) && HasCell(s, y)
    case MoveAssign(x, y) => x in s.vars && y in s.vars
    case Destroy(x) => x in s.vars
  }

  predicate HasCell(s: State, x: Name)
    requires x in s.vars
  {
    s.vars[x].cell.Some? && s.vars[x].cell.value in s.cells
  }

  const NULL_SLOT := Slot(None, false)

  function MovedVars(vars: map<Name, Slot>, x: Name, y: Name): map<Name, Slot>
    requires y in vars
  {
    vars[x := vars[y]][y := NULL_SLOT]
  }

  /** An owned target is cleared before the source is read. */
  function CopiedCells(s: State, x: Name, y: Name): map<Ptr, Content>
    requires x in s.vars && y in s.vars && HasCell(s, x) && HasCell(s, y)
  {
    var p := s.vars[x].cell.value;
    var cleared := if s.vars[x].owned then s.cells[p := EMPTY] else s.cells;
    cleared[p := cleared[s.vars[y].cell.value]]
  }

  ghost function Apply(s: State, op: Op): State
    requires Possible(s, op)
  {
    match op
    case Create(x, p, v) => s.(vars := s.vars[x := Slot(Some(p), true)], cells := s.cells[p := v])
    case Set(x, v) => s.(cells := s.cells[s.vars[x].cell.value := v])
    case Borrow(x, p) => s.(vars := s.vars[x := Slot(Some(p), false)])
    case CopyConstruct(x, y, p) =>
      s.(vars := s.vars[x := Slot(Some(p), true)], cells := s.cells[p := s.cells[s.vars[y].cell.value]])
    case MoveConstruct(x, y) => s.(vars := MovedVars(s.vars, x, y))
    case CopyAssign(x, y) => s.(vars := s.vars[x := s.vars[x].(owned := true)], cells := CopiedCells(s, x, y))
    case MoveAssign(x, y) => s.(vars := MovedVars(s.vars, x, y), cells := Release(s.cells, s.vars[x]))
    case Destroy(x) => s.(vars := s.vars - {x}, cells := Release(s.cells, s.vars[x]))
  }

  /** Every operation but copy assignment keeps the discipline, self-assignment
      by move included; copy assignment keeps it exactly when its target owns
      its cell. A borrowing target would claim the C server's cell as its own. */
  lemma StepKeepsDisciplineIff(s: State, op: Op)
    requires Disciplined(s) && Possible(s, op)
    ensures Disciplined(Apply(s, op)) <==> (op.CopyAssign? ==> s.vars[op.x].owned)
  {
    match op
    case Create(x, p, v) => FreshOwnerKeeps(s, x, p, v);
    case Set(_, _) =>
    case CopyConstruct(x, y, p) => FreshOwnerKeeps(s, x, p, s.cells[s.vars[y].cell.value]);
    case Borrow(x, p) => BorrowKeeps(s, x, p);
    case MoveConstruct(x, y) => MoveKeeps(s, x, y);
    case MoveAssign(x, y) => MoveKeeps(s, x, y);
    case Destroy(x) => DestroyKeeps(s, x);
    case CopyAssign(x, _) =>
      if s.vars[x].owned {
        assert Apply(s, op).vars == s.vars;
      } else {
        assert Apply(s, op).vars[x].owned;
      }
  }

  lemma FreshOwnerKeeps(s: State, x: Name, p: Ptr, v: Content)
    requires Disciplined(s) && x !in s.vars && p !in s.cells
    ensures Disciplined(s.(vars := s.vars[x := Slot(Some(p), true)], cells := s.cells[p := v]))
  {
    var s' := s.(vars := s.vars[x := Slot(Some(p), true)], cells := s.cells[p := v]);
    forall q | q in s'.cells && q !in s'.external
      ensures HasOwner(s'.vars, q)
    {
      if q == p {
        assert Owns(s'.vars, x, q);
      } else {
        assert HasOwner(s.vars, q);
        var z :| Owns(s.vars, z, q);
        assert Owns(s'.vars, z, q);
      }
    }
    assert forall z, q | z != x && Owns(s'.vars, z, q) :: Owns(s.vars, z, q);
  }

  lemma BorrowKeeps(s: State, x: Name, p: Ptr)
    requires Disciplined(s) && x !in s.vars && p in s.external
    ensures Disciplined(s.(vars := s.vars[x := Slot(Some(p), false)]))
  {
    var s' := s.(vars := s.vars[x := Slot(Some(p), false)]);
    assert forall z, q :: Owns(s'.vars, z, q) <==> Owns(s.vars, z, q);
  }

  /** Releasing what one object owns leaves the cells of the others alone. */
  lemma OwnedElsewhere(s: State, x: Name)
    requires Disciplined(s) && x in s.vars
    ensures forall z | z in s.vars && z != x && s.vars[z].owned :: s.vars[z].cell.value in Release(s.cells, s.vars[x])
    ensures s.external <= Release(s.cells, s.vars[x]).Keys
  {
    forall z | z in s.vars && z != x && s.vars[z].owned
      ensures s.vars[z].cell.value in Release(s.cells, s.vars[x])
    {
      assert Owns(s.vars, z, s.vars[z].cell.value);
      if s.vars[x].owned {
        assert Owns(s.vars, x, s.vars[x].cell.value);
      }
    }
  }

  /** A move hands the cell of `y`, owned or borrowed, to `x`, leaves `y` with null,
      and changes no other object. */
  lemma SlotsAfterMove(vars: map<Name, Slot>, x: Name, y: Name)
    requires y in vars
    ensures var after := MovedVars(vars, x, y);
      && after.Keys == vars.Keys + {x}
      && after[y].cell.None? && !after[y].owned
      && (x != y ==> after[x] == vars[y])
      && forall z | z in vars && z != x && z != y :: after[z] == vars[z]
  {
  }

  /** A move hands the ownership of `y`'s cell to `x` and changes no other. */
  lemma OwnersAfterMove(vars: map<Name, Slot>, x: Name, y: Name, z: Name, q: Ptr)
    requires y in vars
    ensures Owns(MovedVars(vars, x, y), z, q) <==> z != y && Owns(vars, if z == x then y else z, q)
  {
  }

  /** Moving into a new object, into another one, or into itself. */
  lemma MoveKeeps(s: State, x: Name, y: Name)
    requires Disciplined(s) && y in s.vars
    ensures var cells := if x in s.vars then Release(s.cells, s.vars[x]) else s.cells;
      Disciplined(s.(vars := MovedVars(s.vars, x, y), cells := cells))
  {
    var cells := if x in s.vars then Release(s.cells, s.vars[x]) else s.cells;
    var vars := MovedVars(s.vars, x, y);
    if x in s.vars {
      OwnedElsewhere(s, x);
    }
    forall z, w, q | Owns(vars, z, q) && Owns(vars, w, q)
      ensures z == w
    {
      OwnersAfterMove(s.vars, x, y, z, q);
      OwnersAfterMove(s.vars, x, y, w, q);
    }
    forall q | q in cells && q !in s.external
      ensures HasOwner(vars, q)
    {
      assert HasOwner(s.vars, q);
      var z :| Owns(s.vars, z, q);
      OwnersAfterMove(s.vars, x, y, if z == y then x else z, q);
    }
  }

  lemma DestroyKeeps(s: State, x: Name)
    requires Disciplined(s) && x in s.vars
    ensures Disciplined(s.(vars := s.vars - {x}, cells := Release(s.cells, s.vars[x])))
  {
    var s' := s.(vars := s.vars - {x}, cells := Release(s.cells, s.vars[x]));
    OwnedElsewhere(s, x);
    assert forall z, q | Owns(s'.vars, z, q) :: Owns(s.vars, z, q);
    forall q | q in s'.cells && q !in s'.external
      ensures HasOwner(s'.vars, q)
    {
      assert HasOwner(s.vars, q);
      var z :| Owns(s.vars, z, q);
      assert Owns(s'.vars, z, q);
    }
  }

  // ----- Runs -----

  ghost predicate IsRun(states: seq<State>, ops: seq<Op>) {
    && |states| == |ops| + 1
    && forall i | 0 <= i < |ops| :: Possible(states[i], ops[i]) && states[i + 1] == Apply(states[i], ops[i])
  }

  /** Every copy assignment of the run has an owning target. */
  ghost predicate AssignsToOwners(states: seq<State>, ops: seq<Op>)
    requires IsRun(states, ops)
  {
    forall i | 0 <= i < |ops| && ops[i].CopyAssign? :: states[i].vars[ops[i].x].owned
  }

  /** In such a run every state is disciplined, so nothing is freed twice; and
      when all objects are gone only the C server's cells are left. */
  lemma {:induction false} RunIsDisciplined(states: seq<State>, ops: seq<Op>, i: nat)
    requires IsRun(states, ops) && AssignsToOwners(states, ops) && Disciplined(states[0]) && i < |states|
    ensures Disciplined(states[i])
    ensures states[i].vars == map[] ==> states[i].cells.Keys == states[i].external
  {
    hide Disciplined;
    if i > 0 {
      RunIsDisciplined(states, ops, i - 1);
      assert states[i - 1 + 1] == Apply(states[i - 1], ops[i - 1]);
      StepKeepsDisciplineIff(states[i - 1], ops[i - 1]);
    }
    if states[i].vars == map[] {
      OnlyExternalLeft(states[i]);
    }
  }

  lemma OnlyExternalLeft(s: State)
    requires Disciplined(s) && s.vars == map[]
    ensures s.cells.Keys == s.external
  {
    forall p | p in s.cells
      ensures p in s.external
    {
      assert !HasOwner(s.vars, p);
    }
  }

  /** In a disciplined state a destructor frees a cell that is there, and not
      one of the C server's. */
  lemma DestructorFreesOnce(s: State, x: Name)
    requires Disciplined(s) && x in s.vars && s.vars[x].owned
    ensures s.vars[x].cell.Some? && s.vars[x].cell.value in s.cells && s.vars[x].cell.value !in s.external
    ensures forall y | y in Apply(s, Destroy(x)).vars :: Apply(s, Destroy(x)).vars[y].cell != s.vars[x].cell
  {
    forall y | y in s.vars && y != x
      ensures s.vars[y].cell != s.vars[x].cell
    {
      if s.vars[y].owned {
        assert Owns(s.vars, y, s.vars[y].cell.value) && Owns(s.vars, x, s.vars[x].cell.value);
      }
    }
  }

  // ----- What the objects hold -----

  /** The content an object shows; None after it was moved from. */
  function Shows(s: State, x: Name): Option<Content> {
    if x in s.vars && HasCell(s, x) then Some(s.cells[s.vars[x].cell.value]) else None
  }

  /** Objects are values: a new object holds what it was made from, a copied object
      keeps its content and a moved one gives it away. */
  lemma OperationsGive(s: State, op: Op)
    requires Disciplined(s) && Possible(s, op)
    ensures var s' := Apply(s, op);
      match op
      case Create(x, _, v) => Shows(s', x) == Some(v)
      case Set(x, v) => Shows(s', x) == Some(v)
      case Borrow(x, p) => Shows(s', x) == Some(s.cells[p])
      case CopyConstruct(x, y, _) => Shows(s', x) == Shows(s, y)
      case MoveConstruct(x, y) => Shows(s', x) == Shows(s, y) && Shows(s', y) == None
      case CopyAssign(x, y) => true
      case MoveAssign(x, y) => Shows(s', y) == None && (x != y ==> Shows(s', x) == Shows(s, y))
      case Destroy(x) => x !in s'.vars
  {
    if op.MoveAssign? && op.x != op.y && s.vars[op.x].owned {
      DifferentOwners(s, op.x, op.y);
    }
  }

  lemma DifferentOwners(s: State, x: Name, y: Name)
    requires Disciplined(s) && x in s.vars && y in s.vars && x != y && s.vars[x].owned
    ensures s.vars[y].cell != s.vars[x].cell
  {
    if s.vars[y].owned && s.vars[y].cell.Some? {
      assert Owns(s.vars, x, s.vars[x].cell.value) && Owns(s.vars, y, s.vars[y].cell.value);
    }
  }

  /** The cell an operation writes to. */
  function Target(op: Op): Option<Name> {
    match op case Set(x, _) => Some(x) case CopyAssign(x, _) => Some(x) case _ => None
  }

  /** No operation changes what another object shows, except that writing through a
      borrowing object shows in the others that borrow the same cell. */
  lemma OthersKeep(s: State, op: Op, z: Name)
    requires Disciplined(s) && Possible(s, op) && z in s.vars && z != op.x
    requires (op.MoveConstruct? || op.MoveAssign?) ==> z != op.y
    requires Target(op).Some? ==> s.vars[op.x].owned || s.vars[z].cell != s.vars[op.x].cell
    ensures Shows(Apply(s, op), z) == Shows(s, z)
  {
    if op.x in s.vars && s.vars[op.x].owned {
      DifferentOwners(s, op.x, z);
    }
  }

  /** Copy assignment to an owner makes the target show what the source showed,
      exactly when they are different objects or the source is empty: an object
      that is assigned to itself is cleared before it is read. */
  lemma CopyAssignGivesIff(s: State, x: Name, y: Name)
    requires Disciplined(s) && Possible(s, CopyAssign(x, y)) && s.vars[x].owned
    ensures Shows(Apply(s, CopyAssign(x, y)), x) == Shows(s, y) <==> x != y || Shows(s, y) == Some(EMPTY)
    ensures x == y ==> Shows(Apply(s, CopyAssign(x, y)), x) == Some(EMPTY)
  {
    if x != y {
      DifferentOwners(s, x, y);
    }
  }

  /** The variant objects of a program, changed in place. */
  class Variants {
    var vars: map<Name, Slot>
    var cells: map<Ptr, Content>
    const external: set<Ptr>

    function Current(): State
      reads this
    {
      State(vars, cells, external)
    }

    constructor (server: map<Ptr, Content>)
      ensures Current() == State(map[], server, server.Keys) && Disciplined(Current())
    {
      external := server.Keys;
      vars, cells := map[], server;
    }

    method Delete(p: Option<Ptr>)
      requires p.Some? && p.value in cells
      modifies `cells
      ensures cells == old(cells) - {p.value}
    {
      cells := cells - {p.value};
    }

    /** `Variant()` and `Variant(value)`. */
    method Create(x: Name, p: Ptr, content: Content)
      requires Disciplined(Current()) && Possible(Current(), Op.Create(x, p, content))
      modifies this
      ensures Current() == Apply(old(Current()), Op.Create(x, p, content)) && Disciplined(Current())
    {
      StepKeepsDisciplineIff(Current(), Op.Create(x, p, content));
      cells := cells[p := EMPTY];
      vars := vars[x := Slot(Some(p), true)];
      cells := cells[p := content];
    }

    method CopyConstruct(x: Name, y: Name, p: Ptr)
      requires Disciplined(Current()) && Possible(Current(), Op.CopyConstruct(x, y, p))
      modifies this
      ensures Current() == Apply(old(Current()), Op.CopyConstruct(x, y, p)) && Disciplined(Current())
      ensures Shows(Current(), x) == old(Shows(Current(), y)) == Shows(Current(), y)
    {
      StepKeepsDisciplineIff(Current(), Op.CopyConstruct(x, y, p));
      cells := cells[p := EMPTY];
      cells := cells[p := cells[vars[y].cell.value]];
      vars := vars[x := Slot(Some(p), true)];
    }

    method CopyAssign(x: Name, y: Name)
      requires Disciplined(Current()) && Possible(Current(), Op.CopyAssign(x, y))
      modifies this
      ensures Current() == Apply(old(Current()), Op.CopyAssign(x, y))
      ensures Disciplined(Current()) <==> old(vars[x].owned)
      ensures vars == old(vars)[x := Slot(old(vars[x].cell), true)] && cells.Keys == old(cells.Keys)
      ensures x != y && old(vars[x].owned) ==> Shows(Current(), x) == old(Shows(Current(), y)) == Shows(Current(), y)
    {
      StepKeepsDisciplineIff(Current(), Op.CopyAssign(x, y));
      if vars[x].owned {
        CopyAssignGivesIff(Current(), x, y);
        if x != y {
          OthersKeep(Current(), Op.CopyAssign(x, y), y);
        }
        cells := cells[vars[x].cell.value := EMPTY];
      }
      vars := vars[x := vars[x].(owned := true)];
      cells := cells[vars[x].cell.value := cells[vars[y].cell.value]];
    }

    method MoveConstruct(x: Name, y: Name)
      requires Disciplined(Current()) && Possible(Current(), Op.MoveConstruct(x, y))
      modifies this
      ensures Current() == Apply(old(Current()), Op.MoveConstruct(x, y)) && Disciplined(Current())
      ensures vars == old(vars)[x := old(vars[y])][y := Slot(None, false)] && cells == old(cells)
    {
      StepKeepsDisciplineIff(Current(), Op.MoveConstruct(x, y));
      vars := vars[x := vars[y]];
      vars := vars[y := NULL_SLOT];
    }

    method MoveAssign(x: Name, y: Name)
      requires Disciplined(Current()) && Possible(Current(), Op.MoveAssign(x, y))
      modifies this
      ensures Current() == Apply(old(Current()), Op.MoveAssign(x, y)) && Disciplined(Current())
      ensures vars[y] == Slot(None, false) && (x != y ==> vars[x] == old(vars[y]))
      ensures cells == if old(vars[x].owned) then old(cells) - {old(vars[x].cell.value)} else old(cells)
      ensures vars.Keys == old(vars.Keys) && forall z | z in vars && z != x && z != y :: vars[z] == old(vars[z])
    {
      StepKeepsDisciplineIff(Current(), Op.MoveAssign(x, y));
      assert vars[x].owned ==> vars[x].cell.Some? && vars[x].cell.value in cells;
      hide Disciplined;
      if vars[x].owned {
        Delete(vars[x].cell);
      }
      vars := vars[x := vars[y]];
      vars := vars[y := NULL_SLOT];
    }

    method Destroy(x: Name)
      requires Disciplined(Current()) && Possible(Current(), Op.Destroy(x))
      modifies this
      ensures Current() == Apply(old(Current()), Op.Destroy(x)) && Disciplined(Current())
      ensures vars == old(vars) - {x}
      ensures cells == if old(vars[x].owned) then old(cells) - {old(vars[x].cell.value)} else old(cells)
    {
      StepKeepsDisciplineIff(Current(), Op.Destroy(x));
      if vars[x].owned {
        Delete(vars[x].cell);
      }
      vars := vars - {x};
    }
  }

  /** Assigning a copy to a borrowing object makes its destructor free the C
      server's cell. */
  lemma BorrowerFreesServersCell()
    ensures var vars := map["borrower" := Slot(Some(0), false), "other" := Slot(Some(1), true)];
      var s := State(vars, map[0 := 7, 1 := 8], {0});
      && Disciplined(s) && Possible(s, CopyAssign("borrower", "other"))
      && 0 !in Apply(Apply(s, CopyAssign("borrower", "other")), Destroy("borrower")).cells
  {
    var vars := map["borrower" := Slot(Some(0), false), "other" := Slot(Some(1), true)];
    var s := State(vars, map[0 := 7, 1 := 8], {0});
    assert "borrower"[0] != "other"[0];
    assert Owns(s.vars, "other", 1);
  }
}
