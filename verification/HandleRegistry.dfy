/** The server's registry of node handles, the address space behind it, and the
    raw pointers that the C server keeps into objects owned by handles. */
module HandleRegistry {
  import opened Options
  import opened OpcNodeId

  datatype NodeClass = ObjectClass | MethodClass | VariableClass | OtherClass

  /** Address of a heap object: a callable or a data source. */
  type Ptr = nat

  /** A shared pointer to a node handle; two are the same object when equal. */
  type Handle = nat

  /** The context pointer of a node in the C server. */
  datatype Context = NoContext | User(tag: nat) | CallableAt(p: Ptr) | SourceAt(p: Ptr)

  /** The nodes of the address space. */
  type Space = map<UaNodeId, NodeClass>

  datatype State = State(
    // the C server: nodes are never removed and keep their class
    space: Space,
    context: map<UaNodeId, Context>,
    // the caches of handles
    objects: map<NodeId, Handle>,
    methods: map<NodeId, Handle>,
    variables: map<NodeId, Handle>,
    // how many handles exist, what each owns, and the heap
    handles: nat,
    owned: map<Handle, Ptr>,
    live: set<Ptr>)

  function Cache(s: State, c: NodeClass): map<NodeId, Handle> {
    match c
    case ObjectClass => s.objects
    case MethodClass => s.methods
    case VariableClass => s.variables
    case OtherClass => map[]
  }

  function WithCache(s: State, c: NodeClass, m: map<NodeId, Handle>): State {
    match c
    case ObjectClass => s.(objects := m)
    case MethodClass => s.(methods := m)
    case VariableClass => s.(variables := m)
    case OtherClass => s
  }

  // ----- The C server -----

  /** A numeric identifier 0 asks the server to choose an id. */
  predicate AsksForId(u: UaNodeId) {
    u.identifier.UaNumeric? && u.identifier.numeric == 0
  }

  /** Adding a node fails on an id that exists, and whenever the server does not
      accept the request for another reason. */
  function AddNode(s: State, u: UaNodeId, c: NodeClass, accepted: bool, chosen: UaNodeId): Option<State> {
    var id := if AsksForId(u) then chosen else u;
    if !accepted || id in s.space then None
    else Some(s.(space := s.space[id := c], context := s.context[id := NoContext]))
  }

  /** Setting a context does nothing when there is no such node. */
  function SetContext(s: State, u: UaNodeId, c: Context): State {
    if u in s.space then s.(context := s.context[u := c]) else s
  }

  // ----- Creating and looking up handles -----

  /** `emplace`: an entry that is there already stays. */
  function Emplace(m: map<NodeId, Handle>, id: NodeId, h: Handle): map<NodeId, Handle> {
    if id in m then m else m[id := h]
  }

  function NewHandle(s: State, c: NodeClass, id: NodeId): State {
    WithCache(s, c, Emplace(Cache(s, c), id, s.handles)).(handles := s.handles + 1)
  }

  /** `createObject`, `createMethod`, `createVariable`: the new state and the
      handle returned, null on failure. Only objects are given a context. */
  function Create(s: State, c: NodeClass, id: NodeId, context: Context, accepted: bool, chosen: UaNodeId)
    : (State, Option<Handle>)
    requires Consistent(id)
  {
    match AddNode(s, ToUa(id), c, accepted, chosen)
    case None => (s, None)
    case Some(added) =>
      var ready := if c == ObjectClass then SetContext(added, ToUa(id), context) else added;
      (NewHandle(ready, c, id), Some(s.handles))
  }

  /** The answer of the address space alone. */
  predicate Exists(s: State, c: NodeClass, id: NodeId)
    requires Consistent(id)
  {
    ToUa(id) in s.space && s.space[ToUa(id)] == c
  }

  /** `getObject`, `getMethod`, `getVariable`. */
  function Get(s: State, c: NodeClass, id: NodeId): (State, Option<Handle>)
    requires Consistent(id)
  {
    if id in Cache(s, c) then (s, Some(Cache(s, c)[id]))
    else if !Exists(s, c, id) then (s, None)
    else (NewHandle(s, c, id), Some(s.handles))
  }

  // ----- Binding -----

  function Allocate(s: State, p: Ptr): State {
    s.(live := s.live + {p})
  }

  /** The handle takes ownership of `p` and frees what it owned before. */
  function TakeOwnership(s: State, h: Handle, p: Ptr): State {
    var freed := if h in s.owned then s.live - {s.owned[h]} else s.live;
    s.(owned := s.owned[h := p], live := freed)
  }

  /** `bindCallable` on the handle of `id`: a new callable replaces the old one,
      and only then the server is told. */
  function BindCallable(s: State, id: NodeId, p: Ptr): State
    requires Consistent(id) && id in s.methods
  {
    SetContext(TakeOwnership(Allocate(s, p), s.methods[id], p), ToUa(id), CallableAt(p))
  }

  /** `connectCallback` on the handle of `id`: the server is told first, then
      the old data source is replaced. */
  function ConnectSource(s: State, id: NodeId, p: Ptr): State
    requires Consistent(id) && id in s.variables
  {
    TakeOwnership(SetContext(Allocate(s, p), ToUa(id), SourceAt(p)), s.variables[id], p)
  }

  // ----- The invariant -----

  type Handles = map<NodeId, Handle>

  /** Every handle of the cache stands for a node of class `c`. */
  ghost predicate Agrees(space: Space, c: NodeClass, m: Handles) {
    forall id | id in m :: Consistent(id) && ToUa(id) in space && space[ToUa(id)] == c
  }

  ghost predicate CachesAgree(s: State) {
    && Agrees(s.space, ObjectClass, s.objects) && Agrees(s.space, MethodClass, s.methods)
    && Agrees(s.space, VariableClass, s.variables)
  }

  ghost predicate Below(m: Handles, n: nat) {
    forall id | id in m :: m[id] < n
  }

  ghost predicate Injective(m: Handles) {
    forall id, id' | id in m && id' in m && id != id' :: m[id] != m[id']
  }

  ghost predicate Disjoint(m: Handles, m': Handles) {
    forall id, id' | id in m && id' in m' :: m[id] != m'[id']
  }

  /** Handles are distinct objects, within a cache and across caches. */
  ghost predicate HandlesDistinct(objects: Handles, methods: Handles, variables: Handles, handles: nat) {
    && Below(objects, handles) && Below(methods, handles) && Below(variables, handles)
    && Injective(objects) && Injective(methods) && Injective(variables)
    && Disjoint(objects, methods) && Disjoint(objects, variables) && Disjoint(methods, variables)
  }

  /** Each live pointer has exactly one owner. */
  ghost predicate OwnershipExact(owned: map<Handle, Ptr>, live: set<Ptr>, handles: nat) {
    && (forall h | h in owned :: owned[h] in live && h < handles)
    && (forall p | p in live :: exists h :: h in owned && owned[h] == p)
    && (forall h, h' | h in owned && h' in owned && h != h' :: owned[h] != owned[h'])
  }

  /** A handle of node `u` in `m` owns `p`. */
  ghost predicate OwnedFor(m: Handles, owned: map<Handle, Ptr>, u: UaNodeId, p: Ptr) {
    exists id :: id in m && Consistent(id) && ToUa(id) == u && m[id] in owned && owned[m[id]] == p
  }

  /** The pointer kept for a node is one that a registered handle of this very
      node owns, and of the kind the node's class is used with. */
  ghost predicate ContextOwned(c: NodeClass, x: Context, s: State, u: UaNodeId) {
    match x
    case NoContext => true
    case User(_) => c == ObjectClass
    case CallableAt(p) => c == MethodClass && OwnedFor(s.methods, s.owned, u, p)
    case SourceAt(p) => c == VariableClass && OwnedFor(s.variables, s.owned, u, p)
  }

  ghost predicate ContextsOwned(s: State) {
    s.context.Keys == s.space.Keys && forall u | u in s.space :: ContextOwned(s.space[u], s.context[u], s, u)
  }

  /** A node whose handle has bound something has a pointer to follow. */
  ghost predicate BoundAreConnected(s: State) {
    && (forall id | id in s.methods && s.methods[id] in s.owned ::
          Consistent(id) && ToUa(id) in s.context && s.context[ToUa(id)].CallableAt?)
    && (forall id | id in s.variables && s.variables[id] in s.owned ::
          Consistent(id) && ToUa(id) in s.context && s.context[ToUa(id)].SourceAt?)
  }

  ghost predicate NoNullIds(space: Space) {
    forall u | u in space :: !AsksForId(u)
  }

  ghost predicate Invariant(s: State) {
    && CachesAgree(s) && NoNullIds(s.space)
    && HandlesDistinct(s.objects, s.methods, s.variables, s.handles)
    && OwnershipExact(s.owned, s.live, s.handles) && ContextsOwned(s) && BoundAreConnected(s)
  }

  /** No node keeps a pointer to freed memory. */
  ghost predicate ContextsLive(s: State) {
    forall u | u in s.context :: (s.context[u].CallableAt? || s.context[u].SourceAt?) ==> s.context[u].p in s.live
  }

  lemma InvariantGivesLiveness(s: State)
    requires Invariant(s)
    ensures ContextsLive(s)
  {
    forall u | u in s.context && (s.context[u].CallableAt? || s.context[u].SourceAt?)
      ensures s.context[u].p in s.live
    {
      assert ContextOwned(s.space[u], s.context[u], s, u);
    }
  }

  /** What a callback finds in the context of its node is nothing or a live
      object of the type it is cast to. */
  lemma CallbackCastIsSafe(s: State, u: UaNodeId)
    requires Invariant(s) && u in s.space
    ensures s.space[u] == MethodClass ==>
      s.context[u].NoContext? || (s.context[u].CallableAt? && s.context[u].p in s.live)
    ensures s.space[u] == VariableClass ==>
      s.context[u].NoContext? || (s.context[u].SourceAt? && s.context[u].p in s.live)
  {
    InvariantGivesLiveness(s);
    assert ContextOwned(s.space[u], s.context[u], s, u);
  }

  // ----- Every operation keeps the invariant -----

  /** New nodes, given no context yet. */
  function AddNodes(s: State, nodes: Space): State {
    s.(space := s.space + nodes, context := s.context + map u | u in nodes :: NoContext)
  }

  lemma AddNodesKeepsContexts(s: State, nodes: Space)
    requires ContextsOwned(s) && nodes.Keys !! s.space.Keys
    ensures ContextsOwned(AddNodes(s, nodes))
  {
    hide OwnedFor;
    var s' := AddNodes(s, nodes);
    assert s'.context.Keys == s'.space.Keys;
    forall u | u in s'.space
      ensures ContextOwned(s'.space[u], s'.context[u], s', u)
    {
      if u in s.space {
        assert u !in nodes;
        assert ContextOwned(s.space[u], s.context[u], s, u);
      }
    }
  }

  lemma AgreesAsTheSpaceGrows(space: Space, nodes: Space, c: NodeClass, m: Handles)
    requires Agrees(space, c, m) && nodes.Keys !! space.Keys
    ensures Agrees(space + nodes, c, m)
  {
    hide ToUa;
  }

  lemma AddNodesKeepsBound(s: State, nodes: Space)
    requires BoundAreConnected(s) && s.context.Keys == s.space.Keys && nodes.Keys !! s.space.Keys
    ensures BoundAreConnected(AddNodes(s, nodes))
  {
    hide ToUa;
    assert forall u | u in s.context :: u !in nodes;
  }

  lemma AddNodesKeeps(s: State, nodes: Space)
    requires Invariant(s) && nodes.Keys !! s.space.Keys && NoNullIds(nodes)
    ensures Invariant(AddNodes(s, nodes))
  {
    hide HandlesDistinct, OwnershipExact, ContextOwned, BoundAreConnected, AsksForId, Agrees;
    AddNodesKeepsContexts(s, nodes);
    AddNodesKeepsBound(s, nodes);
    AgreesAsTheSpaceGrows(s.space, nodes, ObjectClass, s.objects);
    AgreesAsTheSpaceGrows(s.space, nodes, MethodClass, s.methods);
    AgreesAsTheSpaceGrows(s.space, nodes, VariableClass, s.variables);
  }

  lemma UserContextKeeps(s: State, u: UaNodeId, x: Context)
    requires Invariant(s) && u in s.space && s.space[u] == ObjectClass && (x.User? || x.NoContext?)
    ensures Invariant(SetContext(s, u, x))
  {
    hide HandlesDistinct, OwnershipExact, OwnedFor;
    var s' := SetContext(s, u, x);
    forall v | v in s'.space
      ensures ContextOwned(s'.space[v], s'.context[v], s', v)
    {
      assert ContextOwned(s.space[v], s.context[v], s, v);
    }
  }

  lemma FreshHandleFits(m: Handles, id: NodeId, h: Handle, other: Handles)
    requires Below(m, h) && Below(other, h) && Injective(m) && Disjoint(m, other)
    ensures Below(m[id := h], h + 1) && Below(other, h + 1) && Injective(m[id := h])
    ensures Disjoint(m[id := h], other) && Disjoint(other, m[id := h])
  {
  }

  lemma NewHandleIsDistinct(s: State, c: NodeClass, id: NodeId)
    requires HandlesDistinct(s.objects, s.methods, s.variables, s.handles) && id !in Cache(s, c) && c != OtherClass
    ensures var s' := NewHandle(s, c, id); HandlesDistinct(s'.objects, s'.methods, s'.variables, s'.handles)
  {
    hide Injective, Below;
    match c
    case ObjectClass =>
      FreshHandleFits(s.objects, id, s.handles, s.methods);
      FreshHandleFits(s.objects, id, s.handles, s.variables);
    case MethodClass =>
      FreshHandleFits(s.methods, id, s.handles, s.objects);
      FreshHandleFits(s.methods, id, s.handles, s.variables);
    case VariableClass =>
      FreshHandleFits(s.variables, id, s.handles, s.objects);
      FreshHandleFits(s.variables, id, s.handles, s.methods);
  }

  lemma OwnedForGrows(m: Handles, m': Handles, owned: map<Handle, Ptr>, u: UaNodeId, p: Ptr)
    requires OwnedFor(m, owned, u, p) && forall id | id in m :: id in m' && m'[id] == m[id]
    ensures OwnedFor(m', owned, u, p)
  {
    var id :| id in m && Consistent(id) && ToUa(id) == u && m[id] in owned && owned[m[id]] == p;
    assert id in m';
  }

  lemma NewHandleKeepsContexts(s: State, c: NodeClass, id: NodeId)
    requires ContextsOwned(s)
    ensures ContextsOwned(NewHandle(s, c, id))
  {
    hide OwnedFor;
    var s' := NewHandle(s, c, id);
    forall u | u in s'.space
      ensures ContextOwned(s'.space[u], s'.context[u], s', u)
    {
      assert ContextOwned(s.space[u], s.context[u], s, u);
      match s.context[u]
      case CallableAt(p) => OwnedForGrows(s.methods, s'.methods, s.owned, u, p);
      case SourceAt(p) => OwnedForGrows(s.variables, s'.variables, s.owned, u, p);
      case _ =>
    }
  }

  lemma NewHandleKeepsBound(s: State, c: NodeClass, id: NodeId)
    requires BoundAreConnected(s) && s.handles !in s.owned && id !in Cache(s, c)
    ensures BoundAreConnected(NewHandle(s, c, id))
  {
    hide ToUa;
  }

  lemma NewHandleKeeps(s: State, c: NodeClass, id: NodeId)
    requires Invariant(s) && c != OtherClass && Consistent(id) && Exists(s, c, id) && id !in Cache(s, c)
    ensures Invariant(NewHandle(s, c, id))
  {
    hide HandlesDistinct, ContextOwned, NoNullIds, ToUa;
    NewHandleIsDistinct(s, c, id);
    NewHandleKeepsContexts(s, c, id);
    var s' := NewHandle(s, c, id);
    assert s.handles !in s.owned;
    assert OwnershipExact(s'.owned, s'.live, s'.handles);
    hide OwnershipExact;
    NewHandleKeepsBound(s, c, id);
  }

  lemma AddOne<K, V>(m: map<K, V>, k: K, v: V)
    ensures m + map[k := v] == m[k := v]
  {
  }

  lemma AddNodeIsAddNodes(s: State, u: UaNodeId, c: NodeClass, accepted: bool, chosen: UaNodeId)
    requires !AsksForId(u) && accepted && u !in s.space
    ensures AddNode(s, u, c, accepted, chosen) == Some(AddNodes(s, map[u := c]))
    ensures AddNodes(s, map[u := c]).space == s.space[u := c]
  {
    hide AsksForId;
    AddOne(s.space, u, c);
    AddOne(s.context, u, NoContext);
    assert (map v | v in map[u := c] :: NoContext) == map[u := NoContext];
  }

  lemma AddNodeKeeps(s: State, u: UaNodeId, c: NodeClass, accepted: bool, chosen: UaNodeId) returns (added: State)
    requires Invariant(s) && !AsksForId(u) && accepted && u !in s.space
    ensures AddNode(s, u, c, accepted, chosen) == Some(added) && Invariant(added)
    ensures added.space == s.space[u := c]
    ensures added.objects == s.objects && added.methods == s.methods && added.variables == s.variables
  {
    hide Invariant, AsksForId, AddNode;
    AddNodeIsAddNodes(s, u, c, accepted, chosen);
    AddNodesKeeps(s, map[u := c]);
    added := AddNodes(s, map[u := c]);
  }

  /** Creating with an id that is not the "choose one" id keeps the invariant,
      and the new handle really is inserted. */
  lemma CreateKeeps(s: State, c: NodeClass, id: NodeId, context: Context, accepted: bool, chosen: UaNodeId)
    requires Invariant(s) && c != OtherClass && Consistent(id) && !AsksForId(ToUa(id))
    requires context.User? || context.NoContext?
    ensures Invariant(Create(s, c, id, context, accepted, chosen).0)
    ensures Create(s, c, id, context, accepted, chosen).1.Some? ==> id !in Cache(s, c)
  {
    hide HandlesDistinct, OwnershipExact, ContextsOwned, BoundAreConnected, ToUa, NoNullIds;
    var u := ToUa(id);
    if accepted && u !in s.space {
      var added := AddNodeKeeps(s, u, c, accepted, chosen);
      if c == ObjectClass {
        UserContextKeeps(added, u, context);
        NewHandleKeeps(SetContext(added, u, context), c, id);
      } else {
        NewHandleKeeps(added, c, id);
      }
    }
  }

  lemma GetKeeps(s: State, c: NodeClass, id: NodeId)
    requires Invariant(s) && c != OtherClass && Consistent(id)
    ensures Invariant(Get(s, c, id).0)
  {
    if id !in Cache(s, c) && Exists(s, c, id) {
      NewHandleKeeps(s, c, id);
    }
  }

  lemma TakingOwnershipIsExact(s: State, h: Handle, p: Ptr)
    requires OwnershipExact(s.owned, s.live, s.handles) && p !in s.live && h < s.handles
    ensures var s' := TakeOwnership(Allocate(s, p), h, p); OwnershipExact(s'.owned, s'.live, s'.handles)
  {
    var s' := TakeOwnership(Allocate(s, p), h, p);
    forall q | q in s'.live
      ensures exists k :: k in s'.owned && s'.owned[k] == q
    {
      if q == p {
        assert h in s'.owned;
      } else {
        var k :| k in s.owned && s.owned[k] == q;
        assert k in s'.owned;
      }
    }
  }

  lemma OwnedForOthers(m: Handles, owned: map<Handle, Ptr>, u: UaNodeId, q: Ptr, h: Handle, p: Ptr)
    requires OwnedFor(m, owned, u, q)
    requires forall id | id in m && Consistent(id) && ToUa(id) == u :: m[id] != h
    ensures OwnedFor(m, owned[h := p], u, q)
  {
    var id :| id in m && Consistent(id) && ToUa(id) == u && m[id] in owned && owned[m[id]] == q;
    assert m[id] in owned[h := p];
  }

  lemma BindKeepsContexts(s: State, id: NodeId, p: Ptr)
    requires Invariant(s) && Consistent(id) && id in s.methods && p !in s.live
    ensures ContextsOwned(BindCallable(s, id, p))
  {
    hide ToUa, OwnershipExact, NoNullIds, BoundAreConnected, Below, Consistent;
    assert ToUa(id) in s.space && s.space[ToUa(id)] == MethodClass;
    hide CachesAgree;
    var s' := BindCallable(s, id, p);
    var h := s.methods[id];
    assert OwnedFor(s'.methods, s'.owned, ToUa(id), p);
    hide OwnedFor;
    forall u | u in s'.space
      ensures ContextOwned(s'.space[u], s'.context[u], s', u)
    {
      assert ContextOwned(s.space[u], s.context[u], s, u);
      if u != ToUa(id) {
        match s.context[u]
        case CallableAt(q) => OwnedForOthers(s.methods, s.owned, u, q, h, p);
        case SourceAt(q) => OwnedForOthers(s.variables, s.owned, u, q, h, p);
        case _ =>
      }
    }
  }

  lemma BindKeepsBound(s: State, id: NodeId, p: Ptr)
    requires BoundAreConnected(s) && CachesAgree(s) && s.context.Keys == s.space.Keys
    requires Disjoint(s.methods, s.variables) && Injective(s.methods) && Consistent(id) && id in s.methods
    ensures BoundAreConnected(BindCallable(s, id, p))
  {
    hide ToUa;
  }

  lemma BindKeeps(s: State, id: NodeId, p: Ptr)
    requires Invariant(s) && Consistent(id) && id in s.methods && p !in s.live
    ensures Invariant(BindCallable(s, id, p))
  {
    hide ContextOwned, OwnershipExact, NoNullIds, Injective, ToUa;
    BindKeepsContexts(s, id, p);
    TakingOwnershipIsExact(s, s.methods[id], p);
    BindKeepsBound(s, id, p);
    assert CachesAgree(BindCallable(s, id, p));
  }

  lemma ConnectKeepsContexts(s: State, id: NodeId, p: Ptr)
    requires Invariant(s) && Consistent(id) && id in s.variables && p !in s.live
    ensures ContextsOwned(ConnectSource(s, id, p))
  {
    hide ToUa, OwnershipExact, NoNullIds, BoundAreConnected, Below, Consistent;
    assert ToUa(id) in s.space && s.space[ToUa(id)] == VariableClass;
    hide CachesAgree;
    var s' := ConnectSource(s, id, p);
    var h := s.variables[id];
    assert OwnedFor(s'.variables, s'.owned, ToUa(id), p);
    hide OwnedFor;
    forall u | u in s'.space
      ensures ContextOwned(s'.space[u], s'.context[u], s', u)
    {
      assert ContextOwned(s.space[u], s.context[u], s, u);
      if u != ToUa(id) {
        match s.context[u]
        case CallableAt(q) => OwnedForOthers(s.methods, s.owned, u, q, h, p);
        case SourceAt(q) => OwnedForOthers(s.variables, s.owned, u, q, h, p);
        case _ =>
      }
    }
  }

  lemma ConnectKeepsBound(s: State, id: NodeId, p: Ptr)
    requires BoundAreConnected(s) && CachesAgree(s) && s.context.Keys == s.space.Keys
    requires Disjoint(s.methods, s.variables) && Injective(s.variables) && Consistent(id) && id in s.variables
    ensures BoundAreConnected(ConnectSource(s, id, p))
  {
    hide ToUa;
  }

  lemma ConnectKeeps(s: State, id: NodeId, p: Ptr)
    requires Invariant(s) && Consistent(id) && id in s.variables && p !in s.live
    ensures Invariant(ConnectSource(s, id, p))
  {
    hide ContextOwned, OwnershipExact, NoNullIds, Injective, ToUa;
    ConnectKeepsContexts(s, id, p);
    TakingOwnershipIsExact(s, s.variables[id], p);
    ConnectKeepsBound(s, id, p);
    assert CachesAgree(ConnectSource(s, id, p));
  }

  /** After binding, the node points to the new object, which its handle owns. */
  lemma BindConnects(s: State, id: NodeId, p: Ptr)
    requires Invariant(s) && Consistent(id) && id in s.methods && p !in s.live
    ensures var s' := BindCallable(s, id, p);
      ToUa(id) in s'.context && s'.context[ToUa(id)] == CallableAt(p) &&
      s'.methods == s.methods && s.methods[id] in s'.owned && s'.owned[s.methods[id]] == p && p in s'.live
  {
    hide ToUa, Consistent;
  }

  lemma ConnectConnects(s: State, id: NodeId, p: Ptr)
    requires Invariant(s) && Consistent(id) && id in s.variables && p !in s.live
    ensures var s' := ConnectSource(s, id, p);
      ToUa(id) in s'.context && s'.context[ToUa(id)] == SourceAt(p) &&
      s'.variables == s.variables && s.variables[id] in s'.owned && s'.owned[s.variables[id]] == p && p in s'.live
  {
    hide ToUa, Consistent;
  }

  // ----- Runs -----

  datatype Op =
    | CreateOp(c: NodeClass, id: NodeId, context: Context, accepted: bool, chosen: UaNodeId)
    | GetOp(c: NodeClass, id: NodeId)
    | BindOp(id: NodeId, p: Ptr)
    | ConnectOp(id: NodeId, p: Ptr)
    | LoadOp(nodes: Space)

  /** What callers and the C server guarantee: ids are consistent, created ids
      are not the "choose one" id, new heap objects get unused addresses,
      binding goes through a registered handle, loaded nodes are new. */
  ghost predicate Allowed(s: State, op: Op) {
    match op
    case CreateOp(c, id, context, _, _) =>
      c != OtherClass && Consistent(id) && !AsksForId(ToUa(id)) && (context.User? || context.NoContext?)
    case GetOp(c, id) => c != OtherClass && Consistent(id)
    case BindOp(id, p) => Consistent(id) && id in s.methods && p !in s.live
    case ConnectOp(id, p) => Consistent(id) && id in s.variables && p !in s.live
    case LoadOp(nodes) => nodes.Keys !! s.space.Keys && NoNullIds(nodes)
  }

  ghost function Apply(s: State, op: Op): State
    requires Allowed(s, op)
  {
    match op
    case CreateOp(c, id, context, accepted, chosen) => Create(s, c, id, context, accepted, chosen).0
    case GetOp(c, id) => Get(s, c, id).0
    case BindOp(id, p) => BindCallable(s, id, p)
    case ConnectOp(id, p) => ConnectSource(s, id, p)
    case LoadOp(nodes) => AddNodes(s, nodes)
  }

  /** A run: each state follows from the one before by an allowed operation. */
  ghost predicate IsRun(states: seq<State>, ops: seq<Op>) {
    && |states| == |ops| + 1
    && forall i | 0 <= i < |ops| :: Allowed(states[i], ops[i]) && states[i + 1] == Apply(states[i], ops[i])
  }

  /** A server that has loaded its standard nodes and handed out nothing. */
  ghost predicate Initial(s: State) {
    && NoNullIds(s.space) && s.context == (map u | u in s.space :: NoContext)
    && s.objects == map[] && s.methods == map[] && s.variables == map[]
    && s.owned == map[] && s.live == {}
  }

  lemma InitialHasInvariant(s: State)
    requires Initial(s)
    ensures Invariant(s)
  {
  }

  lemma StepKeeps(s: State, op: Op)
    requires Invariant(s) && Allowed(s, op)
    ensures Invariant(Apply(s, op))
  {
    match op
    case CreateOp(c, id, context, accepted, chosen) => CreateKeeps(s, c, id, context, accepted, chosen);
    case GetOp(c, id) => GetKeeps(s, c, id);
    case BindOp(id, p) => BindKeeps(s, id, p);
    case ConnectOp(id, p) => ConnectKeeps(s, id, p);
    case LoadOp(nodes) => AddNodesKeeps(s, nodes);
  }

  /** Every state of every run has the invariant, so no node ever points to freed memory. */
  lemma {:induction false} RunKeepsInvariant(states: seq<State>, ops: seq<Op>, i: nat)
    requires IsRun(states, ops) && Initial(states[0]) && i < |states|
    ensures Invariant(states[i]) && ContextsLive(states[i])
  {
    hide Invariant, Apply, Allowed;
    if i == 0 {
      InitialHasInvariant(states[0]);
    } else {
      RunKeepsInvariant(states, ops, i - 1);
      assert states[i - 1 + 1] == Apply(states[i - 1], ops[i - 1]);
      StepKeeps(states[i - 1], ops[i - 1]);
    }
    InvariantGivesLiveness(states[i]);
  }

  /** Every entry of every cache of `s` is in `s'` too. */
  ghost predicate CachesGrow(s: State, s': State) {
    forall c, id | id in Cache(s, c) :: id in Cache(s', c) && Cache(s', c)[id] == Cache(s, c)[id]
  }

  lemma NewHandleGrowsCaches(s: State, c: NodeClass, id: NodeId)
    ensures CachesGrow(s, NewHandle(s, c, id))
  {
  }

  lemma CreateGrowsCaches(s: State, op: Op)
    requires Allowed(s, op) && op.CreateOp?
    ensures CachesGrow(s, Apply(s, op))
  {
    hide ToUa, Consistent, AsksForId, NewHandle;
    var u := ToUa(op.id);
    if AddNode(s, u, op.c, op.accepted, op.chosen).Some? {
      var added := AddNode(s, u, op.c, op.accepted, op.chosen).value;
      var ready := if op.c == ObjectClass then SetContext(added, u, op.context) else added;
      SameCaches(s, ready);
      NewHandleGrowsCaches(ready, op.c, op.id);
      hide Cache;
    }
  }

  /** Caches only grow. */
  lemma StepGrowsCaches(s: State, op: Op)
    requires Allowed(s, op)
    ensures CachesGrow(s, Apply(s, op))
  {
    hide ToUa, Consistent, NewHandle, Create, AddNode, CachesGrow;
    match op
    case CreateOp(_, _, _, _, _) => CreateGrowsCaches(s, op);
    case GetOp(c, id) => NewHandleGrowsCaches(s, c, id); SameCaches(s, s);
    case _ => SameCaches(s, Apply(s, op));
  }

  lemma SameCaches(s: State, s': State)
    requires s'.objects == s.objects && s'.methods == s.methods && s'.variables == s.variables
    ensures CachesGrow(s, s')
  {
  }

  lemma {:induction false} RunGrowsCaches(states: seq<State>, ops: seq<Op>, i: nat, j: nat, c: NodeClass, id: NodeId)
    requires IsRun(states, ops) && i <= j < |states| && id in Cache(states[i], c)
    ensures id in Cache(states[j], c) && Cache(states[j], c)[id] == Cache(states[i], c)[id]
    decreases j
  {
    hide Apply, Allowed, Cache;
    if i < j {
      RunGrowsCaches(states, ops, i, j - 1, c, id);
      assert states[j - 1 + 1] == Apply(states[j - 1], ops[j - 1]);
      StepGrowsCaches(states[j - 1], ops[j - 1]);
    }
  }

  /** With or without the cache, a lookup answers what the address space says;
      and an id is in at most one cache. */
  lemma CacheIsTransparent(s: State, c: NodeClass, id: NodeId)
    requires Invariant(s) && c != OtherClass && Consistent(id)
    ensures Get(s, c, id).1.Some? <==> Exists(s, c, id)
    ensures var r := Get(s, c, id);
      r.1.Some? ==> id in Cache(r.0, c) && r.1 == Some(Cache(r.0, c)[id])
    ensures forall c' | c' != c && id in Cache(s, c) :: id !in Cache(s, c')
  {
    hide HandlesDistinct, OwnershipExact, ContextsOwned, BoundAreConnected, NoNullIds, ToUa, Consistent;
  }

  /** In the caches `s'` differs from `s` by a new handle for `id` only, if at all. */
  ghost predicate OnlyNewEntry(s: State, s': State, c: NodeClass, id: NodeId) {
    && (c != OtherClass && id !in Cache(s, c) ==> Cache(s', c) == Cache(s, c)[id := s.handles])
    && forall c' | c' != c || id in Cache(s, c) :: Cache(s', c') == Cache(s, c')
  }

  lemma SameEntries(s: State, mid: State, s': State, c: NodeClass, id: NodeId)
    requires mid.objects == s.objects && mid.methods == s.methods && mid.variables == s.variables
    requires mid.handles == s.handles && OnlyNewEntry(mid, s', c, id)
    ensures OnlyNewEntry(s, s', c, id)
  {
    assert forall c' :: Cache(mid, c') == Cache(s, c');
    hide Cache;
  }

  lemma NewHandleEffect(s: State, c: NodeClass, id: NodeId)
    ensures var s' := NewHandle(s, c, id);
      && s'.handles == s.handles + 1 && OnlyNewEntry(s, s', c, id)
      && s'.space == s.space && s'.context == s.context && s'.owned == s.owned && s'.live == s.live
  {
    EmplaceOnce(Cache(s, c), id, s.handles);
    hide Emplace;
    match c
    case ObjectClass =>
    case MethodClass =>
    case VariableClass =>
    case OtherClass =>
  }

  lemma EmplaceOnce(m: Handles, id: NodeId, h: Handle)
    ensures Emplace(m, id, h) == if id in m then m else m[id := h]
  {
  }

  lemma CreateUnfolds(s: State, c: NodeClass, id: NodeId, x: Context, accepted: bool, chosen: UaNodeId)
    requires Consistent(id)
    ensures var added, r := AddNode(s, ToUa(id), c, accepted, chosen), Create(s, c, id, x, accepted, chosen);
      && (added.None? ==> r == (s, None))
      && (added.Some? ==> r.1 == Some(s.handles))
      && (added.Some? && c == ObjectClass ==> r.0 == NewHandle(SetContext(added.value, ToUa(id), x), c, id))
      && (added.Some? && c != ObjectClass ==> r.0 == NewHandle(added.value, c, id))
  {
  }

  /** Creating with an id of one's own succeeds exactly when the server accepts it
      and there is no such node yet. Then there is one more node and one more handle,
      and an object has the context it was created with. */
  lemma CreateEffect(s: State, c: NodeClass, id: NodeId, x: Context, accepted: bool, chosen: UaNodeId)
    requires Consistent(id) && !AsksForId(ToUa(id))
    ensures var (s', h) := Create(s, c, id, x, accepted, chosen);
      if accepted && ToUa(id) !in s.space then
        && h == Some(s.handles) && s'.handles == s.handles + 1
        && s'.space == s.space[ToUa(id) := c]
        && s'.context == s.context[ToUa(id) := if c == ObjectClass then x else NoContext]
        && s'.owned == s.owned && s'.live == s.live
        && OnlyNewEntry(s, s', c, id)
      else h.None? && s' == s
  {
    hide ToUa, AsksForId, Consistent, NewHandle, OnlyNewEntry;
    var u := ToUa(id);
    if accepted && u !in s.space {
      OverwrittenTwice(s.context, u, NoContext, x);
      var added := s.(space := s.space[u := c], context := s.context[u := NoContext]);
      var ready := if c == ObjectClass then SetContext(added, u, x) else added;
      NewHandleEffect(ready, c, id);
      SameEntries(s, ready, NewHandle(ready, c, id), c, id);
    }
  }

  lemma OverwrittenTwice<K, V>(m: map<K, V>, k: K, v: V, w: V)
    ensures m[k := v][k := w] == m[k := w]
  {
  }

  /** When the id is left to the server the same holds for the node it chooses, but
      no context is set. */
  lemma CreateChosenEffect(s: State, c: NodeClass, id: NodeId, x: Context, accepted: bool, chosen: UaNodeId)
    requires Consistent(id) && AsksForId(ToUa(id)) && NoNullIds(s.space) && !AsksForId(chosen)
    ensures var (s', h) := Create(s, c, id, x, accepted, chosen);
      if accepted && chosen !in s.space then
        && h == Some(s.handles) && s'.handles == s.handles + 1
        && s'.space == s.space[chosen := c] && s'.context == s.context[chosen := NoContext]
        && s'.owned == s.owned && s'.live == s.live
      else h.None? && s' == s
  {
    hide ToUa, AsksForId, Consistent;
  }

  /** Looking up changes nothing but the cache, and that only on the first success. */
  lemma GetEffect(s: State, c: NodeClass, id: NodeId)
    requires Consistent(id) && c != OtherClass
    ensures var (s', h) := Get(s, c, id);
      && s'.space == s.space && s'.context == s.context && s'.owned == s.owned && s'.live == s.live
      && (id in Cache(s, c) || h.None? ==> s' == s)
      && (id !in Cache(s, c) && h.Some? ==> h.value == s.handles && OnlyNewEntry(s, s', c, id))
  {
    hide ToUa, Consistent, NewHandle, Cache, OnlyNewEntry;
    NewHandleEffect(s, c, id);
  }

  /** A created handle is the registered one: the insertion took place. */
  lemma CreatedIsRegistered(s: State, c: NodeClass, id: NodeId, context: Context, accepted: bool, chosen: UaNodeId)
    requires Invariant(s) && c != OtherClass && Consistent(id) && !AsksForId(ToUa(id))
    requires context.User? || context.NoContext?
    requires Create(s, c, id, context, accepted, chosen).1.Some?
    ensures var r := Create(s, c, id, context, accepted, chosen);
      id !in Cache(s, c) && id in Cache(r.0, c) && r.1 == Some(Cache(r.0, c)[id]) && Exists(r.0, c, id)
  {
    CreateKeeps(s, c, id, context, accepted, chosen);
  }

  /** The handle an operation returns, if it returns one. */
  ghost function HandleGiven(s: State, op: Op): Option<Handle>
    requires Allowed(s, op)
  {
    match op
    case CreateOp(c, id, context, accepted, chosen) => Create(s, c, id, context, accepted, chosen).1
    case GetOp(c, id) => Get(s, c, id).1
    case _ => None
  }

  ghost predicate IsFor(op: Op, c: NodeClass, id: NodeId) {
    (op.CreateOp? || op.GetOp?) && op.c == c && op.id == id
  }

  lemma GivenIsCached(s: State, op: Op, c: NodeClass, id: NodeId)
    requires Invariant(s) && Allowed(s, op) && IsFor(op, c, id) && HandleGiven(s, op).Some?
    ensures id in Cache(Apply(s, op), c) && HandleGiven(s, op) == Some(Cache(Apply(s, op), c)[id])
  {
    hide Invariant, Create, ToUa, Cache;
    match op
    case CreateOp(_, _, context, accepted, chosen) => CreatedIsRegistered(s, c, id, context, accepted, chosen);
    case GetOp(_, _) => CacheIsTransparent(s, c, id);
  }

  /** Once a handle has been given out for an id, by creating the node or by
      looking it up, every later lookup of an equal id gives the same handle. */
  lemma SameIdSameHandle(states: seq<State>, ops: seq<Op>, i: nat, j: nat, c: NodeClass, a: NodeId, b: NodeId)
    requires IsRun(states, ops) && Initial(states[0]) && i < j < |states|
    requires c != OtherClass && Consistent(a) && Consistent(b) && Equal(a, b)
    requires IsFor(ops[i], c, a) && HandleGiven(states[i], ops[i]).Some?
    ensures Get(states[j], c, b).1 == HandleGiven(states[i], ops[i])
  {
    hide Invariant, Initial, Apply, HandleGiven, Cache;
    EqualIsSame(a, b);
    RunKeepsInvariant(states, ops, i);
    assert states[i + 1] == Apply(states[i], ops[i]);
    GivenIsCached(states[i], ops[i], c, a);
    RunGrowsCaches(states, ops, i + 1, j, c, a);
  }

  /** Creating with the id that asks the server to choose registers the handle
      under an id that no node has: the caches agree with the address space
      afterwards exactly when the requested id is not that one. */
  lemma CreateAgreesIff(s: State, c: NodeClass, id: NodeId, context: Context, accepted: bool, chosen: UaNodeId)
    requires Invariant(s) && c != OtherClass && Consistent(id) && !AsksForId(chosen)
    requires context.User? || context.NoContext?
    requires Create(s, c, id, context, accepted, chosen).1.Some?
    ensures CachesAgree(Create(s, c, id, context, accepted, chosen).0) <==> !AsksForId(ToUa(id))
  {
    if !AsksForId(ToUa(id)) {
      CreateKeeps(s, c, id, context, accepted, chosen);
    } else {
      assert id in Cache(Create(s, c, id, context, accepted, chosen).0, c);
    }
  }

  // ----- Between the steps of a rebinding -----

  /** The states that binding a callable passes through. */
  function BindingMoments(s: State, id: NodeId, p: Ptr): seq<State>
    requires Consistent(id) && id in s.methods
  {
    var freed := TakeOwnership(Allocate(s, p), s.methods[id], p);
    [Allocate(s, p), freed, SetContext(freed, ToUa(id), CallableAt(p))]
  }

  /** The states that connecting a data source passes through. */
  function ConnectingMoments(s: State, id: NodeId, p: Ptr): seq<State>
    requires Consistent(id) && id in s.variables
  {
    var told := SetContext(Allocate(s, p), ToUa(id), SourceAt(p));
    [Allocate(s, p), told, TakeOwnership(told, s.variables[id], p)]
  }

  /** While a data source is replaced no node points to freed memory at any moment. */
  lemma RebindingSourceIsAlwaysLive(s: State, id: NodeId, p: Ptr)
    requires Invariant(s) && Consistent(id) && id in s.variables && p !in s.live
    ensures forall k | 0 <= k < 3 :: ContextsLive(ConnectingMoments(s, id, p)[k])
  {
    hide ToUa, Consistent, Invariant;
    InvariantGivesLiveness(s);
    ConnectKeeps(s, id, p);
    InvariantGivesLiveness(ConnectSource(s, id, p));
    var moments := ConnectingMoments(s, id, p);
    assert moments[2] == ConnectSource(s, id, p);
    hide TakeOwnership;
    assert ContextsLive(moments[0]) && ContextsLive(moments[1]);
  }

  /** While a callable is replaced, the moment between freeing the old one and
      telling the server is safe exactly when the node did not point to it. */
  lemma RebindingCallableGap(s: State, id: NodeId, p: Ptr)
    requires Invariant(s) && Consistent(id) && id in s.methods && p !in s.live
    ensures var moments := BindingMoments(s, id, p);
      && ContextsLive(moments[0]) && ContextsLive(moments[2])
      && (ContextsLive(moments[1]) <==>
           !(s.methods[id] in s.owned && s.context[ToUa(id)] == CallableAt(s.owned[s.methods[id]])))
  {
    hide ToUa, Consistent, NoNullIds, HandlesDistinct, BoundAreConnected;
    InvariantGivesLiveness(s);
    BindKeeps(s, id, p);
    InvariantGivesLiveness(BindCallable(s, id, p));
  }

  /** When no other registered id names the same node, that moment is safe exactly
      when the handle has not bound anything yet. */
  lemma RebindingIsSafeIffUnbound(s: State, id: NodeId, p: Ptr)
    requires Invariant(s) && Consistent(id) && id in s.methods && p !in s.live
    requires forall id' | id' in s.methods && Consistent(id') && ToUa(id') == ToUa(id) :: id' == id
    ensures ContextsLive(BindingMoments(s, id, p)[1]) <==> s.methods[id] !in s.owned
  {
    hide ToUa, Consistent, ContextsLive;
    RebindingCallableGap(s, id, p);
    if s.methods[id] in s.owned {
      assert ContextOwned(s.space[ToUa(id)], s.context[ToUa(id)], s, ToUa(id));
    }
  }

  /** The node of `id` points to what the handle of `id` owns. */
  ghost predicate Connected(s: State, id: NodeId) {
    && Consistent(id) && id in s.methods && s.methods[id] in s.owned
    && ToUa(id) in s.context && s.context[ToUa(id)] == CallableAt(s.owned[s.methods[id]])
  }

  /** It binds through another id that names the same node. */
  ghost predicate BindsUnderOtherName(op: Op, id: NodeId)
    requires Consistent(id)
  {
    op.BindOp? && Consistent(op.id) && op.id != id && ToUa(op.id) == ToUa(id)
  }

  lemma CreateKeepsConnected(s: State, op: Op, id: NodeId)
    requires Allowed(s, op) && op.CreateOp? && s.context.Keys == s.space.Keys && Connected(s, id)
    ensures Connected(Apply(s, op), id)
  {
    hide ToUa, Consistent, AsksForId;
  }

  lemma RebindKeepsConnected(s: State, op: Op, id: NodeId)
    requires Invariant(s) && Allowed(s, op) && (op.BindOp? || op.ConnectOp?)
    requires Connected(s, id) && !BindsUnderOtherName(op, id)
    ensures Connected(Apply(s, op), id)
  {
    hide ToUa, Consistent, OwnershipExact, ContextsOwned, NoNullIds, BoundAreConnected;
  }

  lemma StepKeepsConnected(s: State, op: Op, id: NodeId)
    requires Invariant(s) && Allowed(s, op) && Connected(s, id) && !BindsUnderOtherName(op, id)
    ensures Connected(Apply(s, op), id)
  {
    hide ToUa, Consistent, OwnershipExact, HandlesDistinct, CachesAgree, NoNullIds, BoundAreConnected;
    match op
    case CreateOp(_, _, _, _, _) => CreateKeepsConnected(s, op, id);
    case BindOp(_, _) => RebindKeepsConnected(s, op, id);
    case ConnectOp(_, _) => RebindKeepsConnected(s, op, id);
    case _ =>
  }

  lemma {:induction false} StaysConnected(states: seq<State>, ops: seq<Op>, i: nat, j: nat, id: NodeId, p: Ptr)
    requires IsRun(states, ops) && Initial(states[0]) && i < j < |states| && ops[i] == BindOp(id, p)
    requires Consistent(id) && forall k | i < k < j :: !BindsUnderOtherName(ops[k], id)
    ensures Connected(states[j], id)
    decreases j
  {
    hide Invariant, Initial, ContextsLive, BindsUnderOtherName, Create, Get, BindCallable, ToUa, Consistent;
    RunKeepsInvariant(states, ops, j - 1);
    assert states[j - 1 + 1] == Apply(states[j - 1], ops[j - 1]);
    if i == j - 1 {
      BindConnects(states[i], id, p);
    } else {
      StaysConnected(states, ops, i, j - 1, id, p);
      hide Apply, Allowed, Connected;
      StepKeepsConnected(states[j - 1], ops[j - 1], id);
    }
  }

  /** So a second binding through the same id passes through a state in which the
      node points to freed memory, whatever the run did since the first one, unless
      it bound a callable under another id that names the same node. */
  lemma SecondBindingHasGap(
    states: seq<State>, ops: seq<Op>, i: nat, j: nat, id: NodeId, p: Ptr, p': Ptr)
    requires IsRun(states, ops) && Initial(states[0]) && i < j < |states| && ops[i] == BindOp(id, p)
    requires Consistent(id) && forall k | i < k < j :: !BindsUnderOtherName(ops[k], id)
    requires p' !in states[j].live
    ensures id in states[j].methods
    ensures !ContextsLive(BindingMoments(states[j], id, p')[1])
  {
    hide Invariant, Initial, IsRun, ContextsLive, BindsUnderOtherName, ToUa, Consistent;
    StaysConnected(states, ops, i, j, id, p);
    RunKeepsInvariant(states, ops, j);
    RebindingCallableGap(states[j], id, p');
  }

  /** A run with such a second binding: create a method, bind it, bind it again. */
  lemma SecondBindingHappens() returns (states: seq<State>, ops: seq<Op>, id: NodeId)
    ensures IsRun(states, ops) && Initial(states[0]) && |ops| == 2
    ensures id in states[2].methods && 2 !in states[2].live && Allowed(states[2], BindOp(id, 2))
    ensures !ContextsLive(BindingMoments(states[2], id, 2)[1])
  {
    id := NodeId(1, NUMERIC, Number(7));
    var u := UaNodeId(1, UaNumeric(7));
    assert ToUa(id) == u && Consistent(id) && !AsksForId(u);
    var s0 := State(map[], map[], map[], map[], map[], 0, map[], {});
    var s1 := State(map[u := MethodClass], map[u := NoContext], map[], map[id := 0], map[], 1, map[], {});
    var s2 := State(map[u := MethodClass], map[u := CallableAt(1)], map[], map[id := 0], map[], 1, map[0 := 1], {1});
    states, ops := [s0, s1, s2], [CreateOp(MethodClass, id, NoContext, true, u), BindOp(id, 1)];
    hide ToUa, Consistent, AsksForId;
    assert Allowed(s0, ops[0]) && Apply(s0, ops[0]) == s1;
    assert Allowed(s1, ops[1]) && Apply(s1, ops[1]) == s2;
    assert Initial(s0);
    hide Apply, Allowed, ContextsLive, Initial, BindingMoments, BindsUnderOtherName;
    SecondBindingHasGap(states, ops, 1, 2, id, 1, 2);
    assert Allowed(states[2], BindOp(id, 2)) by { BindingAllowed(states[2], id, 2); }
  }

  lemma BindingAllowed(s: State, id: NodeId, p: Ptr)
    requires Consistent(id) && id in s.methods && p !in s.live
    ensures Allowed(s, BindOp(id, p))
  {
  }

  /** A creation after which a handle is registered for no node. */
  lemma ChosenIdIsNotRegistered(s: State, tag: nat)
    requires Initial(s) && UaNodeId(1, UaNumeric(7)) !in s.space
    ensures var id := NodeId(0, NUMERIC, Number(0));
      && Create(s, ObjectClass, id, User(tag), true, UaNodeId(1, UaNumeric(7))).1.Some?
      && !CachesAgree(Create(s, ObjectClass, id, User(tag), true, UaNodeId(1, UaNumeric(7))).0)
  {
    InitialHasInvariant(s);
    CreateAgreesIff(s, ObjectClass, NodeId(0, NUMERIC, Number(0)), User(tag), true, UaNodeId(1, UaNumeric(7)));
  }
}
