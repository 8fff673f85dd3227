/** The server object: its caches, the part of the C server it talks to, and the
    handles' owned objects, updated in place. */
module Server {
  import opened Options
  import opened OpcNodeId
  import opened HandleRegistry

  class Server {
    var space: map<UaNodeId, NodeClass>
    var context: map<UaNodeId, Context>
    var objects: map<NodeId, Handle>
    var methods: map<NodeId, Handle>
    var variables: map<NodeId, Handle>
    var handles: nat
    var owned: map<Handle, Ptr>
    var live: set<Ptr>

    function State(): State
      reads this
    {
      HandleRegistry.State(space, context, objects, methods, variables, handles, owned, live)
    }

    ghost predicate Valid()
      reads this
    {
      Invariant(State())
    }

    constructor (nodes: map<UaNodeId, NodeClass>)
      requires NoNullIds(nodes)
      ensures Initial(State()) && Valid() && space == nodes
    {
      space := nodes;
      context := map u | u in nodes :: NoContext;
      objects, methods, variables := map[], map[], map[];
      handles, owned, live := 0, map[], {};
      new;
      InitialHasInvariant(State());
    }

    // ----- The C server -----

    method UaAddNode(u: UaNodeId, c: NodeClass, accepted: bool, chosen: UaNodeId) returns (good: bool)
      modifies `space, `context
      ensures match AddNode(old(State()), u, c, accepted, chosen)
        case None => !good && State() == old(State())
        case Some(s) => good && State() == s
    {
      var id := if AsksForId(u) then chosen else u;
      good := accepted && id !in space;
      if good {
        space := space[id := c];
        context := context[id := NoContext];
      }
    }

    method UaSetContext(u: UaNodeId, x: Context)
      modifies `context
      ensures State() == SetContext(old(State()), u, x)
    {
      if u in space {
        context := context[u := x];
      }
    }

    // ----- Creating: an id that leaves the choice to the server breaks the cache -----

    method CreateObject(id: NodeId, x: Context, accepted: bool, chosen: UaNodeId) returns (h: Option<Handle>)
      requires Consistent(id)
      modifies this
      ensures (State(), h) == Create(old(State()), ObjectClass, id, x, accepted, chosen)
      ensures !AsksForId(ToUa(id)) ==> (h.Some? <==> accepted && ToUa(id) !in old(space))
      ensures !AsksForId(ToUa(id)) && h.Some? ==>
        space == old(space)[ToUa(id) := ObjectClass] && context == old(context)[ToUa(id) := x]
      ensures old(Valid()) && !AsksForId(ToUa(id)) && (x.User? || x.NoContext?) ==> Valid()
    {
      hide Invariant, ToUa, AsksForId, Consistent;
      if !AsksForId(ToUa(id)) {
        CreateEffect(State(), ObjectClass, id, x, accepted, chosen);
      }
      if Valid() && !AsksForId(ToUa(id)) && (x.User? || x.NoContext?) {
        CreateKeeps(State(), ObjectClass, id, x, accepted, chosen);
      }
      CreateUnfolds(State(), ObjectClass, id, x, accepted, chosen);
      hide Create, AddNode;
      var good := UaAddNode(ToUa(id), ObjectClass, accepted, chosen);
      if !good {
        return None;
      }
      UaSetContext(ToUa(id), x);
      h := Some(handles);
      handles := handles + 1;
      objects := Emplace(objects, id, h.value);
    }

    method CreateMethod(id: NodeId, accepted: bool, chosen: UaNodeId) returns (h: Option<Handle>)
      requires Consistent(id)
      modifies this
      ensures (State(), h) == Create(old(State()), MethodClass, id, NoContext, accepted, chosen)
      ensures !AsksForId(ToUa(id)) ==> (h.Some? <==> accepted && ToUa(id) !in old(space))
      ensures !AsksForId(ToUa(id)) && h.Some? ==>
        space == old(space)[ToUa(id) := MethodClass] && context == old(context)[ToUa(id) := NoContext]
      ensures old(Valid()) && !AsksForId(ToUa(id)) ==> Valid()
    {
      hide Invariant, ToUa, AsksForId, Consistent;
      if !AsksForId(ToUa(id)) {
        CreateEffect(State(), MethodClass, id, NoContext, accepted, chosen);
      }
      if Valid() && !AsksForId(ToUa(id)) {
        CreateKeeps(State(), MethodClass, id, NoContext, accepted, chosen);
      }
      CreateUnfolds(State(), MethodClass, id, NoContext, accepted, chosen);
      hide Create, AddNode;
      var good := UaAddNode(ToUa(id), MethodClass, accepted, chosen);
      if !good {
        return None;
      }
      h := Some(handles);
      handles := handles + 1;
      methods := Emplace(methods, id, h.value);
    }

    method CreateVariable(id: NodeId, accepted: bool, chosen: UaNodeId) returns (h: Option<Handle>)
      requires Consistent(id)
      modifies this
      ensures (State(), h) == Create(old(State()), VariableClass, id, NoContext, accepted, chosen)
      ensures !AsksForId(ToUa(id)) ==> (h.Some? <==> accepted && ToUa(id) !in old(space))
      ensures !AsksForId(ToUa(id)) && h.Some? ==>
        space == old(space)[ToUa(id) := VariableClass] && context == old(context)[ToUa(id) := NoContext]
      ensures old(Valid()) && !AsksForId(ToUa(id)) ==> Valid()
    {
      hide Invariant, ToUa, AsksForId, Consistent;
      if !AsksForId(ToUa(id)) {
        CreateEffect(State(), VariableClass, id, NoContext, accepted, chosen);
      }
      if Valid() && !AsksForId(ToUa(id)) {
        CreateKeeps(State(), VariableClass, id, NoContext, accepted, chosen);
      }
      CreateUnfolds(State(), VariableClass, id, NoContext, accepted, chosen);
      hide Create, AddNode;
      var good := UaAddNode(ToUa(id), VariableClass, accepted, chosen);
      if !good {
        return None;
      }
      h := Some(handles);
      handles := handles + 1;
      variables := Emplace(variables, id, h.value);
    }

    // ----- Looking up -----

    method GetObject(id: NodeId) returns (h: Option<Handle>)
      requires Consistent(id) && Valid()
      modifies this
      ensures Valid() && (State(), h) == Get(old(State()), ObjectClass, id)
      ensures h.Some? <==> ToUa(id) in space && space[ToUa(id)] == ObjectClass
      ensures space == old(space) && context == old(context)
      ensures objects == if h.Some? then old(objects)[id := h.value] else old(objects)
    {
      hide Invariant, ToUa, AsksForId, Consistent;
      CacheIsTransparent(State(), ObjectClass, id);
      GetKeeps(State(), ObjectClass, id);
      if id in objects {
        return Some(objects[id]);
      }
      if !(ToUa(id) in space && space[ToUa(id)] == ObjectClass) {
        return None;
      }
      h := Some(handles);
      handles := handles + 1;
      objects := Emplace(objects, id, h.value);
    }

    method GetMethod(id: NodeId) returns (h: Option<Handle>)
      requires Consistent(id) && Valid()
      modifies this
      ensures Valid() && (State(), h) == Get(old(State()), MethodClass, id)
      ensures h.Some? <==> ToUa(id) in space && space[ToUa(id)] == MethodClass
      ensures space == old(space) && context == old(context)
      ensures methods == if h.Some? then old(methods)[id := h.value] else old(methods)
    {
      hide Invariant, ToUa, AsksForId, Consistent;
      CacheIsTransparent(State(), MethodClass, id);
      GetKeeps(State(), MethodClass, id);
      if id in methods {
        return Some(methods[id]);
      }
      if !(ToUa(id) in space && space[ToUa(id)] == MethodClass) {
        return None;
      }
      h := Some(handles);
      handles := handles + 1;
      methods := Emplace(methods, id, h.value);
    }

    method GetVariable(id: NodeId) returns (h: Option<Handle>)
      requires Consistent(id) && Valid()
      modifies this
      ensures Valid() && (State(), h) == Get(old(State()), VariableClass, id)
      ensures h.Some? <==> ToUa(id) in space && space[ToUa(id)] == VariableClass
      ensures space == old(space) && context == old(context)
      ensures variables == if h.Some? then old(variables)[id := h.value] else old(variables)
    {
      hide Invariant, ToUa, AsksForId, Consistent;
      CacheIsTransparent(State(), VariableClass, id);
      GetKeeps(State(), VariableClass, id);
      if id in variables {
        return Some(variables[id]);
      }
      if !(ToUa(id) in space && space[ToUa(id)] == VariableClass) {
        return None;
      }
      h := Some(handles);
      handles := handles + 1;
      variables := Emplace(variables, id, h.value);
    }

    // ----- Binding -----

    /** Assigning to a handle's owning pointer frees what it held. */
    method ResetOwned(h: Handle, p: Ptr)
      modifies `owned, `live
      ensures State() == TakeOwnership(old(State()), h, p)
    {
      if h in owned {
        live := live - {owned[h]};
      }
      owned := owned[h := p];
    }

    /** Binds a callable, allocated at the unused address `p`, through the handle of `id`. */
    method BindCallable(id: NodeId, p: Ptr) returns (ghost moments: seq<HandleRegistry.State>)
      requires Valid() && Consistent(id) && id in methods && p !in live
      modifies this
      ensures Valid() && State() == HandleRegistry.BindCallable(old(State()), id, p)
      ensures moments == BindingMoments(old(State()), id, p)
      ensures context == old(context)[ToUa(id) := CallableAt(p)] && owned == old(owned)[methods[id] := p]
      ensures live == if methods[id] in old(owned) then old(live) + {p} - {old(owned)[methods[id]]} else old(live) + {p}
    {
      hide Invariant, ToUa, AsksForId, Consistent;
      BindKeeps(State(), id, p);
      BindConnects(State(), id, p);
      live := live + {p};
      moments := [State()];
      ResetOwned(methods[id], p);
      moments := moments + [State()];
      UaSetContext(ToUa(id), CallableAt(p));
      moments := moments + [State()];
    }

    /** Connects a data source, allocated at the unused address `p`, through the
        handle of `id`; no node points to freed memory on the way. */
    method ConnectCallback(id: NodeId, p: Ptr) returns (ghost moments: seq<HandleRegistry.State>)
      requires Valid() && Consistent(id) && id in variables && p !in live
      modifies this
      ensures Valid() && State() == ConnectSource(old(State()), id, p)
      ensures moments == ConnectingMoments(old(State()), id, p)
      ensures forall k | 0 <= k < 3 :: ContextsLive(moments[k])
      ensures context == old(context)[ToUa(id) := SourceAt(p)] && owned == old(owned)[variables[id] := p]
      ensures live ==
        if variables[id] in old(owned) then old(live) + {p} - {old(owned)[variables[id]]} else old(live) + {p}
    {
      hide Invariant, ToUa, AsksForId, Consistent, ContextsLive;
      ConnectKeeps(State(), id, p);
      ConnectConnects(State(), id, p);
      RebindingSourceIsAlwaysLive(State(), id, p);
      live := live + {p};
      moments := [State()];
      UaSetContext(ToUa(id), SourceAt(p));
      moments := moments + [State()];
      ResetOwned(variables[id], p);
      moments := moments + [State()];
    }
  }
}
