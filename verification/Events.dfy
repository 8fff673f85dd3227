/** Events: a list of fields that only grows, and its replay as writes into a
    fresh event node each time the event is set on an object. */
module Events {
  import opened Options
  import opened OpcNodeId

  datatype QualifiedName = QualifiedName(ns: nat, name: string)

  type Path = seq<QualifiedName>

  datatype Value =
    | NodeIdValue(id: UaNodeId)
    | LocalizedText(locale: string, text: string)
    | DateTime(ticks: int)
    | Severity(level: nat)
    | Str(text: string)
    | Other(tag: nat)

  type Id = id: NodeId | Consistent(id) witness NodeId(0, NUMERIC, Number(0))

  /** A variant takes a copy of the C form of an id. */
  function IdValue(id: Id): Value {
    NodeIdValue(ToUa(id))
  }

  datatype EventField = EventField(path: Path, value: Value)

  /** A property node of an event. */
  type Property = nat

  /** What the C server knows about events of one type: which property a path or
      a property name leads to, what values a property takes, and the values of
      a node just created. */
  datatype EventType = EventType(
    resolve: map<Path, Property>,
    property: map<QualifiedName, Property>,
    accepts: (Property, Value) -> bool,
    initial: map<Property, Value>)

  type Store = map<Property, Value>

  // ----- One event node -----

  function Write(t: EventType, s: Store, target: Option<Property>, v: Value): Store {
    if target.Some? && t.accepts(target.value, v) then s[target.value := v] else s
  }

  function WriteProperty(t: EventType, s: Store, name: string, v: Value): Store {
    var q := QualifiedName(0, name);
    Write(t, s, if q in t.property then Some(t.property[q]) else None, v)
  }

  const DEFAULT_SEVERITY := 100
  const DEFAULT_MESSAGE := "An event has been generated."

  function Defaults(t: EventType, now: int): Store {
    var s := WriteProperty(t, t.initial, "Time", DateTime(now));
    var s := WriteProperty(t, s, "Severity", Severity(DEFAULT_SEVERITY));
    var s := WriteProperty(t, s, "Message", LocalizedText("", DEFAULT_MESSAGE));
    WriteProperty(t, s, "SourceName", Str("Server"))
  }

  /** The property of that name is `p`, and it takes `v`. */
  predicate Takes(t: EventType, name: string, p: Property, v: Value) {
    QualifiedName(0, name) in t.property && t.property[QualifiedName(0, name)] == p && t.accepts(p, v)
  }

  /** A new event has the current time, severity 100, a message and the server as
      its source's name; its other properties are as the C server made them. */
  lemma DefaultsHold(t: EventType, now: int, time: Property, severity: Property, message: Property, source: Property)
    requires Takes(t, "Time", time, DateTime(now)) && Takes(t, "Severity", severity, Severity(100))
    requires Takes(t, "Message", message, LocalizedText("", "An event has been generated."))
    requires Takes(t, "SourceName", source, Str("Server"))
    ensures Defaults(t, now) ==
      t.initial[time := DateTime(now)][severity := Severity(100)]
        [message := LocalizedText("", "An event has been generated.")][source := Str("Server")]
  {
  }

  function WriteField(t: EventType, s: Store, f: EventField): Store {
    Write(t, s, if f.path in t.resolve then Some(t.resolve[f.path]) else None, f.value)
  }

  function Replay(t: EventType, s: Store, fields: seq<EventField>): Store {
    if fields == [] then s else WriteField(t, Replay(t, s, fields[..|fields| - 1]), fields[|fields| - 1])
  }

  // ----- What the replay amounts to -----

  /** The field's path leads to `p` and `p` takes its value. */
  predicate Hits(t: EventType, f: EventField, p: Property) {
    f.path in t.resolve && t.resolve[f.path] == p && t.accepts(p, f.value)
  }

  /** Field `k` is the last one that hits `p`. */
  ghost predicate LastHit(t: EventType, fields: seq<EventField>, p: Property, k: int) {
    0 <= k < |fields| && Hits(t, fields[k], p) && forall j | k < j < |fields| :: !Hits(t, fields[j], p)
  }

  ghost predicate NoHit(t: EventType, fields: seq<EventField>, p: Property) {
    forall j | 0 <= j < |fields| :: !Hits(t, fields[j], p)
  }

  ghost predicate SameAt(s: Store, s': Store, p: Property) {
    (p in s <==> p in s') && (p in s ==> s[p] == s'[p])
  }

  lemma WriteAt(t: EventType, s: Store, f: EventField, p: Property)
    ensures Hits(t, f, p) ==> p in WriteField(t, s, f) && WriteField(t, s, f)[p] == f.value
    ensures !Hits(t, f, p) ==> SameAt(s, WriteField(t, s, f), p)
  {
  }

  lemma MissAtTheEnd(t: EventType, front: seq<EventField>, f: EventField, p: Property)
    requires !Hits(t, f, p)
    ensures forall k :: LastHit(t, front + [f], p, k) <==> LastHit(t, front, p, k)
    ensures NoHit(t, front + [f], p) <==> NoHit(t, front, p)
  {
    hide Hits;
    var fields := front + [f];
    assert forall j | 0 <= j < |front| :: fields[j] == front[j];
    assert fields[|front|] == f;
  }

  /** A property ends with the value of the last field that hits it, and is left
      alone when none does. */
  lemma {:induction false} LastWriterWins(t: EventType, s: Store, fields: seq<EventField>, p: Property)
    ensures forall k | LastHit(t, fields, p, k) ::
      p in Replay(t, s, fields) && Replay(t, s, fields)[p] == fields[k].value
    ensures NoHit(t, fields, p) ==> SameAt(s, Replay(t, s, fields), p)
    ensures NoHit(t, fields, p) || exists k :: LastHit(t, fields, p, k)
  {
    if fields != [] {
      hide Hits, WriteField;
      var front, last := fields[..|fields| - 1], fields[|fields| - 1];
      assert fields == front + [last];
      LastWriterWins(t, s, front, p);
      WriteAt(t, Replay(t, s, front), last, p);
      if Hits(t, last, p) {
        assert LastHit(t, fields, p, |front|);
      } else {
        MissAtTheEnd(t, front, last, p);
        hide NoHit;
        assert forall k | LastHit(t, front, p, k) :: fields[k] == front[k];
      }
    }
  }

  /** A field that does not resolve, or whose value is refused, changes nothing. */
  predicate Inert(t: EventType, f: EventField) {
    f.path !in t.resolve || !t.accepts(t.resolve[f.path], f.value)
  }

  lemma {:induction false} ReplayOfConcat(t: EventType, s: Store, a: seq<EventField>, b: seq<EventField>)
    ensures Replay(t, s, a + b) == Replay(t, Replay(t, s, a), b)
    decreases |b|
  {
    if b == [] {
      assert a + b == a;
    } else {
      ReplayOfConcat(t, s, a, b[..|b| - 1]);
      assert (a + b)[..|a + b| - 1] == a + b[..|b| - 1];
    }
  }

  lemma InertFieldsDoNotMatter(t: EventType, s: Store, a: seq<EventField>, f: EventField, b: seq<EventField>)
    requires Inert(t, f)
    ensures Replay(t, s, a + [f] + b) == Replay(t, s, a + b)
  {
    ReplayOfConcat(t, s, a + [f], b);
    ReplayOfConcat(t, s, a, [f]);
    ReplayOfConcat(t, s, a, b);
    assert [f][..0] == [];
  }

  // ----- The event object and the object it is set on -----

  const MESSAGE := [QualifiedName(0, "Message")]
  const SOURCE_NODE := [QualifiedName(0, "SourceNode")]
  const TRANSITION := [QualifiedName(0, "Transition")]
  const TRANSITION_ID := [QualifiedName(0, "Transition"), QualifiedName(0, "Id")]

  class Event {
    const eventType: Id
    var eventFields: seq<EventField>

    constructor (eventType: Id)
      ensures this.eventType == eventType && eventFields == []
    {
      this.eventType := eventType;
      eventFields := [];
    }

    method SetMessage(m: Value)
      modifies this
      ensures eventFields == old(eventFields) + [EventField([QualifiedName(0, "Message")], m)]
    {
      eventFields := eventFields + [EventField(MESSAGE, m)];
    }

    method SetSourceNode(id: Id)
      modifies this
      ensures eventFields == old(eventFields) + [EventField([QualifiedName(0, "SourceNode")], IdValue(id))]
    {
      eventFields := eventFields + [EventField(SOURCE_NODE, IdValue(id))];
    }

    method SetEventField(path: Path, v: Value)
      modifies this
      ensures eventFields == old(eventFields) + [EventField(path, v)]
    {
      eventFields := eventFields + [EventField(path, v)];
    }

    method SetTransition(transition: Value, id: Id)
      modifies this
      ensures eventFields == old(eventFields) +
        [EventField([QualifiedName(0, "Transition")], transition)] +
        [EventField([QualifiedName(0, "Transition"), QualifiedName(0, "Id")], IdValue(id))]
    {
      eventFields := eventFields + [EventField(TRANSITION, transition)];
      eventFields := eventFields + [EventField(TRANSITION_ID, IdValue(id))];
    }
  }

  /** The node whose id is passed on to be triggered: a fresh one, or whatever an
      id that was never set refers to. */
  datatype EventNode = Fresh(store: Store) | Unspecified

  function SetUp(t: EventType, fields: seq<EventField>, now: int, created: bool): EventNode {
    if created then Fresh(Replay(t, Defaults(t, now), fields)) else Unspecified
  }

  /** Events of this type have a source property that accepts `id`. */
  predicate TakesSource(t: EventType, id: Id) {
    SOURCE_NODE in t.resolve && t.accepts(t.resolve[SOURCE_NODE], IdValue(id))
  }

  /** What is triggered is sure to name `id` as its source: nothing is known of an
      unspecified node. */
  predicate SurelyNamesSource(t: EventType, node: EventNode, id: Id) {
    && node.Fresh? && SOURCE_NODE in t.resolve && t.resolve[SOURCE_NODE] in node.store
    && node.store[t.resolve[SOURCE_NODE]] == IdValue(id)
  }

  /** Every property has a value that it accepts. */
  ghost predicate Legal(t: EventType, s: Store) {
    forall p | p in s :: t.accepts(p, s[p])
  }

  lemma {:induction false} ReplayIsLegal(t: EventType, s: Store, fields: seq<EventField>)
    requires Legal(t, s)
    ensures Legal(t, Replay(t, s, fields))
  {
    if fields != [] {
      ReplayIsLegal(t, s, fields[..|fields| - 1]);
    }
  }

  lemma DefaultsAreLegal(t: EventType, now: int)
    requires Legal(t, t.initial)
    ensures Legal(t, Defaults(t, now))
  {
  }

  /** Once the source field is the last one, the source is right when a node was
      created and takes it; and only then, if the server's own initial values are
      ones that their properties accept. */
  lemma LastFieldIsSource(t: EventType, before: seq<EventField>, id: Id, now: int, created: bool)
    ensures var node := SetUp(t, before + [EventField(SOURCE_NODE, IdValue(id))], now, created);
      && (created && TakesSource(t, id) ==> SurelyNamesSource(t, node, id))
      && (Legal(t, t.initial) ==> (SurelyNamesSource(t, node, id) <==> created && TakesSource(t, id)))
  {
    hide Defaults, Replay, ToUa;
    var fields := before + [EventField(SOURCE_NODE, IdValue(id))];
    if TakesSource(t, id) {
      LastWriterWins(t, Defaults(t, now), fields, t.resolve[SOURCE_NODE]);
      assert LastHit(t, fields, t.resolve[SOURCE_NODE], |before|);
    }
    if Legal(t, t.initial) {
      DefaultsAreLegal(t, now);
      ReplayIsLegal(t, Defaults(t, now), fields);
    }
  }

  class ObjectNode {
    const id: Id

    constructor (id: Id)
      ensures this.id == id
    {
      this.id := id;
    }

    /** Creates the event node, writes the defaults, then the fields in order;
        fields that fail are skipped. Nothing is written when the server does not
        create the node, and its id is then not set. */
    method SetUpEvent(event: Event, t: EventType, now: int, created: bool) returns (good: bool, node: EventNode)
      ensures node == SetUp(t, event.eventFields, now, created) && (good <==> node.Fresh?)
    {
      if !created {
        return false, Unspecified;
      }
      var s := WriteProperty(t, t.initial, "Time", DateTime(now));
      s := WriteProperty(t, s, "Severity", Severity(DEFAULT_SEVERITY));
      s := WriteProperty(t, s, "Message", LocalizedText("", DEFAULT_MESSAGE));
      s := WriteProperty(t, s, "SourceName", Str("Server"));
      for i := 0 to |event.eventFields|
        invariant s == Replay(t, Defaults(t, now), event.eventFields[..i])
      {
        var f := event.eventFields[i];
        assert event.eventFields[..i + 1][..i] == event.eventFields[..i];
        if f.path !in t.resolve {
          continue;
        }
        var p := t.resolve[f.path];
        if t.accepts(p, f.value) {
          s := s[p := f.value];
        }
      }
      assert event.eventFields[..|event.eventFields|] == event.eventFields;
      return true, Fresh(s);
    }

    /** Sets the event on this object. The source is recorded first, whether or
        not a node is created, and something is triggered in either case; it is
        sure to name this object, whatever was recorded before, when a node was
        created that takes the source, and in general only then. */
    method SetEvent(event: Event, t: EventType, now: int, created: bool) returns (triggered: EventNode)
      modifies event
      ensures event.eventFields == old(event.eventFields) + [EventField([QualifiedName(0, "SourceNode")], IdValue(id))]
      ensures triggered == SetUp(t, event.eventFields, now, created)
      ensures created && TakesSource(t, id) ==> SurelyNamesSource(t, triggered, id)
      ensures Legal(t, t.initial) ==> (SurelyNamesSource(t, triggered, id) <==> created && TakesSource(t, id))
    {
      event.SetSourceNode(id);
      var good;
      good, triggered := SetUpEvent(event, t, now, created);
      LastFieldIsSource(t, old(event.eventFields), id, now, created);
    }
  }

  // ----- Histories of one event -----

  datatype Action =
    | SetMessageAction(m: Value)
    | SetSourceNodeAction(id: Id)
    | SetFieldAction(path: Path, v: Value)
    | SetTransitionAction(transition: Value, id: Id)
    | SetOnAction(target: Id)

  function FieldsOf(a: Action): seq<EventField> {
    match a
    case SetMessageAction(m) => [EventField(MESSAGE, m)]
    case SetSourceNodeAction(id) => [EventField(SOURCE_NODE, IdValue(id))]
    case SetFieldAction(path, v) => [EventField(path, v)]
    case SetTransitionAction(tr, id) => [EventField(TRANSITION, tr), EventField(TRANSITION_ID, IdValue(id))]
    case SetOnAction(target) => [EventField(SOURCE_NODE, IdValue(target))]
  }

  function FieldsAfter(actions: seq<Action>): seq<EventField> {
    if actions == [] then [] else FieldsAfter(actions[..|actions| - 1]) + FieldsOf(actions[|actions| - 1])
  }

  /** What is triggered by the last action, when it sets the event on an object. */
  function Triggered(t: EventType, actions: seq<Action>, now: int, created: bool): EventNode {
    SetUp(t, FieldsAfter(actions), now, created)
  }

  /** However an event was used before, setting it on an object triggers a node
      whose source is that object, provided that a node is created and takes the
      source, and in general only then. */
  lemma SourceIsCurrentObject(t: EventType, history: seq<Action>, target: Id, now: int, created: bool)
    ensures var node := Triggered(t, history + [SetOnAction(target)], now, created);
      && (created && TakesSource(t, target) ==> SurelyNamesSource(t, node, target))
      && (Legal(t, t.initial) ==> (SurelyNamesSource(t, node, target) <==> created && TakesSource(t, target)))
  {
    hide ToUa;
    var actions := history + [SetOnAction(target)];
    assert actions[..|history|] == history;
    LastFieldIsSource(t, FieldsAfter(history), target, now, created);
  }

  function WithoutSetOn(actions: seq<Action>): seq<Action> {
    if actions == [] then [] else
      var last := actions[|actions| - 1];
      WithoutSetOn(actions[..|actions| - 1]) + (if last.SetOnAction? then [] else [last])
  }

  /** Being set on other objects in between disturbs no property but the source:
      the other actions alone trigger the same values. */
  lemma ReuseOnlyTouchesSource(t: EventType, actions: seq<Action>, now: int, created: bool, p: Property)
    requires !(SOURCE_NODE in t.resolve && t.resolve[SOURCE_NODE] == p)
    ensures var a, b := Triggered(t, actions, now, created), Triggered(t, WithoutSetOn(actions), now, created);
      (a.Fresh? <==> b.Fresh?) && (a.Fresh? ==> SameAt(a.store, b.store, p))
  {
    ReuseAt(t, actions, Defaults(t, now), p);
  }

  lemma {:induction false} ReuseAt(t: EventType, actions: seq<Action>, d: Store, p: Property)
    requires !(SOURCE_NODE in t.resolve && t.resolve[SOURCE_NODE] == p)
    ensures SameAt(Replay(t, d, FieldsAfter(actions)), Replay(t, d, FieldsAfter(WithoutSetOn(actions))), p)
  {
    hide Replay;
    if actions != [] {
      var front, last := actions[..|actions| - 1], actions[|actions| - 1];
      ReuseAt(t, front, d, p);
      var a, b, more := FieldsAfter(front), FieldsAfter(WithoutSetOn(front)), FieldsOf(last);
      ReplayOfConcat(t, d, a, more);
      LastWriterWins(t, Replay(t, d, a), more, p);
      if last.SetOnAction? {
        assert NoHit(t, more, p);
        assert WithoutSetOn(actions) == WithoutSetOn(front);
      } else {
        assert (WithoutSetOn(front) + [last])[..|WithoutSetOn(front)|] == WithoutSetOn(front);
        ReplayOfConcat(t, d, b, more);
        LastWriterWins(t, Replay(t, d, b), more, p);
      }
    }
  }
}
