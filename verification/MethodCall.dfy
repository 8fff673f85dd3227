/** Calling a typed function with untyped variants: reading the inputs, applying
    the function, writing the outputs, and the argument descriptors. */
module MethodCall {
  import opened Options

  datatype BaseType =
    | BOOLEAN | SBYTE | BYTE | INT16 | UINT16 | INT32 | UINT32 | INT64 | UINT64 | FLOAT | DOUBLE | STRING

  /** The C++ type of an argument: `T` or `std::vector<T>`. */
  datatype ArgType = Plain(base: BaseType) | Vector(base: BaseType)

  /** One element, as the bits or characters it consists of. */
  type Element = seq<nat>

  datatype Value =
    | PlainValue(base: BaseType, element: Element)
    | VectorValue(base: BaseType, elements: seq<Element>)

  function TypeOf(v: Value): ArgType {
    if v.PlainValue? then Plain(v.base) else Vector(v.base)
  }

  datatype Variant =
    | Empty
    | Scalar(base: BaseType, element: Element)
    | Array(base: BaseType, elements: seq<Element>)

  function ToVariant(v: Value): Variant {
    match v
    case PlainValue(base, e) => Scalar(base, e)
    case VectorValue(base, es) => Array(base, es)
  }

  /** `Variant::get<T>`: the data pointer is read as `T` without a check. None
      where that reads something else or nothing. */
  function Read(v: Variant, t: ArgType): Option<Value> {
    match v
    case Empty => None
    case Scalar(base, e) =>
      if base != t.base then None
      else if t.Plain? then Some(PlainValue(base, e)) else Some(VectorValue(base, []))
    case Array(base, es) =>
      if base != t.base then None
      else if t.Vector? then Some(VectorValue(base, es))
      else if es != [] then Some(PlainValue(base, es[0])) else None
  }

  /** A value written into a variant is read back at its own type. */
  lemma ReadOfWritten(v: Value)
    ensures Read(ToVariant(v), TypeOf(v)) == Some(v)
  {
  }

  // ----- Signatures -----

  datatype ResultType = Void | Single(t: ArgType) | Tuple(ts: seq<ArgType>)

  datatype Returned = Nothing | One(v: Value) | Many(vs: seq<Value>)

  datatype Signature = Signature(inputs: seq<ArgType>, result: ResultType)

  ghost predicate Typed(vs: seq<Value>, ts: seq<ArgType>) {
    |vs| == |ts| && forall i | 0 <= i < |vs| :: TypeOf(vs[i]) == ts[i]
  }

  ghost predicate Returns(r: Returned, t: ResultType) {
    match t
    case Void => r.Nothing?
    case Single(t) => r.One? && TypeOf(r.v) == t
    case Tuple(ts) => r.Many? && Typed(r.vs, ts)
  }

  function Outputs(t: ResultType): seq<ArgType> {
    match t case Void => [] case Single(t) => [t] case Tuple(ts) => ts
  }

  function Results(r: Returned): seq<Value> {
    match r case Nothing => [] case One(v) => [v] case Many(vs) => vs
  }

  type ObjectPtr = nat

  /** The wrapped function: free, or a member function called on the object
      whose pointer the method call passes on. */
  datatype Function =
    | Free(f: seq<Value> -> Returned)
    | Member(g: (ObjectPtr, seq<Value>) -> Returned)

  function Apply(fn: Function, obj: ObjectPtr, args: seq<Value>): Returned {
    match fn case Free(f) => f(args) case Member(g) => g(obj, args)
  }

  /** The C++ type system: the function returns what its signature says. */
  ghost predicate WellTyped(fn: Function, sig: Signature) {
    forall obj, args | Typed(args, sig.inputs) :: Returns(Apply(fn, obj, args), sig.result)
  }

  /** Each declared input can be read from the variant at its position. */
  ghost predicate Readable(inputs: seq<Variant>, sig: Signature) {
    |sig.inputs| <= |inputs| && forall i | 0 <= i < |sig.inputs| :: Read(inputs[i], sig.inputs[i]).Some?
  }

  ghost function Arguments(inputs: seq<Variant>, sig: Signature): (args: seq<Value>)
    requires Readable(inputs, sig)
    ensures Typed(args, sig.inputs)
  {
    seq(|sig.inputs|, i requires 0 <= i < |sig.inputs| => Read(inputs[i], sig.inputs[i]).value)
  }

  function ToVariants(vs: seq<Value>): seq<Variant> {
    seq(|vs|, i requires 0 <= i < |vs| => ToVariant(vs[i]))
  }

  /** The outputs `after` the call hold what the function returned for the arguments
      in `inputs`, one result each from the front, the rest as `before`; a member
      function was called on `obj`. */
  ghost predicate Delivered(
    fn: Function, sig: Signature, obj: ObjectPtr, inputs: seq<Variant>, before: seq<Variant>, after: seq<Variant>)
    requires Readable(inputs, sig)
  {
    var args := Arguments(inputs, sig);
    var returned := if fn.Member? then fn.g(obj, args) else fn.f(args);
    var n := |Outputs(sig.result)|;
    && |after| == |before| && |Results(returned)| == n <= |after|
    && (forall k | 0 <= k < n :: after[k] == ToVariant(Results(returned)[k]))
    && (forall k | n <= k < |after| :: after[k] == before[k])
  }

  class Call {
    const fn: Function
    const sig: Signature

    constructor (fn: Function, sig: Signature)
      ensures this.fn == fn && this.sig == sig
    {
      this.fn := fn;
      this.sig := sig;
    }

    /** Input `i` is read from variant `i`, result `i` is written to output `i`,
        and the other outputs stay as they were. */
    method Invoke(obj: ObjectPtr, inputs: seq<Variant>, outputs: array<Variant>) returns (ok: bool)
      requires WellTyped(fn, sig) && Readable(inputs, sig) && |Outputs(sig.result)| <= outputs.Length
      modifies outputs
      ensures ok && Delivered(fn, sig, obj, inputs, old(outputs[..]), outputs[..])
    {
      var args: seq<Value> := [];
      for i := 0 to |sig.inputs|
        invariant args == Arguments(inputs, sig)[..i]
      {
        args := args + [Read(inputs[i], sig.inputs[i]).value];
      }
      assert args == Arguments(inputs, sig);
      var result := Apply(fn, obj, args);
      assert Returns(result, sig.result);
      ok := true;
      match result
      case Nothing =>
      case One(v) =>
        outputs[0] := ToVariant(v);
      case Many(vs) =>
        for i := 0 to |vs|
          invariant forall k | 0 <= k < i :: outputs[k] == ToVariant(vs[k])
          invariant forall k | i <= k < outputs.Length :: outputs[k] == old(outputs[k])
        {
          outputs[i] := ToVariant(vs[i]);
        }
    }
  }

  datatype Status = Good | BadMethodInvalid

  /** The callback the C server runs for a method node; no context, no call. */
  method MethodCallback(context: Option<Call>, obj: ObjectPtr, inputs: seq<Variant>, outputs: array<Variant>)
    returns (status: Status)
    requires context.Some? ==>
      var c := context.value;
      WellTyped(c.fn, c.sig) && Readable(inputs, c.sig) && |Outputs(c.sig.result)| <= outputs.Length
    modifies outputs
    ensures status == if context.Some? then Good else BadMethodInvalid
    ensures context.None? ==> outputs[..] == old(outputs[..])
    ensures context.Some? ==>
      Delivered(context.value.fn, context.value.sig, obj, inputs, old(outputs[..]), outputs[..])
  {
    if context.None? {
      return BadMethodInvalid;
    }
    var ok := context.value.Invoke(obj, inputs, outputs);
    status := if ok then Good else BadMethodInvalid;
  }

  // ----- Calling through variants is calling -----

  /** Arguments sent as variants, with anything after them, arrive unchanged. */
  lemma ArgumentsArrive(args: seq<Value>, more: seq<Variant>, sig: Signature)
    requires Typed(args, sig.inputs)
    ensures Readable(ToVariants(args) + more, sig) && Arguments(ToVariants(args) + more, sig) == args
  {
    forall i | 0 <= i < |args|
      ensures Read((ToVariants(args) + more)[i], sig.inputs[i]) == Some(args[i])
    {
      ReadOfWritten(args[i]);
    }
  }

  /** End to end: typed arguments sent as variants, and outputs read back at the
      declared types, give what calling the function directly gives, a member
      function on the object whose pointer is passed on. */
  lemma CallRefinesApplication(
    fn: Function, sig: Signature, obj: ObjectPtr, args: seq<Value>, more: seq<Variant>,
    before: seq<Variant>, after: seq<Variant>, i: nat)
    requires WellTyped(fn, sig) && Typed(args, sig.inputs) && i < |Outputs(sig.result)|
    requires Readable(ToVariants(args) + more, sig)
    requires Delivered(fn, sig, obj, ToVariants(args) + more, before, after)
    ensures var results := Results(if fn.Member? then fn.g(obj, args) else fn.f(args));
      |results| == |Outputs(sig.result)| && Read(after[i], Outputs(sig.result)[i]) == Some(results[i])
  {
    ArgumentsArrive(args, more, sig);
    assert Returns(Apply(fn, obj, args), sig.result);
    ReadOfWritten(Results(Apply(fn, obj, args))[i]);
  }

  // ----- Descriptors -----

  const RANK_SCALAR := -1
  const RANK_ONE_DIMENSION := 1

  datatype Argument = Argument(dataType: BaseType, valueRank: int)

  function InputArgument(t: ArgType): Argument {
    Argument(t.base, RANK_SCALAR)
  }

  function OutputArgument(t: ArgType): Argument {
    Argument(t.base, if t.Vector? then RANK_ONE_DIMENSION else RANK_SCALAR)
  }

  method GetInputArguments(sig: Signature) returns (args: seq<Argument>)
    ensures |args| == |sig.inputs| && forall i | 0 <= i < |args| :: args[i] == Argument(sig.inputs[i].base, -1)
  {
    args := seq(|sig.inputs|, i requires 0 <= i < |sig.inputs| => InputArgument(sig.inputs[i]));
  }

  method GetOutputArguments(sig: Signature) returns (args: seq<Argument>)
    ensures |args| == |Outputs(sig.result)|
    ensures forall i | 0 <= i < |args| ::
      var t := Outputs(sig.result)[i]; args[i] == Argument(t.base, if t.Vector? then 1 else -1)
  {
    match sig.result
    case Void =>
      args := [];
    case Single(t) =>
      args := [OutputArgument(t)];
    case Tuple(ts) =>
      args := [];
      for i := 0 to |ts|
        invariant |args| == i && forall k | 0 <= k < i :: args[k] == OutputArgument(ts[k])
      {
        args := args + [OutputArgument(ts[i])];
      }
  }

  /** The variant has the type and rank that the descriptor declares. */
  predicate Describes(a: Argument, v: Variant) {
    match v
    case Empty => false
    case Scalar(base, _) => a.dataType == base && a.valueRank == RANK_SCALAR
    case Array(base, _) => a.dataType == base && a.valueRank == RANK_ONE_DIMENSION
  }

  /** Whatever a well-typed function returns, each written output is of the type
      and rank that was declared for it. */
  lemma OutputsAreAsDeclared(fn: Function, sig: Signature, obj: ObjectPtr, args: seq<Value>, i: nat)
    requires WellTyped(fn, sig) && Typed(args, sig.inputs) && i < |Outputs(sig.result)|
    ensures |Results(Apply(fn, obj, args))| == |Outputs(sig.result)|
    ensures Describes(OutputArgument(Outputs(sig.result)[i]), ToVariant(Results(Apply(fn, obj, args))[i]))
  {
    assert Returns(Apply(fn, obj, args), sig.result);
  }

  /** Inputs are always declared scalar: the declaration fits every argument of
      the parameter's type exactly when the parameter is not a vector. */
  lemma InputIsAsDeclaredIff(t: ArgType)
    ensures (forall v | TypeOf(v) == t :: Describes(InputArgument(t), ToVariant(v))) <==> !t.Vector?
  {
    if t.Vector? {
      assert TypeOf(VectorValue(t.base, [])) == t;
    }
  }
}
