/** Array_flatten: the element type of `array.flatten(depth)`.

    Flattening unwraps nested arrays and tuples level by level, at most `depth`
    levels, and descends into unions.  A class that is not Array may still be
    flattened through its `to_ary` method: when dispatching `to_ary` succeeds
    with a type other than nil, flattening goes on from that type at the same
    depth.  Nothing bounds how often that can happen, so the model takes a
    `fuel` bound on the number of `to_ary` steps and reports when it runs out. */
module ArrayFlatten {
  import opened Options
  import opened Types

  /** The `depth` used when none, or a negative one, is given. */
  const MaxDepth: nat := 100

  /** recursivelyFlattenArrays; None when more than `fuel` `to_ary` steps are needed.
      Flattening zero levels changes nothing, and an untyped type, a literal type, a
      shape or any other type that is neither a union, a class, an applied class nor
      a tuple is already its own element type at every depth. */
  function RecursivelyFlatten(ops: TypeOps, t: Type, depth: nat, fuel: nat): (r: Option<Type>)
    ensures depth == 0 ==> r == Some(t)
    ensures t.Untyped? ==> r == Some(t)
    ensures !(t.Or? || t.Untyped? || t.Nil? || t.ClassT? || t.Applied? || t.Tuple?) ==> r == Some(t)
    decreases fuel, depth, t, 1
  {
    if depth == 0 then Some(t)
    else match t
      case Or(left, right) =>
        (match (RecursivelyFlatten(ops, left, depth, fuel), RecursivelyFlatten(ops, right, depth, fuel))
         case (Some(l), Some(r)) => Some(ops.any(l, r))
         case _ => None)
      case Untyped => TypeToAry(ops, t, depth, fuel)
      case Nil => TypeToAry(ops, t, depth, fuel)
      case ClassT(_) => TypeToAry(ops, t, depth, fuel)
      case Applied(klass, targs) =>
        if klass == ArrayClass && targs != [] then RecursivelyFlatten(ops, targs[0], depth - 1, fuel)
        else if klass == ArrayClass then Some(t)
        else TypeToAry(ops, t, depth, fuel)
      case Tuple(elems) => RecursivelyFlatten(ops, ops.elementType(elems), depth - 1, fuel)
      case _ => Some(t)
  }

  /** typeToAry: flatten further through `to_ary` when it can be called and does not
      return nil; otherwise the type itself is the element type.  Running out of fuel
      only happens after a successful `to_ary` dispatch. */
  function TypeToAry(ops: TypeOps, t: Type, depth: nat, fuel: nat): (r: Option<Type>)
    ensures t.Untyped? || ops.toAry(t).None? || ops.toAry(t) == Some(Nil) ==> r == Some(t)
    ensures r.None? ==> !t.Untyped? && ops.toAry(t).Some? && ops.toAry(t).value != Nil
    decreases fuel, depth, t, 0
  {
    if t.Untyped? then Some(t)
    else match ops.toAry(t)
      case None => Some(t)
      case Some(returned) =>
        if returned == Nil then Some(t)
        else if fuel == 0 then None
        else RecursivelyFlatten(ops, returned, depth, fuel - 1)
  }

  /** Each level of array nesting costs one level of depth. */
  lemma FlattenArrayLevel(ops: TypeOps, t: Type, depth: nat, fuel: nat)
    ensures RecursivelyFlatten(ops, ArrayOf(t), depth + 1, fuel) == RecursivelyFlatten(ops, t, depth, fuel)
  {
  }

  /** `k` levels of arrays around a type. */
  function Nest(t: Type, k: nat): Type
  {
    if k == 0 then t else ArrayOf(Nest(t, k - 1))
  }

  /** Flattening `k` more levels than there are arrays flattens what is inside. */
  lemma {:induction false} FlattenNested(ops: TypeOps, t: Type, k: nat, depth: nat, fuel: nat)
    ensures RecursivelyFlatten(ops, Nest(t, k), depth + k, fuel) == RecursivelyFlatten(ops, t, depth, fuel)
  {
    if k > 0 {
      FlattenArrayLevel(ops, Nest(t, k - 1), depth + k - 1, fuel);
      FlattenNested(ops, t, k - 1, depth, fuel);
    }
  }

  /** Fuel is only a bound: once flattening finishes, more fuel gives the same type. */
  lemma {:induction false} FlattenFuelMonotone(ops: TypeOps, t: Type, depth: nat, fuel: nat)
    requires RecursivelyFlatten(ops, t, depth, fuel).Some?
    ensures RecursivelyFlatten(ops, t, depth, fuel + 1) == RecursivelyFlatten(ops, t, depth, fuel)
    decreases fuel, depth, t, 1
  {
    if depth > 0 {
      match t
      case Or(left, right) =>
        FlattenFuelMonotone(ops, left, depth, fuel);
        FlattenFuelMonotone(ops, right, depth, fuel);
      case Untyped =>
      case Nil => TypeToAryFuelMonotone(ops, t, depth, fuel);
      case ClassT(_) => TypeToAryFuelMonotone(ops, t, depth, fuel);
      case Applied(klass, targs) =>
        if klass == ArrayClass && targs != [] {
          FlattenFuelMonotone(ops, targs[0], depth - 1, fuel);
        } else if klass != ArrayClass {
          TypeToAryFuelMonotone(ops, t, depth, fuel);
        }
      case Tuple(elems) => FlattenFuelMonotone(ops, ops.elementType(elems), depth - 1, fuel);
      case _ =>
    }
  }

  lemma {:induction false} TypeToAryFuelMonotone(ops: TypeOps, t: Type, depth: nat, fuel: nat)
    requires TypeToAry(ops, t, depth, fuel).Some?
    ensures TypeToAry(ops, t, depth, fuel + 1) == TypeToAry(ops, t, depth, fuel)
    decreases fuel, depth, t, 0
  {
    if !t.Untyped? && ops.toAry(t).Some? && ops.toAry(t).value != Nil && fuel > 0 {
      FlattenFuelMonotone(ops, ops.toAry(t).value, depth, fuel - 1);
    }
  }

  /** What Array_flatten does: set no result (reporting that the depth must be an
      integer literal, or not), set `T::Array[element]`, or, in the model only, run
      out of `to_ary` fuel. */
  datatype Outcome = NoResult(reportsExpectedLiteral: bool) | Returns(t: Type) | FuelExhausted

  /** The depth requested by the arguments, None when there is none to speak of. */
  function DepthOf(args: seq<Type>): (d: Option<nat>)
    ensures |args| == 0 ==> d == Some(MaxDepth)
    ensures |args| == 1 && args[0].IntLiteral? && args[0].value >= 0 ==> d == Some(args[0].value)
    ensures |args| == 1 && args[0].IntLiteral? && args[0].value < 0 ==> d == Some(MaxDepth)
    ensures d.None? <==> |args| > 1 || (|args| == 1 && !args[0].IntLiteral?)
  {
    if |args| == 1 then
      if !args[0].IntLiteral? then None
      else if args[0].value >= 0 then Some(args[0].value) else Some(MaxDepth)
    else if |args| == 0 then Some(MaxDepth)
    else None
  }

  /** Array_flatten on a receiver `T::Array[element]`. */
  function Flatten(ops: TypeOps, recv: Type, args: seq<Type>, fuel: nat): (r: Outcome)
    requires recv.Applied? && recv.targs != []
    ensures r.NoResult? <==> DepthOf(args).None?
    ensures r.NoResult? ==> (r.reportsExpectedLiteral <==> |args| == 1)
    ensures r.Returns? ==> r.t.Applied? && r.t.klass == ArrayClass && |r.t.targs| == 1
    ensures DepthOf(args).Some? ==>
              var element := RecursivelyFlatten(ops, recv.targs[0], DepthOf(args).value, fuel);
              (r.FuelExhausted? <==> element.None?) && (element.Some? ==> r == Returns(ArrayOf(element.value)))
  {
    match DepthOf(args)
    case None => NoResult(|args| == 1)
    case Some(depth) =>
      match RecursivelyFlatten(ops, recv.targs[0], depth, fuel)
      case Some(element) => Returns(ArrayOf(element))
      case None => FuelExhausted
  }

  /** A negative depth is the same as none. */
  lemma FlattenNegativeDepthIsDefault(ops: TypeOps, recv: Type, n: int, fuel: nat)
    requires recv.Applied? && recv.targs != [] && n < 0
    ensures Flatten(ops, recv, [IntLiteral(n)], fuel) == Flatten(ops, recv, [], fuel)
  {
  }

  /** `flatten(k + d)` on `k` nested arrays is `flatten(d)` on what they hold; in
      particular `flatten(k)` unwraps exactly those `k` levels. */
  lemma FlattenNestedLiteral(ops: TypeOps, t: Type, k: nat, d: nat, fuel: nat)
    ensures Flatten(ops, ArrayOf(Nest(t, k)), [IntLiteral(k + d)], fuel) == Flatten(ops, ArrayOf(t), [IntLiteral(d)], fuel)
    ensures Flatten(ops, ArrayOf(Nest(t, k)), [IntLiteral(k)], fuel) == Returns(ArrayOf(t))
  {
    FlattenNested(ops, t, k, d, fuel);
    FlattenNested(ops, t, k, 0, fuel);
  }

  /** The source does not bound the `to_ary` steps: a class whose `to_ary` returns
      the class itself never reaches an element type, whatever the fuel. */
  lemma {:induction false} ToArySelfLoopNeverFinishes(ops: TypeOps, k: nat, depth: nat, fuel: nat)
    requires depth > 0 && ops.toAry(ClassT(k)) == Some(ClassT(k))
    ensures RecursivelyFlatten(ops, ClassT(k), depth, fuel).None?
    ensures Flatten(ops, ArrayOf(ClassT(k)), [], fuel) == FuelExhausted
    decreases fuel, if depth == MaxDepth then 0 else 1
  {
    if fuel > 0 {
      ToArySelfLoopNeverFinishes(ops, k, depth, fuel - 1);
    }
    if depth != MaxDepth {
      ToArySelfLoopNeverFinishes(ops, k, MaxDepth, fuel);
    }
  }

  /** `flatten(0)` returns the array type with the receiver's element type. */
  lemma FlattenZeroIsIdentity(ops: TypeOps, recv: Type, fuel: nat)
    requires recv.Applied? && recv.targs != []
    ensures Flatten(ops, recv, [IntLiteral(0)], fuel) == Returns(ArrayOf(recv.targs[0]))
  {
  }
}
