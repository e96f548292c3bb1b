/** The intrinsics on tuple types (`[A, B, C]` in Sorbet's notation).

    Each takes the receiver tuple, the argument types and whether a block is
    passed.  `Some(t)` means the intrinsic sets the result type `t`; `None`
    means it sets nothing and the method's declared signature applies. */
module TupleIntrinsics {
  import opened Options
  import opened Types

  /** Tuple_squareBrackets: `tuple[i]` for an integer literal `i`, counting from the
      end when `i` is negative, and nil outside the tuple. */
  function SquareBrackets(recv: Type, args: seq<Type>): (r: Option<Type>)
    requires recv.Tuple?
    ensures r.Some? <==> |args| == 1 && args[0].IntLiteral?
    ensures r.Some? ==>
              var n, i := |recv.elems|, args[0].value;
              (0 <= i < n ==> r.value == recv.elems[i]) &&
              (-n <= i < 0 ==> r.value == recv.elems[n + i]) &&
              (i >= n || i < -n ==> r.value == Nil)
  {
    if |args| != 1 || !args[0].IntLiteral? then None
    else
      var elems := recv.elems;
      var idx := if args[0].value < 0 then |elems| + args[0].value else args[0].value;
      // a negative index still negative here converts to a huge unsigned value
      if idx < 0 || idx >= |elems| then Some(Nil) else Some(elems[idx])
  }

  /** Indexing from the end and from the start agree. */
  lemma SquareBracketsNegative(recv: Type, i: int)
    requires recv.Tuple? && 0 < i <= |recv.elems|
    ensures SquareBrackets(recv, [IntLiteral(-i)]) == SquareBrackets(recv, [IntLiteral(|recv.elems| - i)])
  {
  }

  /** Tuple_first: the first element, nil for the empty tuple; no result when an
      argument (a count) is passed. */
  function First(recv: Type, args: seq<Type>): (r: Option<Type>)
    requires recv.Tuple?
    ensures r.Some? <==> args == []
    ensures r.Some? && recv.elems != [] ==> r.value == recv.elems[0]
    ensures r.Some? && recv.elems == [] ==> r.value == Nil
  {
    if args != [] then None
    else if recv.elems == [] then Some(Nil)
    else Some(recv.elems[0])
  }

  /** Tuple_last: the last element, nil for the empty tuple. */
  function Last(recv: Type, args: seq<Type>): (r: Option<Type>)
    requires recv.Tuple?
    ensures r.Some? <==> args == []
    ensures r.Some? && recv.elems != [] ==> r.value == recv.elems[|recv.elems| - 1]
    ensures r.Some? && recv.elems == [] ==> r.value == Nil
  {
    if args != [] then None
    else if recv.elems == [] then Some(Nil)
    else Some(recv.elems[|recv.elems| - 1])
  }

  /** `first` is `[0]` and `last` is `[-1]`. */
  lemma FirstLastAreIndexing(recv: Type)
    requires recv.Tuple?
    ensures First(recv, []) == SquareBrackets(recv, [IntLiteral(0)])
    ensures Last(recv, []) == SquareBrackets(recv, [IntLiteral(-1)])
  {
  }

  /** Tuple_minMax (`min` and `max`): the element type, nil for the empty tuple. */
  function MinMax(ops: TypeOps, recv: Type, args: seq<Type>): (r: Option<Type>)
    requires recv.Tuple?
    ensures r.Some? <==> args == []
    ensures r.Some? ==> r.value == if recv.elems == [] then Nil else ops.elementType(recv.elems)
  {
    if args != [] then None
    else if recv.elems == [] then Some(Nil)
    else Some(ops.elementType(recv.elems))
  }

  /** Tuple_sum: the element type, Integer for the empty tuple; no result with an
      argument (an initial value) or a block. */
  function Sum(ops: TypeOps, recv: Type, args: seq<Type>, hasBlock: bool): (r: Option<Type>)
    requires recv.Tuple?
    ensures r.Some? <==> args == [] && !hasBlock
    ensures r.Some? && recv.elems == [] ==> r.value == IntegerType
  {
    if args != [] then None
    else if hasBlock then None
    else if recv.elems == [] then Some(IntegerType)
    else Some(ops.elementType(recv.elems))
  }

  /** `sum` and `min`/`max` agree on non-empty tuples. */
  lemma SumOfNonEmptyIsMinMax(ops: TypeOps, recv: Type)
    requires recv.Tuple? && recv.elems != []
    ensures Sum(ops, recv, [], false) == MinMax(ops, recv, [])
  {
  }

  /** Tuple_sample: without an argument an element (nil for the empty tuple); with a
      count an array of the element type (the empty tuple for the empty tuple); no
      result with more arguments or a block. */
  function Sample(ops: TypeOps, recv: Type, args: seq<Type>, hasBlock: bool): (r: Option<Type>)
    requires recv.Tuple?
    ensures r.Some? <==> |args| <= 1 && !hasBlock
    ensures r.Some? && |args| == 1 ==>
              r.value == if recv.elems == [] then Tuple([]) else ArrayOf(ops.elementType(recv.elems))
  {
    if |args| > 1 then None
    else if hasBlock then None
    else if args == [] then
      if recv.elems == [] then Some(Nil) else Some(ops.elementType(recv.elems))
    else
      if recv.elems == [] then Some(Tuple([])) else Some(ArrayOf(ops.elementType(recv.elems)))
  }

  /** `sample` without arguments is `min`. */
  lemma SampleOfNoArgsIsMinMax(ops: TypeOps, recv: Type)
    requires recv.Tuple?
    ensures Sample(ops, recv, [], false) == MinMax(ops, recv, [])
  {
  }

  /** Tuple_to_a: the receiver's type as written (`selfType`), unchanged. */
  function ToA(selfType: Type, args: seq<Type>): (r: Option<Type>)
    ensures r.Some? && r.value == selfType
  {
    Some(selfType)
  }

  predicate AllTuples(args: seq<Type>)
  {
    forall i :: 0 <= i < |args| ==> args[i].Tuple?
  }

  /** The elements of a sequence of tuples, one tuple after another. */
  function Flatten(args: seq<Type>): seq<Type>
    requires AllTuples(args)
  {
    if args == [] then [] else Flatten(args[..|args| - 1]) + args[|args| - 1].elems
  }

  lemma {:induction false} FlattenAppend(a: seq<Type>, b: seq<Type>)
    requires AllTuples(a) && AllTuples(b)
    ensures AllTuples(a + b) && Flatten(a + b) == Flatten(a) + Flatten(b)
  {
    if b != [] {
      var b0 := b[..|b| - 1];
      assert (a + b)[..|a + b| - 1] == a + b0;
      FlattenAppend(a, b0);
    } else {
      assert a + b == a;
    }
  }

  /** The result of Tuple_concat: the receiver's elements followed by those of every
      argument, when every argument is a tuple. */
  function ConcatSpec(elems: seq<Type>, args: seq<Type>): Option<Type>
  {
    if AllTuples(args) then Some(Tuple(elems + Flatten(args))) else None
  }

  /** Concatenating in two calls is concatenating in one. */
  lemma ConcatSplit(elems: seq<Type>, a: seq<Type>, b: seq<Type>)
    ensures ConcatSpec(elems, a + b) ==
            match ConcatSpec(elems, a)
            case Some(t) => ConcatSpec(t.elems, b)
            case None => None
  {
    if AllTuples(a) && AllTuples(b) {
      FlattenAppend(a, b);
      assert elems + Flatten(a + b) == (elems + Flatten(a)) + Flatten(b);
    } else if !AllTuples(a) {
      var i :| 0 <= i < |a| && !a[i].Tuple?;
      assert (a + b)[i] == a[i];
    } else {
      var i :| 0 <= i < |b| && !b[i].Tuple?;
      assert (a + b)[|a| + i] == b[i];
    }
  }

  /** Tuple_concat. */
  method Concat(recv: Type, args: seq<Type>) returns (r: Option<Type>)
    requires recv.Tuple?
    ensures r.Some? <==> AllTuples(args)
    ensures r.Some? ==> r.value.Tuple? && |recv.elems| <= |r.value.elems| && r.value.elems[..|recv.elems|] == recv.elems
    ensures r == ConcatSpec(recv.elems, args)
  {
    var elems := recv.elems;
    for i := 0 to |args|
      invariant AllTuples(args[..i])
      invariant elems == recv.elems + Flatten(args[..i])
    {
      if !args[i].Tuple? {
        assert !AllTuples(args);
        return None;
      }
      assert args[..i + 1][..i] == args[..i];
      elems := elems + args[i].elems;
    }
    assert args[..|args|] == args;
    return Some(Tuple(elems));
  }
}
