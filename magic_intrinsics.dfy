/** The Magic intrinsics behind hash literals, array literals and splats.

    The desugarer turns `{k1 => v1, k2 => v2}` and keyword arguments into
    `<Magic>.<build-hash>(k1, v1, k2, v2)`, `[a, b]` into
    `<Magic>.<build-array>(a, b)`, and `a, b = *x` into
    `<Magic>.<expand-splat>(x, before, after)`. */
module MagicIntrinsics {
  import opened Options
  import opened Types

  /** The keys of an interleaved key/value argument list: the first of each pair. */
  function HashKeys(args: seq<Type>): seq<Type>
  {
    if |args| < 2 then [] else [args[0]] + HashKeys(args[2..])
  }

  /** The values: the second of each pair. */
  function HashValues(args: seq<Type>): (values: seq<Type>)
    ensures |values| == |HashKeys(args)|
  {
    if |args| < 2 then [] else [args[1]] + HashValues(args[2..])
  }

  /** Keys and values laid out again as the argument list they came from. */
  function Interleave(keys: seq<Type>, values: seq<Type>): (args: seq<Type>)
    requires |keys| == |values|
    ensures |args| == 2 * |keys|
  {
    if keys == [] then [] else [keys[0], values[0]] + Interleave(keys[1..], values[1..])
  }

  lemma {:induction false} HashKeysAppend(a: seq<Type>, b: seq<Type>)
    requires |a| % 2 == 0
    ensures HashKeys(a + b) == HashKeys(a) + HashKeys(b)
  {
    if a == [] {
      assert a + b == b;
    } else {
      var ab := a + b;
      assert ab[0] == a[0] && ab[2..] == a[2..] + b;
      HashKeysAppend(a[2..], b);
    }
  }

  lemma {:induction false} HashValuesAppend(a: seq<Type>, b: seq<Type>)
    requires |a| % 2 == 0
    ensures HashValues(a + b) == HashValues(a) + HashValues(b)
  {
    if a == [] {
      assert a + b == b;
    } else {
      var ab := a + b;
      assert ab[1] == a[1] && ab[2..] == a[2..] + b;
      HashValuesAppend(a[2..], b);
    }
  }

  /** Splitting a list made of whole pairs splits each part. */
  lemma HashPairsAppend(a: seq<Type>, b: seq<Type>)
    requires |a| % 2 == 0
    ensures HashKeys(a + b) == HashKeys(a) + HashKeys(b)
    ensures HashValues(a + b) == HashValues(a) + HashValues(b)
  {
    HashKeysAppend(a, b);
    HashValuesAppend(a, b);
  }

  /** Splitting an argument list into keys and values loses nothing. */
  lemma {:induction false} InterleaveSplit(args: seq<Type>)
    requires |args| % 2 == 0
    ensures |HashKeys(args)| == |HashValues(args)|
    ensures Interleave(HashKeys(args), HashValues(args)) == args
  {
    if args != [] {
      InterleaveSplit(args[2..]);
      assert HashKeys(args)[1..] == HashKeys(args[2..]);
      assert HashValues(args)[1..] == HashValues(args[2..]);
      assert args == [args[0], args[1]] + args[2..];
    }
  }

  /** And laying keys and values out as arguments gives them back. */
  lemma {:induction false} SplitInterleave(keys: seq<Type>, values: seq<Type>)
    requires |keys| == |values|
    ensures HashKeys(Interleave(keys, values)) == keys
    ensures HashValues(Interleave(keys, values)) == values
  {
    if keys != [] {
      SplitInterleave(keys[1..], values[1..]);
      assert Interleave(keys, values)[2..] == Interleave(keys[1..], values[1..]);
    }
  }

  /** Whether every key (even-position argument) is a literal type. */
  predicate AllKeysLiteral(args: seq<Type>)
  {
    forall i :: 0 <= i < |args| && i % 2 == 0 ==> IsLiteral(args[i])
  }

  /** Magic_buildHashOrKeywordArgs: a shape type when every key is a literal type,
      otherwise `T::Hash[T.untyped, T.untyped]`. */
  method BuildHashOrKeywordArgs(args: seq<Type>) returns (r: Type)
    requires |args| % 2 == 0
    ensures AllKeysLiteral(args) ==> r == Shape(HashKeys(args), HashValues(args))
    ensures !AllKeysLiteral(args) ==> r == HashOfUntyped
  {
    var i := 0;
    while i < |args|
      invariant 0 <= i <= |args| && i % 2 == 0
      invariant forall j :: 0 <= j < i && j % 2 == 0 ==> IsLiteral(args[j])
    {
      if !IsLiteral(args[i]) {
        return HashOfUntyped;
      }
      i := i + 2;
    }

    var keys: seq<Type> := [];
    var values: seq<Type> := [];
    i := 0;
    while i < |args|
      invariant 0 <= i <= |args| && i % 2 == 0
      invariant keys == HashKeys(args[..i]) && values == HashValues(args[..i])
    {
      assert args[..i + 2] == args[..i] + [args[i], args[i + 1]];
      HashPairsAppend(args[..i], [args[i], args[i + 1]]);
      keys := keys + [args[i]];
      values := values + [args[i + 1]];
      i := i + 2;
    }
    assert args[..i] == args;
    r := Shape(keys, values);
  }

  /** Magic_buildArray: the tuple of the elements' types. */
  method BuildArray(args: seq<Type>) returns (r: Type)
    ensures r.Tuple? && r.elems == args
  {
    var elems: seq<Type> := [];
    for i := 0 to |args|
      invariant elems == args[..i]
    {
      elems := elems + [args[i]];
    }
    assert args[..|args|] == args;
    r := Tuple(elems);
  }

  /** The value of a C++ `int` reached by converting `x`: two's complement wrap-around
      into 32 bits. */
  function Int32(x: int): (r: int)
    ensures -0x8000_0000 <= r < 0x8000_0000
    ensures (x - r) % 0x1_0000_0000 == 0
    ensures -0x8000_0000 <= x < 0x8000_0000 ==> r == x
  {
    (x + 0x8000_0000) % 0x1_0000_0000 - 0x8000_0000
  }

  /** `vector::resize(n, nil)`: grow to `n` elements by appending nil, never shrink. */
  function PadWithNil(s: seq<Type>, n: nat): (r: seq<Type>)
    ensures |r| == if |s| < n then n else |s|
    ensures r[..|s|] == s
    ensures forall j :: |s| <= j < |r| ==> r[j] == Nil
  {
    if |s| < n then s + seq(n - |s|, _ => Nil) else s
  }

  /** Whether expanding `t` builds a tuple for some branch: a tuple, or a value that
      does not derive from Array, outside or inside a union.  Only such a branch
      resizes a vector to the target length. */
  predicate ReachesResize(ops: TypeOps, t: Type)
  {
    match t
    case Or(left, right) => ReachesResize(ops, left) || ReachesResize(ops, right)
    case Tuple(_) => true
    case _ => !ops.derivesFromArray(t)
  }

  /** expandArray: unions are expanded branch by branch; an array type that is not
      a tuple passes through; a tuple keeps its elements and any other type becomes
      the one element of a tuple, padded with nil to `expandTo` elements.  The size
      is compared with `expandTo` converted to an unsigned size, so a negative target
      asks `vector::resize` for about 2^64 elements, which fails: the model gives None
      for such an expansion. */
  function ExpandArray(ops: TypeOps, t: Type, expandTo: int): (r: Option<Type>)
    ensures r.None? <==> expandTo < 0 && ReachesResize(ops, t)
  {
    match t
    case Or(left, right) =>
      (match (ExpandArray(ops, left, expandTo), ExpandArray(ops, right, expandTo))
       case (Some(l), Some(r)) => Some(ops.any(l, r))
       case _ => None)
    case Tuple(elems) => if expandTo < 0 then None else Some(Tuple(PadWithNil(elems, expandTo)))
    case _ =>
      if ops.derivesFromArray(t) then Some(t)
      else if expandTo < 0 then None
      else Some(Tuple(PadWithNil([t], expandTo)))
  }

  /** Outside unions, the expansion is the unchanged value when it is an array type
      that is not a tuple, and otherwise a tuple of at least the target length that
      begins with the tuple's elements, or with the value itself. */
  lemma ExpandArrayShape(ops: TypeOps, t: Type, expandTo: int)
    requires !t.Or?
    ensures var r := ExpandArray(ops, t, expandTo);
            r.Some? ==>
              (!t.Tuple? && ops.derivesFromArray(t) && r.value == t) ||
              (r.value.Tuple? && |r.value.elems| >= expandTo &&
               (t.Tuple? ==> |r.value.elems| >= |t.elems| && r.value.elems[..|t.elems|] == t.elems) &&
               (!t.Tuple? ==> |r.value.elems| >= 1 && r.value.elems[0] == t))
  {
    var r := ExpandArray(ops, t, expandTo);
    if r.Some? && !t.Tuple? && !ops.derivesFromArray(t) {
      assert r.value.elems[..1] == [t];
    }
  }

  /** Outside unions, expanding the result again to the same length changes nothing. */
  lemma ExpandArrayIdempotent(ops: TypeOps, t: Type, expandTo: int)
    requires !t.Or?
    ensures var r := ExpandArray(ops, t, expandTo);
            r.Some? ==> ExpandArray(ops, r.value, expandTo) == r
  {
    var r := ExpandArray(ops, t, expandTo);
    if r.Some? && r.value.Tuple? {
      assert expandTo >= 0;
      assert |r.value.elems| >= expandTo;
      assert PadWithNil(r.value.elems, expandTo) == r.value.elems;
    }
  }

  /** Magic_expandSplat: `Some(t)` sets the result type `t`.  With other than three
      arguments the result is `T::Array[T.untyped]`; when the two counts are not
      integer literals it is `T.untyped`; otherwise the splatted value is expanded
      to `before + after` elements, each count and their sum evaluated as a C++
      `int`. */
  function ExpandSplat(ops: TypeOps, args: seq<Type>): (r: Option<Type>)
    ensures |args| != 3 ==> r == Some(ArrayOfUntyped)
    ensures |args| == 3 && !(args[1].IntLiteral? && args[2].IntLiteral?) ==> r == Some(Untyped)
    ensures |args| == 3 && args[1].IntLiteral? && args[2].IntLiteral? ==>
              var expandTo := Int32(Int32(args[1].value) + Int32(args[2].value));
              (r.None? <==> expandTo < 0 && ReachesResize(ops, args[0])) &&
              r == ExpandArray(ops, args[0], expandTo)
  {
    if |args| != 3 then Some(ArrayOfUntyped)
    else if !(args[1].IntLiteral? && args[2].IntLiteral?) then Some(Untyped)
    else
      var expandTo := Int32(Int32(args[1].value) + Int32(args[2].value));
      ExpandArray(ops, args[0], expandTo)
  }

  /** The counts the desugarer emits for `a, b, *c, d = x` are small and non-negative,
      and then the target is just their sum and the expansion always succeeds. */
  lemma ExpandSplatSmallCounts(ops: TypeOps, value: Type, before: int, after: int)
    requires 0 <= before < 0x4000_0000 && 0 <= after < 0x4000_0000
    ensures ExpandSplat(ops, [value, IntLiteral(before), IntLiteral(after)]) ==
            ExpandArray(ops, value, before + after)
    ensures ExpandSplat(ops, [value, IntLiteral(before), IntLiteral(after)]).Some?
  {
  }

  /** An array value that is not a tuple passes through whatever the counts are,
      even when their sum is negative. */
  lemma ExpandSplatArrayPassesThrough(ops: TypeOps, value: Type, before: int, after: int)
    requires !value.Or? && !value.Tuple? && ops.derivesFromArray(value)
    ensures ExpandSplat(ops, [value, IntLiteral(before), IntLiteral(after)]) == Some(value)
  {
  }
}
