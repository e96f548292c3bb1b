/** The part of the type language that the call intrinsics inspect, and the
    type algebra they call into.

    Only the constructors the intrinsics test for are distinguished; every other
    kind of type is `Opaque`.  The algebra itself (union, subtyping, element type
    of a tuple, approximation, dispatching `to_ary`) is not modelled: its
    operations are the fields of a `TypeOps` value that every member takes as a
    parameter, so every property proved holds for any such algebra. */
module Types {
  import opened Options

  datatype LiteralKind = StringLiteral | SymbolLiteral

  datatype Type =
    | Untyped
    | Nil                                   // the class type of NilClass
    | ClassT(klass: nat)                    // any other class type
    | Applied(klass: nat, targs: seq<Type>) // a generic class applied to type arguments
    | IntLiteral(value: int)
    | FloatLiteral(repr: int)               // float literals are compared, never computed with
    | NamedLiteral(kind: LiteralKind, name: nat)
    | Tuple(elems: seq<Type>)
    | Shape(keys: seq<Type>, values: seq<Type>)
    | Or(left: Type, right: Type)
    | Opaque(id: nat)

  /** Class symbols the intrinsics refer to. */
  const IntegerClass: nat := 1
  const ArrayClass: nat := 2
  const HashClass: nat := 3

  /** `Types::Integer()`. */
  const IntegerType: Type := ClassT(IntegerClass)

  /** `Types::arrayOf(t)`. */
  function ArrayOf(t: Type): Type
  {
    Applied(ArrayClass, [t])
  }

  /** `Types::arrayOfUntyped()`. */
  const ArrayOfUntyped: Type := Applied(ArrayClass, [Untyped])

  /** `Types::hashOfUntyped()`: keys, values and elements all untyped. */
  const HashOfUntyped: Type := Applied(HashClass, [Untyped, Untyped, Untyped])

  /** The literal types that may serve as shape keys. */
  predicate IsLiteral(t: Type)
  {
    t.NamedLiteral? || t.IntLiteral? || t.FloatLiteral?
  }

  predicate IsSymbolLiteral(t: Type)
  {
    t.NamedLiteral? && t.kind == SymbolLiteral
  }

  /** The uninterpreted type algebra.
      - any: `Types::any`, the union of two types;
      - isSubType: `Types::isSubType`;
      - isFullyDefined: `TypePtr::isFullyDefined`;
      - elementType: `TupleType::elementType`, given the tuple's elements;
      - derivesFromArray: whether `Types::approximate` of the type derives from Array;
      - toAry: the return type of dispatching `to_ary` on the type, None when that
        dispatch reports errors. */
  datatype TypeOps = TypeOps(
    any: (Type, Type) -> Type,
    isSubType: (Type, Type) -> bool,
    isFullyDefined: Type -> bool,
    elementType: seq<Type> -> Type,
    derivesFromArray: Type -> bool,
    toAry: Type -> Option<Type>)
}
