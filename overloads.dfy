/** guessOverload: choosing among a method and its overloads by the arguments of
    a call.  The candidates are the primary method and the overloads found for it
    by name lookup, in lookup order; that lookup is not modelled and reaches the
    model as the sequence `overloads`. */
module Overloads {
  import opened Sequences
  import opened Types
  import opened Arity

  /** Candidates are ordered by arity, then by symbol id. */
  function OverloadKey(m: MethodInfo): Key
  {
    Key(|m.arguments| - 1, m.id, 0)
  }

  predicate AllEndInBlockArg(s: seq<MethodInfo>)
  {
    forall c :: c in s ==> EndsInBlockArg(c)
  }

  /** The two kinds of pruning pass: checking argument `i` of type `arg` against
      each candidate, and matching the presence of a block. */
  datatype Criterion = ArgCheck(i: nat, arg: Type) | BlockCheck(hasBlock: bool)

  /** Whether the candidate names its block parameter (it is not the synthetic one). */
  predicate MentionsBlockArg(c: MethodInfo)
    requires EndsInBlockArg(c)
  {
    !c.arguments[|c.arguments| - 1].isSyntheticBlock
  }

  /** Whether a candidate survives a pass.  An argument check drops a candidate that
      has no parameter at that position, or whose parameter type (as seen from the
      receiver, by `asSeenFrom`) is fully defined and not a supertype of the
      argument's type. */
  predicate Survives(ops: TypeOps, asSeenFrom: Type -> Type, crit: Criterion, c: MethodInfo)
    requires EndsInBlockArg(c)
  {
    match crit
    case ArgCheck(i, arg) =>
      i < GetArity(c) &&
      var argType := asSeenFrom(c.arguments[i].declType);
      !(ops.isFullyDefined(argType) && !ops.isSubType(arg, argType))
    case BlockCheck(hasBlock) =>
      MentionsBlockArg(c) == hasBlock
  }

  /** The candidates that survive a pass, in order. */
  function Prune(ops: TypeOps, asSeenFrom: Type -> Type, crit: Criterion, s: seq<MethodInfo>): seq<MethodInfo>
    requires AllEndInBlockArg(s)
  {
    if s == [] then []
    else
      var init, last := s[..|s| - 1], s[|s| - 1];
      assert s == init + [last];
      Prune(ops, asSeenFrom, crit, init) + (if Survives(ops, asSeenFrom, crit, last) then [last] else [])
  }

  /** A pass keeps exactly the candidates that survive it. */
  lemma {:induction false} PruneMembers(ops: TypeOps, asSeenFrom: Type -> Type, crit: Criterion, s: seq<MethodInfo>)
    requires AllEndInBlockArg(s)
    ensures forall c :: c in Prune(ops, asSeenFrom, crit, s) <==> c in s && Survives(ops, asSeenFrom, crit, c)
  {
    if s != [] {
      var init, last := s[..|s| - 1], s[|s| - 1];
      assert s == init + [last];
      PruneMembers(ops, asSeenFrom, crit, init);
    }
  }

  /** A pass keeps the candidates in order. */
  lemma {:induction false} PruneSorted(ops: TypeOps, asSeenFrom: Type -> Type, crit: Criterion, s: seq<MethodInfo>)
    requires AllEndInBlockArg(s) && SortedBy(s, OverloadKey)
    ensures SortedBy(Prune(ops, asSeenFrom, crit, s), OverloadKey)
  {
    if s != [] {
      var init, last := s[..|s| - 1], s[|s| - 1];
      assert s == init + [last];
      assert SortedBy(init, OverloadKey);
      PruneSorted(ops, asSeenFrom, crit, init);
      PruneMembers(ops, asSeenFrom, crit, init);
      SortedBoundedByLast(s, OverloadKey);
      var r0 := Prune(ops, asSeenFrom, crit, init);
      assert forall c :: c in r0 ==> c in s;
      var r := Prune(ops, asSeenFrom, crit, s);
      if Survives(ops, asSeenFrom, crit, last) {
        forall i, j | 0 <= i < j < |r|
          ensures KeyLe(OverloadKey(r[i]), OverloadKey(r[j]))
        {
          if j == |r| - 1 {
            assert r[i] in r0;
          } else {
            assert r[i] == r0[i] && r[j] == r0[j];
          }
        }
      }
    }
  }

  lemma PruneSnoc(ops: TypeOps, asSeenFrom: Type -> Type, crit: Criterion, s: seq<MethodInfo>, x: MethodInfo)
    requires AllEndInBlockArg(s) && EndsInBlockArg(x)
    ensures Prune(ops, asSeenFrom, crit, s + [x]) ==
            Prune(ops, asSeenFrom, crit, s) + (if Survives(ops, asSeenFrom, crit, x) then [x] else [])
  {
    assert (s + [x])[..|s|] == s;
  }

  /** One step of the erasing loop: the candidate under the iterator is the next
      unseen one, and erasing it or stepping past it extends the pruned prefix. */
  lemma EraseStep(ops: TypeOps, asSeenFrom: Type -> Type, crit: Criterion, candidates: seq<MethodInfo>,
                  seen: nat, left: seq<MethodInfo>, it: nat)
    requires AllEndInBlockArg(candidates) && seen < |candidates|
    requires left == Prune(ops, asSeenFrom, crit, candidates[..seen]) + candidates[seen..]
    requires it == |Prune(ops, asSeenFrom, crit, candidates[..seen])|
    ensures it < |left| && left[it] == candidates[seen]
    ensures Survives(ops, asSeenFrom, crit, left[it]) ==>
              left == Prune(ops, asSeenFrom, crit, candidates[..seen + 1]) + candidates[seen + 1..] &&
              it + 1 == |Prune(ops, asSeenFrom, crit, candidates[..seen + 1])|
    ensures !Survives(ops, asSeenFrom, crit, left[it]) ==>
              left[..it] + left[it + 1..] == Prune(ops, asSeenFrom, crit, candidates[..seen + 1]) + candidates[seen + 1..] &&
              it == |Prune(ops, asSeenFrom, crit, candidates[..seen + 1])|
  {
    var done := Prune(ops, asSeenFrom, crit, candidates[..seen]);
    var candidate := candidates[seen];
    assert candidates[..seen + 1] == candidates[..seen] + [candidate];
    PruneSnoc(ops, asSeenFrom, crit, candidates[..seen], candidate);
    assert candidates[seen..] == [candidate] + candidates[seen + 1..];
    assert left[..it] == done;
    assert left[it + 1..] == candidates[seen + 1..];
  }

  /** One pruning pass, erasing in place as the source's iterator loops do. */
  method EraseFailing(ops: TypeOps, asSeenFrom: Type -> Type, crit: Criterion, candidates: seq<MethodInfo>)
    returns (left: seq<MethodInfo>)
    requires AllEndInBlockArg(candidates)
    ensures left == Prune(ops, asSeenFrom, crit, candidates)
    ensures AllEndInBlockArg(left)
  {
    left := candidates;
    var it := 0;
    ghost var seen := 0;
    while it < |left|
      invariant 0 <= seen <= |candidates|
      invariant left == Prune(ops, asSeenFrom, crit, candidates[..seen]) + candidates[seen..]
      invariant it == |Prune(ops, asSeenFrom, crit, candidates[..seen])|
      decreases |candidates| - seen
    {
      EraseStep(ops, asSeenFrom, crit, candidates, seen, left, it);
      var candidate := left[it];
      if !Survives(ops, asSeenFrom, crit, candidate) {
        left := left[..it] + left[it + 1..];
        seen := seen + 1;
        continue;
      }
      it := it + 1;
      seen := seen + 1;
    }
    assert candidates[..seen] == candidates;
    PruneMembers(ops, asSeenFrom, crit, candidates);
  }

  /** The candidates left after checking the first `n` positional arguments. */
  function PositionalPruned(ops: TypeOps, asSeenFrom: Type -> Type, all: seq<MethodInfo>,
                            args: seq<Type>, n: nat): (r: seq<MethodInfo>)
    requires AllEndInBlockArg(all) && n <= |args|
    ensures AllEndInBlockArg(r)
    ensures forall c :: c in r ==> c in all
    ensures SortedBy(all, OverloadKey) ==> SortedBy(r, OverloadKey)
  {
    if n == 0 then all
    else
      var prev := PositionalPruned(ops, asSeenFrom, all, args, n - 1);
      PruneMembers(ops, asSeenFrom, ArgCheck(n - 1, args[n - 1]), prev);
      if SortedBy(all, OverloadKey) then
        PruneSorted(ops, asSeenFrom, ArgCheck(n - 1, args[n - 1]), prev);
        Prune(ops, asSeenFrom, ArgCheck(n - 1, args[n - 1]), prev)
      else
        Prune(ops, asSeenFrom, ArgCheck(n - 1, args[n - 1]), prev)
  }

  /** After the positional arguments, keyword arguments count as one untyped hash. */
  function TypePruned(ops: TypeOps, asSeenFrom: Type -> Type, all: seq<MethodInfo>,
                      numPosArgs: nat, args: seq<Type>): (r: seq<MethodInfo>)
    requires AllEndInBlockArg(all) && numPosArgs <= |args|
    ensures AllEndInBlockArg(r)
    ensures forall c :: c in r ==> c in all
    ensures SortedBy(all, OverloadKey) ==> SortedBy(r, OverloadKey)
  {
    var positional := PositionalPruned(ops, asSeenFrom, all, args, numPosArgs);
    if numPosArgs < |args| then
      PruneMembers(ops, asSeenFrom, ArgCheck(numPosArgs, HashOfUntyped), positional);
      if SortedBy(all, OverloadKey) then
        PruneSorted(ops, asSeenFrom, ArgCheck(numPosArgs, HashOfUntyped), positional);
        Prune(ops, asSeenFrom, ArgCheck(numPosArgs, HashOfUntyped), positional)
      else
        Prune(ops, asSeenFrom, ArgCheck(numPosArgs, HashOfUntyped), positional)
    else positional
  }

  /** The index of the first candidate whose arity is at least `n` (|s| when none is);
      on candidates sorted by arity this is where `equal_range` begins. */
  function LowerBound(s: seq<MethodInfo>, n: int): (k: nat)
    requires AllEndInBlockArg(s)
    ensures k <= |s|
    ensures forall j :: 0 <= j < k ==> GetArity(s[j]) < n
    ensures k < |s| ==> GetArity(s[k]) >= n
  {
    if s == [] then 0
    else if GetArity(s[0]) >= n then 0
    else 1 + LowerBound(s[1..], n)
  }

  /** The candidates sorted by (arity, id). */
  function SortedCandidates(primary: MethodInfo, overloads: seq<MethodInfo>): (r: seq<MethodInfo>)
    requires EndsInBlockArg(primary) && AllEndInBlockArg(overloads)
    ensures AllEndInBlockArg(r) && SortedBy(r, OverloadKey)
    ensures forall c :: c in r <==> c == primary || c in overloads
  {
    var all := [primary] + overloads;
    SortByMembers(all, OverloadKey);
    SortBy(all, OverloadKey)
  }

  /** The candidates the block check runs over: the type-pruned ones, or all of them
      when type pruning left none. */
  function BlockPool(ops: TypeOps, asSeenFrom: Type -> Type, primary: MethodInfo, overloads: seq<MethodInfo>,
                     numPosArgs: nat, args: seq<Type>): (r: seq<MethodInfo>)
    requires EndsInBlockArg(primary) && AllEndInBlockArg(overloads) && numPosArgs <= |args|
    ensures AllEndInBlockArg(r) && SortedBy(r, OverloadKey)
    ensures forall c :: c in r ==> c == primary || c in overloads
    ensures var typed := TypePruned(ops, asSeenFrom, SortedCandidates(primary, overloads), numPosArgs, args);
            (typed == [] ==> r == SortedCandidates(primary, overloads)) && (typed != [] ==> r == typed)
    ensures var typed := TypePruned(ops, asSeenFrom, SortedCandidates(primary, overloads), numPosArgs, args);
            forall c :: c in r <==> (c == primary || c in overloads) && (typed == [] || c in typed)
  {
    var all := SortedCandidates(primary, overloads);
    var typed := TypePruned(ops, asSeenFrom, all, numPosArgs, args);
    if typed == [] then all else typed
  }

  /** The candidates that also agree with the call on passing a block. */
  function BlockMatched(ops: TypeOps, asSeenFrom: Type -> Type, primary: MethodInfo, overloads: seq<MethodInfo>,
                        numPosArgs: nat, args: seq<Type>, hasBlock: bool): (r: seq<MethodInfo>)
    requires EndsInBlockArg(primary) && AllEndInBlockArg(overloads) && numPosArgs <= |args|
    ensures AllEndInBlockArg(r) && SortedBy(r, OverloadKey)
    ensures forall c :: c in r ==> (c == primary || c in overloads) && MentionsBlockArg(c) == hasBlock
    ensures forall c :: c in r <==>
              c in BlockPool(ops, asSeenFrom, primary, overloads, numPosArgs, args) && MentionsBlockArg(c) == hasBlock
  {
    var pool := BlockPool(ops, asSeenFrom, primary, overloads, numPosArgs, args);
    PruneMembers(ops, asSeenFrom, BlockCheck(hasBlock), pool);
    PruneSorted(ops, asSeenFrom, BlockCheck(hasBlock), pool);
    Prune(ops, asSeenFrom, BlockCheck(hasBlock), pool)
  }

  /** The overload guessOverload returns. */
  function GuessOverloadSpec(ops: TypeOps, asSeenFrom: Type -> Type, primary: MethodInfo, overloads: seq<MethodInfo>,
                             numPosArgs: nat, args: seq<Type>, hasBlock: bool): (r: MethodInfo)
    requires EndsInBlockArg(primary) && AllEndInBlockArg(overloads) && numPosArgs <= |args|
    ensures r == primary || r in overloads
  {
    var typed := TypePruned(ops, asSeenFrom, SortedCandidates(primary, overloads), numPosArgs, args);
    var fallback := if typed == [] then primary else typed[0];
    var matched := BlockMatched(ops, asSeenFrom, primary, overloads, numPosArgs, args, hasBlock);
    var lb := LowerBound(matched, |args|);
    var closest := if lb < |matched| then matched[lb..] else matched;
    assert forall c :: c in typed ==> c == primary || c in overloads;
    if closest != [] then
      assert closest[0] in matched;
      closest[0]
    else fallback
  }

  /** A candidate passes the positional checks exactly when it is a candidate and
      survives the check of every one of the first `n` arguments. */
  lemma {:induction false} PositionalPrunedMembers(ops: TypeOps, asSeenFrom: Type -> Type, all: seq<MethodInfo>,
                                                   args: seq<Type>, n: nat, c: MethodInfo)
    requires AllEndInBlockArg(all) && n <= |args|
    ensures c in PositionalPruned(ops, asSeenFrom, all, args, n) <==>
            c in all && forall i :: 0 <= i < n ==> Survives(ops, asSeenFrom, ArgCheck(i, args[i]), c)
  {
    if n > 0 {
      PositionalPrunedMembers(ops, asSeenFrom, all, args, n - 1, c);
      var prev := PositionalPruned(ops, asSeenFrom, all, args, n - 1);
      PruneMembers(ops, asSeenFrom, ArgCheck(n - 1, args[n - 1]), prev);
    }
  }

  /** The first candidate of a sorted sequence has the least (arity, id). */
  lemma SortedFirstIsLeast(s: seq<MethodInfo>)
    requires SortedBy(s, OverloadKey) && s != []
    ensures forall c :: c in s ==> KeyLe(OverloadKey(s[0]), OverloadKey(c))
  {
    forall c | c in s
      ensures KeyLe(OverloadKey(s[0]), OverloadKey(c))
    {
      var j :| 0 <= j < |s| && s[j] == c;
    }
  }

  /** On a sorted sequence, the candidate at the lower bound has the least (arity, id)
      among those whose arity reaches `n`. */
  lemma LowerBoundIsClosest(s: seq<MethodInfo>, n: int)
    requires AllEndInBlockArg(s) && SortedBy(s, OverloadKey)
    ensures var k := LowerBound(s, n);
            (exists c :: c in s && GetArity(c) >= n) <==> k < |s|
    ensures var k := LowerBound(s, n);
            k < |s| ==> forall c :: c in s && GetArity(c) >= n ==> KeyLe(OverloadKey(s[k]), OverloadKey(c))
  {
    var k := LowerBound(s, n);
    if k < |s| {
      assert s[k] in s;
      forall c | c in s && GetArity(c) >= n
        ensures KeyLe(OverloadKey(s[k]), OverloadKey(c))
      {
        var j :| 0 <= j < |s| && s[j] == c;
      }
    } else {
      forall c | c in s
        ensures GetArity(c) < n
      {
        var j :| 0 <= j < |s| && s[j] == c;
      }
    }
  }

  /** What guessOverload picks.  The result is always the primary method or one of
      its overloads.  Among the candidates that survive the argument checks (or all
      of them when none does) and agree with the call on passing a block, it is the
      one with the fewest parameters that still covers every argument, the lowest
      symbol id breaking ties; when none covers them, the one with the fewest
      parameters; when none agrees on the block, the first candidate surviving the
      argument checks, or the primary method when none survived them. */
  lemma GuessOverloadChoice(ops: TypeOps, asSeenFrom: Type -> Type, primary: MethodInfo, overloads: seq<MethodInfo>,
                            numPosArgs: nat, args: seq<Type>, hasBlock: bool)
    requires EndsInBlockArg(primary) && AllEndInBlockArg(overloads) && numPosArgs <= |args|
    ensures var r := GuessOverloadSpec(ops, asSeenFrom, primary, overloads, numPosArgs, args, hasBlock);
            r == primary || r in overloads
    ensures var r := GuessOverloadSpec(ops, asSeenFrom, primary, overloads, numPosArgs, args, hasBlock);
            var matched := BlockMatched(ops, asSeenFrom, primary, overloads, numPosArgs, args, hasBlock);
            (exists c :: c in matched && GetArity(c) >= |args|) ==>
              r in matched && GetArity(r) >= |args| && MentionsBlockArg(r) == hasBlock &&
              forall c :: c in matched && GetArity(c) >= |args| ==> KeyLe(OverloadKey(r), OverloadKey(c))
    ensures var r := GuessOverloadSpec(ops, asSeenFrom, primary, overloads, numPosArgs, args, hasBlock);
            var matched := BlockMatched(ops, asSeenFrom, primary, overloads, numPosArgs, args, hasBlock);
            matched != [] && (forall c :: c in matched ==> GetArity(c) < |args|) ==>
              r == matched[0] && MentionsBlockArg(r) == hasBlock &&
              forall c :: c in matched ==> KeyLe(OverloadKey(r), OverloadKey(c))
    ensures var r := GuessOverloadSpec(ops, asSeenFrom, primary, overloads, numPosArgs, args, hasBlock);
            var matched := BlockMatched(ops, asSeenFrom, primary, overloads, numPosArgs, args, hasBlock);
            var typed := TypePruned(ops, asSeenFrom, SortedCandidates(primary, overloads), numPosArgs, args);
            matched == [] ==> r == (if typed == [] then primary else typed[0])
  {
    var all := SortedCandidates(primary, overloads);
    var typed := TypePruned(ops, asSeenFrom, all, numPosArgs, args);
    var matched := BlockMatched(ops, asSeenFrom, primary, overloads, numPosArgs, args, hasBlock);
    LowerBoundIsClosest(matched, |args|);
    if matched != [] {
      SortedFirstIsLeast(matched);
      assert matched[0] in matched;
    }
    if typed != [] {
      assert typed[0] in typed;
    }
  }

  /** The argument-checking passes of guessOverload: one per positional argument,
      then one for the keyword arguments taken together as an untyped hash. */
  method PruneByArguments(ops: TypeOps, asSeenFrom: Type -> Type, all: seq<MethodInfo>,
                          numPosArgs: nat, args: seq<Type>)
    returns (left: seq<MethodInfo>)
    requires AllEndInBlockArg(all) && numPosArgs <= |args|
    ensures left == TypePruned(ops, asSeenFrom, all, numPosArgs, args)
  {
    left := all;
    var i := 0;
    while i < numPosArgs
      invariant 0 <= i <= numPosArgs
      invariant left == PositionalPruned(ops, asSeenFrom, all, args, i)
    {
      left := EraseFailing(ops, asSeenFrom, ArgCheck(i, args[i]), left);
      i := i + 1;
    }
    if numPosArgs < |args| {
      left := EraseFailing(ops, asSeenFrom, ArgCheck(numPosArgs, HashOfUntyped), left);
    }
  }

  /** guessOverload. */
  method GuessOverload(ops: TypeOps, asSeenFrom: Type -> Type, primary: MethodInfo, overloads: seq<MethodInfo>,
                       numPosArgs: nat, args: seq<Type>, hasBlock: bool)
    returns (result: MethodInfo)
    requires EndsInBlockArg(primary) && AllEndInBlockArg(overloads)
    requires numPosArgs <= |args|
    ensures result == GuessOverloadSpec(ops, asSeenFrom, primary, overloads, numPosArgs, args, hasBlock)
  {
    var fallback := primary;
    var allCandidates := SortedCandidates(primary, overloads);
    var leftCandidates := PruneByArguments(ops, asSeenFrom, allCandidates, numPosArgs, args);

    if leftCandidates == [] {
      leftCandidates := allCandidates;
    } else {
      fallback := leftCandidates[0];
    }

    leftCandidates := EraseFailing(ops, asSeenFrom, BlockCheck(hasBlock), leftCandidates);

    var first := LowerBound(leftCandidates, |args|);
    if first < |leftCandidates| {
      leftCandidates := leftCandidates[first..];
    }

    if leftCandidates != [] {
      return leftCandidates[0];
    }
    result := fallback;
  }
}
