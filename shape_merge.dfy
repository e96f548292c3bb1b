/** Shape_merge: the shape type of `shape.merge(...)`.

    A shape type is a hash type with known literal keys, kept as parallel
    sequences of key types and value types.  Looking a key up
    (`ShapeType::indexForKey`, not part of this model) is taken to mean finding
    the first position holding the same literal type. */
module ShapeMerge {
  import opened Options
  import opened Types
  import opened MagicIntrinsics

  /** The key and value sequences of a shape under construction. */
  datatype Entries = Entries(keys: seq<Type>, values: seq<Type>)

  predicate Valid(e: Entries)
  {
    |e.keys| == |e.values|
  }

  predicate WellFormedShape(t: Type)
  {
    t.Shape? ==> |t.keys| == |t.values|
  }

  /** The first position of key `k`. */
  function IndexForKey(keys: seq<Type>, k: Type): (r: Option<nat>)
    ensures r.None? <==> k !in keys
    ensures r.Some? ==> r.value < |keys| && keys[r.value] == k && forall j :: 0 <= j < r.value ==> keys[j] != k
  {
    if keys == [] then None
    else if keys[0] == k then Some(0)
    else match IndexForKey(keys[1..], k)
      case Some(j) => Some(j + 1)
      case None => None
  }

  /** The value type recorded for key `k`. */
  function Lookup(e: Entries, k: Type): Option<Type>
    requires Valid(e)
  {
    match IndexForKey(e.keys, k)
    case Some(j) => Some(e.values[j])
    case None => None
  }

  /** addShapeEntry: overwrite the value of a key already present, else append the pair. */
  function AddEntry(e: Entries, k: Type, v: Type): (r: Entries)
    requires Valid(e)
    ensures Valid(r)
  {
    match IndexForKey(e.keys, k)
    case Some(j) => Entries(e.keys, e.values[j := v])
    case None => Entries(e.keys + [k], e.values + [v])
  }

  /** Adding a pair sets the value of its key and of no other key. */
  lemma AddEntryLookup(e: Entries, k: Type, v: Type, k': Type)
    requires Valid(e)
    ensures Lookup(AddEntry(e, k, v), k') == if k' == k then Some(v) else Lookup(e, k')
  {
    if k' != k && IndexForKey(e.keys, k).None? {
      IndexForKeyAppend(e.keys, k, k');
    }
  }

  /** No key occurs twice. */
  predicate NoDuplicates(keys: seq<Type>)
  {
    forall i, j :: 0 <= i < j < |keys| ==> keys[i] != keys[j]
  }

  /** Adding a pair leaves the keys alone when its key is present, and otherwise appends
      its key at the end; so it never makes a key occur twice. */
  lemma AddEntryKeys(e: Entries, k: Type, v: Type)
    requires Valid(e)
    ensures var r := AddEntry(e, k, v);
            |e.keys| <= |r.keys| && r.keys[..|e.keys|] == e.keys &&
            forall k' :: k' in r.keys <==> k' in e.keys || k' == k
    ensures AddEntry(e, k, v).keys == if k in e.keys then e.keys else e.keys + [k]
    ensures NoDuplicates(e.keys) ==> NoDuplicates(AddEntry(e, k, v).keys)
  {
    var r := AddEntry(e, k, v);
    if NoDuplicates(e.keys) && k !in e.keys {
      forall i, j | 0 <= i < j < |r.keys|
        ensures r.keys[i] != r.keys[j]
      {
        assert r.keys[i] == e.keys[i];
        if j < |e.keys| {
          assert r.keys[j] == e.keys[j];
        }
      }
    }
  }

  lemma {:induction false} IndexForKeyAppend(keys: seq<Type>, k: Type, k': Type)
    requires k' != k
    ensures IndexForKey(keys + [k], k') == IndexForKey(keys, k')
  {
    if keys != [] {
      assert (keys + [k])[1..] == keys[1..] + [k];
      IndexForKeyAppend(keys[1..], k, k');
    }
  }

  /** Adding pairs one after another, in order. */
  function AddAll(e: Entries, ks: seq<Type>, vs: seq<Type>): (r: Entries)
    requires Valid(e) && |ks| == |vs|
    ensures Valid(r)
  {
    if ks == [] then e
    else AddEntry(AddAll(e, ks[..|ks| - 1], vs[..|vs| - 1]), ks[|ks| - 1], vs[|vs| - 1])
  }

  lemma AddAllSnoc(e: Entries, ks: seq<Type>, vs: seq<Type>, k: Type, v: Type)
    requires Valid(e) && |ks| == |vs|
    ensures AddAll(e, ks + [k], vs + [v]) == AddEntry(AddAll(e, ks, vs), k, v)
  {
    assert (ks + [k])[..|ks|] == ks;
    assert (vs + [v])[..|vs|] == vs;
  }

  lemma HashPairsSnoc(args: seq<Type>, i: nat)
    requires i % 2 == 0 && i + 2 <= |args|
    ensures HashKeys(args[..i + 2]) == HashKeys(args[..i]) + [args[i]]
    ensures HashValues(args[..i + 2]) == HashValues(args[..i]) + [args[i + 1]]
  {
    assert args[..i + 2] == args[..i] + [args[i], args[i + 1]];
    HashPairsAppend(args[..i], [args[i], args[i + 1]]);
  }

  /** The value paired with the last occurrence of `k` among the pairs. */
  function LastValueFor(ks: seq<Type>, vs: seq<Type>, k: Type): (r: Option<Type>)
    requires |ks| == |vs|
    ensures r.None? <==> k !in ks
  {
    if ks == [] then None
    else if ks[|ks| - 1] == k then Some(vs[|vs| - 1])
    else
      assert ks == ks[..|ks| - 1] + [ks[|ks| - 1]];
      LastValueFor(ks[..|ks| - 1], vs[..|vs| - 1], k)
  }

  /** Adding pairs is a right-biased merge: a key takes the value of its last pair,
      and a key in no pair keeps its value. */
  lemma {:induction false} AddAllLookup(e: Entries, ks: seq<Type>, vs: seq<Type>, k: Type)
    requires Valid(e) && |ks| == |vs|
    ensures Lookup(AddAll(e, ks, vs), k) ==
            match LastValueFor(ks, vs, k)
            case Some(v) => Some(v)
            case None => Lookup(e, k)
  {
    if ks != [] {
      AddAllLookup(e, ks[..|ks| - 1], vs[..|vs| - 1], k);
      AddEntryLookup(AddAll(e, ks[..|ks| - 1], vs[..|vs| - 1]), ks[|ks| - 1], vs[|vs| - 1], k);
    }
  }

  /** Adding pairs keeps the existing keys, in place. */
  lemma {:induction false} AddAllKeepsKeys(e: Entries, ks: seq<Type>, vs: seq<Type>)
    requires Valid(e) && |ks| == |vs|
    ensures var r := AddAll(e, ks, vs);
            |e.keys| <= |r.keys| && r.keys[..|e.keys|] == e.keys
  {
    if ks != [] {
      AddAllKeepsKeys(e, ks[..|ks| - 1], vs[..|vs| - 1]);
      var mid := AddAll(e, ks[..|ks| - 1], vs[..|vs| - 1]);
      AddEntryKeys(mid, ks[|ks| - 1], vs[|vs| - 1]);
      var r := AddAll(e, ks, vs);
      assert r.keys[..|e.keys|] == r.keys[..|mid.keys|][..|e.keys|];
    }
  }

  /** Adding pairs adds exactly their keys. */
  lemma {:induction false} AddAllKeySet(e: Entries, ks: seq<Type>, vs: seq<Type>)
    requires Valid(e) && |ks| == |vs|
    ensures forall k :: k in AddAll(e, ks, vs).keys <==> k in e.keys || k in ks
  {
    if ks != [] {
      var init := ks[..|ks| - 1];
      AddAllKeySet(e, init, vs[..|vs| - 1]);
      AddEntryKeys(AddAll(e, init, vs[..|vs| - 1]), ks[|ks| - 1], vs[|vs| - 1]);
      assert ks == init + [ks[|ks| - 1]];
    }
  }

  /** Adding pairs never makes a key occur twice, even when a key recurs among the pairs. */
  lemma {:induction false} AddAllNoDuplicates(e: Entries, ks: seq<Type>, vs: seq<Type>)
    requires Valid(e) && |ks| == |vs| && NoDuplicates(e.keys)
    ensures NoDuplicates(AddAll(e, ks, vs).keys)
  {
    if ks != [] {
      AddAllNoDuplicates(e, ks[..|ks| - 1], vs[..|vs| - 1]);
      AddEntryKeys(AddAll(e, ks[..|ks| - 1], vs[..|vs| - 1]), ks[|ks| - 1], vs[|vs| - 1]);
    }
  }

  /** Adding pairs keeps the existing keys, in place, adds exactly the new keys, and
      never makes a key occur twice. */
  lemma AddAllKeys(e: Entries, ks: seq<Type>, vs: seq<Type>)
    requires Valid(e) && |ks| == |vs|
    ensures var r := AddAll(e, ks, vs);
            |e.keys| <= |r.keys| && r.keys[..|e.keys|] == e.keys &&
            forall k :: k in r.keys <==> k in e.keys || k in ks
    ensures NoDuplicates(e.keys) ==> NoDuplicates(AddAll(e, ks, vs).keys)
  {
    AddAllKeepsKeys(e, ks, vs);
    AddAllKeySet(e, ks, vs);
    if NoDuplicates(e.keys) {
      AddAllNoDuplicates(e, ks, vs);
    }
  }

  /** Whether every inline keyword key among the first `numKwargs` arguments is a symbol. */
  predicate KwargKeysAreSymbols(args: seq<Type>, numKwargs: nat)
    requires numKwargs <= |args| && numKwargs % 2 == 0
  {
    forall k :: k in HashKeys(args[..numKwargs]) ==> IsSymbolLiteral(k)
  }

  predicate AllLiteral(keys: seq<Type>)
  {
    forall i :: 0 <= i < |keys| ==> IsLiteral(keys[i])
  }

  /** The number of arguments after the positional ones, rounded down to a whole
      number of keyword pairs (`nonPosArgs & ~0x1`). */
  function NumKwargs(numPosArgs: nat, numArgs: nat): (n: nat)
    requires numPosArgs <= numArgs
    ensures n % 2 == 0 && n <= numArgs - numPosArgs && numArgs - numPosArgs - n <= 1
  {
    var nonPosArgs := numArgs - numPosArgs;
    nonPosArgs - nonPosArgs % 2
  }

  /** Whether the last argument is taken as the hash to merge: a trailing `**kwsplat`
      (an odd number of non-positional arguments) or a sole positional argument. */
  predicate TakesTrailingHash(numPosArgs: nat, numArgs: nat)
    requires numPosArgs <= numArgs
  {
    (numArgs - numPosArgs) % 2 == 1 || (NumKwargs(numPosArgs, numArgs) == 0 && numArgs == 1)
  }

  /** Shape_merge as the source computes it.  The inline keyword pairs are read from
      the start of the argument list, whatever the number of positional arguments. */
  function MergeAsWrittenSpec(recv: Type, numPosArgs: nat, args: seq<Type>, hasBlock: bool): (r: Option<Type>)
    requires recv.Shape? && WellFormedShape(recv) && numPosArgs <= |args|
    requires forall i :: 0 <= i < |args| ==> WellFormedShape(args[i])
    ensures r.Some? ==> r.value.Shape? && WellFormedShape(r.value)
    ensures r.Some? <==>
              args != [] && !hasBlock && KwargKeysAreSymbols(args, NumKwargs(numPosArgs, |args|)) &&
              (TakesTrailingHash(numPosArgs, |args|) ==>
                 args[|args| - 1].Shape? && AllLiteral(args[|args| - 1].keys))
  {
    if args == [] || hasBlock then None
    else
      var numKwargs := NumKwargs(numPosArgs, |args|);
      var kwsplat := args[|args| - 1];
      var takesHash := TakesTrailingHash(numPosArgs, |args|);
      if takesHash && !kwsplat.Shape? then None
      else if !KwargKeysAreSymbols(args, numKwargs) then None
      else
        var inline := args[..numKwargs];
        var e := AddAll(Entries(recv.keys, recv.values), HashKeys(inline), HashValues(inline));
        if !takesHash then Some(Shape(e.keys, e.values))
        else if !AllLiteral(kwsplat.keys) then None
        else
          assert WellFormedShape(args[|args| - 1]);
          var e' := AddAll(e, kwsplat.keys, kwsplat.values);
          Some(Shape(e'.keys, e'.values))
  }

  /** Shape_merge, with the calls it was written for: a single positional hash, or
      keyword arguments with at most a trailing `**kwsplat`.  Any other call with
      positional arguments gives no result, so the declared signature applies. */
  function MergeSpec(recv: Type, numPosArgs: nat, args: seq<Type>, hasBlock: bool): (r: Option<Type>)
    requires recv.Shape? && WellFormedShape(recv) && numPosArgs <= |args|
    requires forall i :: 0 <= i < |args| ==> WellFormedShape(args[i])
    ensures r.Some? ==> r == MergeAsWrittenSpec(recv, numPosArgs, args, hasBlock)
    ensures r.None? <==> (numPosArgs > 0 && |args| != 1) || MergeAsWrittenSpec(recv, numPosArgs, args, hasBlock).None?
  {
    if numPosArgs > 0 && |args| != 1 then None
    else MergeAsWrittenSpec(recv, numPosArgs, args, hasBlock)
  }

  /** The merged shape keeps the receiver's keys, in place, and its keys are exactly
      the receiver's, the inline keyword keys and the trailing hash's keys. */
  lemma MergeKeys(recv: Type, numPosArgs: nat, args: seq<Type>, hasBlock: bool)
    requires recv.Shape? && WellFormedShape(recv) && numPosArgs <= |args|
    requires forall i :: 0 <= i < |args| ==> WellFormedShape(args[i])
    ensures var r := MergeAsWrittenSpec(recv, numPosArgs, args, hasBlock);
            r.Some? ==>
              var t, inline := r.value, HashKeys(args[..NumKwargs(numPosArgs, |args|)]);
              var takesHash := TakesTrailingHash(numPosArgs, |args|);
              t.Shape? && WellFormedShape(t) &&
              |recv.keys| <= |t.keys| && t.keys[..|recv.keys|] == recv.keys &&
              (forall k :: k in inline ==> k in t.keys) &&
              (takesHash ==> forall k :: k in args[|args| - 1].keys ==> k in t.keys) &&
              (forall k :: k in t.keys ==>
                 k in recv.keys || k in inline || (takesHash && k in args[|args| - 1].keys)) &&
              (NoDuplicates(recv.keys) ==> NoDuplicates(t.keys))
  {
    var r := MergeAsWrittenSpec(recv, numPosArgs, args, hasBlock);
    if r.Some? {
      var numKwargs := NumKwargs(numPosArgs, |args|);
      var inline := args[..numKwargs];
      var e0 := Entries(recv.keys, recv.values);
      AddAllKeys(e0, HashKeys(inline), HashValues(inline));
      if TakesTrailingHash(numPosArgs, |args|) {
        var h := args[|args| - 1];
        assert WellFormedShape(h);
        var e := AddAll(e0, HashKeys(inline), HashValues(inline));
        AddAllKeys(e, h.keys, h.values);
        var t := AddAll(e, h.keys, h.values);
        assert t.keys[..|recv.keys|] == t.keys[..|e.keys|][..|recv.keys|];
      }
    }
  }

  /** Merging is right-biased: a key of the trailing hash takes its value there, else
      a key among the inline keyword pairs takes the value of its last pair, else the
      key keeps the receiver's value. */
  lemma MergeLookup(recv: Type, numPosArgs: nat, args: seq<Type>, hasBlock: bool, k: Type)
    requires recv.Shape? && WellFormedShape(recv) && numPosArgs <= |args|
    requires forall i :: 0 <= i < |args| ==> WellFormedShape(args[i])
    ensures var r := MergeAsWrittenSpec(recv, numPosArgs, args, hasBlock);
            r.Some? ==>
              var inline := args[..NumKwargs(numPosArgs, |args|)];
              var h := args[|args| - 1];
              var fromHash := if TakesTrailingHash(numPosArgs, |args|) && h.Shape? && |h.keys| == |h.values|
                              then LastValueFor(h.keys, h.values, k) else None;
              var fromInline := LastValueFor(HashKeys(inline), HashValues(inline), k);
              r.value.Shape? && |r.value.keys| == |r.value.values| &&
              Lookup(Entries(r.value.keys, r.value.values), k) ==
                if fromHash.Some? then fromHash
                else if fromInline.Some? then fromInline
                else Lookup(Entries(recv.keys, recv.values), k)
  {
    var r := MergeAsWrittenSpec(recv, numPosArgs, args, hasBlock);
    if r.Some? {
      var inline := args[..NumKwargs(numPosArgs, |args|)];
      var e0 := Entries(recv.keys, recv.values);
      AddAllLookup(e0, HashKeys(inline), HashValues(inline), k);
      if TakesTrailingHash(numPosArgs, |args|) {
        var h := args[|args| - 1];
        assert WellFormedShape(h);
        AddAllLookup(AddAll(e0, HashKeys(inline), HashValues(inline)), h.keys, h.values, k);
      }
    }
  }

  /** With the guard, every key of every hash argument, positional or keyword, is a
      key of the merged shape. */
  lemma MergeCoversArguments(recv: Type, numPosArgs: nat, args: seq<Type>, hasBlock: bool)
    requires recv.Shape? && WellFormedShape(recv) && numPosArgs <= |args|
    requires forall i :: 0 <= i < |args| ==> WellFormedShape(args[i])
    ensures var r := MergeSpec(recv, numPosArgs, args, hasBlock);
            r.Some? ==>
              r.value.Shape? &&
              (forall k :: k in recv.keys ==> k in r.value.keys) &&
              (forall i :: 0 <= i < numPosArgs ==>
                 args[i].Shape? && forall k :: k in args[i].keys ==> k in r.value.keys) &&
              (forall k :: k in HashKeys(args[numPosArgs..numPosArgs + NumKwargs(numPosArgs, |args|)]) ==>
                 k in r.value.keys)
  {
    var r := MergeSpec(recv, numPosArgs, args, hasBlock);
    if r.Some? {
      MergeKeys(recv, numPosArgs, args, hasBlock);
      var t := r.value;
      forall k | k in recv.keys
        ensures k in t.keys
      {
        var j :| 0 <= j < |recv.keys| && recv.keys[j] == k;
        assert t.keys[..|recv.keys|][j] == k;
      }
      if numPosArgs == 0 {
        assert args[numPosArgs..numPosArgs + NumKwargs(numPosArgs, |args|)] == args[..NumKwargs(numPosArgs, |args|)];
      } else {
        assert |args| == 1 && NumKwargs(numPosArgs, |args|) == 0;
        assert args[numPosArgs..numPosArgs] == [];
      }
    }
  }

  /** Two positional hashes and no keyword arguments: the source returns the
      receiver's shape as it is, missing the keys of both arguments. */
  lemma MergeAsWrittenDropsPositionalHashes()
    ensures var a, b, c := NamedLiteral(SymbolLiteral, 1), NamedLiteral(SymbolLiteral, 2), NamedLiteral(SymbolLiteral, 3);
            var recv := Shape([a], [IntegerType]);
            var args := [Shape([b], [Nil]), Shape([c], [Nil])];
            MergeAsWrittenSpec(recv, 2, args, false) == Some(recv) &&
            b !in MergeAsWrittenSpec(recv, 2, args, false).value.keys &&
            MergeSpec(recv, 2, args, false) == None
  {
    var a, b, c := NamedLiteral(SymbolLiteral, 1), NamedLiteral(SymbolLiteral, 2), NamedLiteral(SymbolLiteral, 3);
    var args := [Shape([b], [Nil]), Shape([c], [Nil])];
    assert args[..0] == [];
    assert KwargKeysAreSymbols(args, 0);
  }

  /** Two positional hashes and a trailing `**kwsplat`: the source adds the kwsplat's
      keys and still misses those of the positional hashes. */
  lemma MergeAsWrittenKwsplatAfterPositional()
    ensures var a, b, c, d := NamedLiteral(SymbolLiteral, 1), NamedLiteral(SymbolLiteral, 2),
                              NamedLiteral(SymbolLiteral, 3), NamedLiteral(SymbolLiteral, 4);
            var recv := Shape([a], [IntegerType]);
            var args := [Shape([b], [Nil]), Shape([c], [Nil]), Shape([d], [Nil])];
            MergeAsWrittenSpec(recv, 2, args, false) == Some(Shape([a, d], [IntegerType, Nil]))
  {
    var a, b, c, d := NamedLiteral(SymbolLiteral, 1), NamedLiteral(SymbolLiteral, 2),
                      NamedLiteral(SymbolLiteral, 3), NamedLiteral(SymbolLiteral, 4);
    var args := [Shape([b], [Nil]), Shape([c], [Nil]), Shape([d], [Nil])];
    assert args[..0] == [];
    assert KwargKeysAreSymbols(args, 0);
    assert AllLiteral([d]);
    var e := Entries([a], [IntegerType]);
    assert AddAll(e, HashKeys(args[..0]), HashValues(args[..0])) == e;
    assert TakesTrailingHash(2, 3) && NumKwargs(2, 3) == 0;
    assert IndexForKey([a], d) == None;
    assert [d][..0] == [] && [Nil][..0] == [];
    assert AddEntry(e, d, Nil) == Entries([a, d], [IntegerType, Nil]);
    assert AddAll(e, [d], [Nil]) == Entries([a, d], [IntegerType, Nil]);
  }

  /** Two positional hashes and an inline keyword pair: the inline loop starts at the
      first argument, reads a positional hash as a key and gives no result. */
  lemma MergeAsWrittenInlineAfterPositional()
    ensures var a, b, c, d := NamedLiteral(SymbolLiteral, 1), NamedLiteral(SymbolLiteral, 2),
                              NamedLiteral(SymbolLiteral, 3), NamedLiteral(SymbolLiteral, 4);
            var recv := Shape([a], [IntegerType]);
            var args := [Shape([b], [Nil]), Shape([c], [Nil]), d, Nil];
            MergeAsWrittenSpec(recv, 2, args, false) == None
  {
    var a, b, c, d := NamedLiteral(SymbolLiteral, 1), NamedLiteral(SymbolLiteral, 2),
                      NamedLiteral(SymbolLiteral, 3), NamedLiteral(SymbolLiteral, 4);
    var args := [Shape([b], [Nil]), Shape([c], [Nil]), d, Nil];
    HashPairsSnoc(args, 0);
    assert args[..0] == [];
    assert Shape([b], [Nil]) in HashKeys(args[..2]);
  }

  /** One call of addShapeEntry, updating a value in place or appending. */
  method AddShapeEntry(copy: Entries, k: Type, v: Type) returns (copy': Entries)
    requires Valid(copy)
    ensures copy' == AddEntry(copy, k, v)
  {
    var optind := IndexForKey(copy.keys, k);
    if optind.Some? {
      copy' := copy.(values := copy.values[optind.value := v]);
    } else {
      copy' := Entries(copy.keys + [k], copy.values + [v]);
    }
  }

  /** Adding the next inline pair extends the pairs added so far. */
  lemma InlineStep(e: Entries, args: seq<Type>, i: nat)
    requires Valid(e) && i % 2 == 0 && i + 2 <= |args|
    ensures AddEntry(AddAll(e, HashKeys(args[..i]), HashValues(args[..i])), args[i], args[i + 1]) ==
            AddAll(e, HashKeys(args[..i + 2]), HashValues(args[..i + 2]))
  {
    HashPairsSnoc(args, i);
    AddAllSnoc(e, HashKeys(args[..i]), HashValues(args[..i]), args[i], args[i + 1]);
  }

  /** The key of every inline pair is among the inline keys. */
  lemma InlineKeyIsKwargKey(args: seq<Type>, i: nat, numKwargs: nat)
    requires i % 2 == 0 && i + 2 <= numKwargs <= |args|
    ensures args[i] in HashKeys(args[..numKwargs])
  {
    HashPairsSnoc(args, i);
    assert args[..numKwargs] == args[..i + 2] + args[i + 2..numKwargs];
    HashKeysAppend(args[..i + 2], args[i + 2..numKwargs]);
  }

  /** One step of the inline loop: a symbol key extends the checked prefix, and any
      other key makes the whole check fail. */
  lemma SymbolStep(args: seq<Type>, i: nat, numKwargs: nat)
    requires i % 2 == 0 && numKwargs % 2 == 0 && i + 2 <= numKwargs <= |args| && KwargKeysAreSymbols(args, i)
    ensures IsSymbolLiteral(args[i]) ==> KwargKeysAreSymbols(args, i + 2)
    ensures !IsSymbolLiteral(args[i]) ==> !KwargKeysAreSymbols(args, numKwargs)
  {
    HashPairsSnoc(args, i);
    if !IsSymbolLiteral(args[i]) {
      InlineKeyIsKwargKey(args, i, numKwargs);
    }
  }

  /** The loop over the inline keyword pairs, stopping at a key that is not a symbol. */
  method AddInlineKwargs(e: Entries, args: seq<Type>, numKwargs: nat) returns (r: Option<Entries>)
    requires Valid(e) && numKwargs <= |args| && numKwargs % 2 == 0
    ensures r.Some? <==> KwargKeysAreSymbols(args, numKwargs)
    ensures r.Some? ==> r.value == AddAll(e, HashKeys(args[..numKwargs]), HashValues(args[..numKwargs]))
  {
    var copy := e;
    var i := 0;
    while i < numKwargs
      invariant 0 <= i <= numKwargs && i % 2 == 0
      invariant KwargKeysAreSymbols(args, i)
      invariant copy == AddAll(e, HashKeys(args[..i]), HashValues(args[..i]))
    {
      SymbolStep(args, i, numKwargs);
      if !IsSymbolLiteral(args[i]) {
        return None;
      }
      InlineStep(e, args, i);
      copy := AddShapeEntry(copy, args[i], args[i + 1]);
      i := i + 2;
    }
    return Some(copy);
  }

  /** Adding pair `j` extends the pairs added so far. */
  lemma PairsStep(e: Entries, ks: seq<Type>, vs: seq<Type>, j: nat)
    requires Valid(e) && |ks| == |vs| && j < |ks|
    ensures AddEntry(AddAll(e, ks[..j], vs[..j]), ks[j], vs[j]) == AddAll(e, ks[..j + 1], vs[..j + 1])
  {
    assert ks[..j + 1] == ks[..j] + [ks[j]];
    assert vs[..j + 1] == vs[..j] + [vs[j]];
    AddAllSnoc(e, ks[..j], vs[..j], ks[j], vs[j]);
  }

  lemma LiteralPrefixStep(keys: seq<Type>, j: nat)
    requires j < |keys| && AllLiteral(keys[..j])
    ensures AllLiteral(keys[..j + 1]) <==> IsLiteral(keys[j])
    ensures !IsLiteral(keys[j]) ==> !AllLiteral(keys)
  {
    assert keys[..j + 1][j] == keys[j];
    if IsLiteral(keys[j]) {
      var prefix := keys[..j + 1];
      forall m | 0 <= m < |prefix|
        ensures IsLiteral(prefix[m])
      {
        if m < j {
          assert prefix[m] == keys[..j][m];
        }
      }
    }
  }

  /** The loop over the keys of the trailing hash, stopping at a key that is not a literal. */
  method AddKwsplat(e: Entries, keys: seq<Type>, values: seq<Type>) returns (r: Option<Entries>)
    requires Valid(e) && |keys| == |values|
    ensures r.Some? <==> AllLiteral(keys)
    ensures r.Some? ==> r.value == AddAll(e, keys, values)
  {
    var copy := e;
    var j := 0;
    while j < |keys|
      invariant 0 <= j <= |keys|
      invariant AllLiteral(keys[..j])
      invariant copy == AddAll(e, keys[..j], values[..j])
    {
      LiteralPrefixStep(keys, j);
      if !IsLiteral(keys[j]) {
        return None;
      }
      PairsStep(e, keys, values, j);
      copy := AddShapeEntry(copy, keys[j], values[j]);
      j := j + 1;
    }
    assert keys[..j] == keys && values[..j] == values;
    return Some(copy);
  }

  /** Shape_merge as written. */
  method MergeAsWritten(recv: Type, numPosArgs: nat, args: seq<Type>, hasBlock: bool) returns (r: Option<Type>)
    requires recv.Shape? && WellFormedShape(recv) && numPosArgs <= |args|
    requires forall i :: 0 <= i < |args| ==> WellFormedShape(args[i])
    ensures r == MergeAsWrittenSpec(recv, numPosArgs, args, hasBlock)
  {
    if args == [] || hasBlock {
      return None;
    }
    var numKwargs := NumKwargs(numPosArgs, |args|);
    var takesHash := TakesTrailingHash(numPosArgs, |args|);
    var kwsplat := args[|args| - 1];
    if takesHash && !kwsplat.Shape? {
      return None;
    }

    var copy := AddInlineKwargs(Entries(recv.keys, recv.values), args, numKwargs);
    if copy.None? {
      return None;
    }
    if takesHash {
      assert WellFormedShape(args[|args| - 1]);
      copy := AddKwsplat(copy.value, kwsplat.keys, kwsplat.values);
      if copy.None? {
        return None;
      }
    }
    return Some(Shape(copy.value.keys, copy.value.values));
  }

  /** Shape_merge with the positional-argument guard. */
  method Merge(recv: Type, numPosArgs: nat, args: seq<Type>, hasBlock: bool) returns (r: Option<Type>)
    requires recv.Shape? && WellFormedShape(recv) && numPosArgs <= |args|
    requires forall i :: 0 <= i < |args| ==> WellFormedShape(args[i])
    ensures r == MergeSpec(recv, numPosArgs, args, hasBlock)
  {
    if numPosArgs > 0 && |args| != 1 {
      return None;
    }
    r := MergeAsWritten(recv, numPosArgs, args, hasBlock);
  }
}
