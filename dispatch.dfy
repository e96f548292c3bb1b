/** allComponentsPresent: whether every method a dispatch may call exists.

    A dispatch result has a main component and, for a call on a union or an
    intersection type, a secondary result combined with it by OR or by AND. */
module Dispatch {
  import opened Options

  datatype Combinator = And | Or

  /** `mainMethodExists` says whether the main component's method exists. */
  datatype DispatchResult = DispatchResult(mainMethodExists: bool, secondaryKind: Combinator,
                                           secondary: Option<DispatchResult>)

  /** The results the check walks: this one, then the secondary ones reached through
      OR links, up to the first result that has no OR secondary. */
  function OrChain(res: DispatchResult): (chain: seq<DispatchResult>)
    ensures |chain| > 0 && chain[0] == res
  {
    match res.secondary
    case Some(next) => if res.secondaryKind == Or then [res] + OrChain(next) else [res]
    case None => [res]
  }

  /** allComponentsPresent. */
  function AllComponentsPresent(res: DispatchResult): (present: bool)
    ensures present ==> res.mainMethodExists
    ensures res.mainMethodExists && (res.secondary.None? || res.secondaryKind == And) ==> present
  {
    if !res.mainMethodExists then false
    else if res.secondary.None? || res.secondaryKind == And then true
    else AllComponentsPresent(res.secondary.value)
  }

  /** The check holds exactly when the main method of every result on the OR chain
      exists; components behind an AND link are not looked at. */
  lemma {:induction false} AllComponentsPresentIsOrChain(res: DispatchResult)
    ensures AllComponentsPresent(res) <==>
            forall i :: 0 <= i < |OrChain(res)| ==> OrChain(res)[i].mainMethodExists
  {
    match res.secondary
    case Some(next) =>
      if res.secondaryKind == Or {
        AllComponentsPresentIsOrChain(next);
        var chain := OrChain(res);
        assert chain == [res] + OrChain(next);
        if AllComponentsPresent(res) {
          forall i | 0 <= i < |chain|
            ensures chain[i].mainMethodExists
          {
            if i > 0 {
              assert chain[i] == OrChain(next)[i - 1];
            }
          }
        } else if res.mainMethodExists {
          assert !AllComponentsPresent(next);
          var j :| 0 <= j < |OrChain(next)| && !OrChain(next)[j].mainMethodExists;
          assert chain[j + 1] == OrChain(next)[j];
        } else {
          assert !OrChain(res)[0].mainMethodExists;
        }
      } else {
        assert OrChain(res) == [res];
      }
    case None =>
      assert OrChain(res) == [res];
  }
}
