/** The editor-query layer: turning a location or a symbol into a query over a
    set of files, and post-processing the raw answers of a query (drop answers
    in missing files or untyped code, sort by location, collapse answers that
    share a location).

    The typechecker's query engine, the URI-to-file mapping, the ignore list,
    the position-to-offset conversion and the name hashing are external; their
    results reach the model as parameters. */
module LSPQuery {
  import opened Options
  import opened Sequences

  /** A handle into the file table; handle 0 is the sentinel that does not exist. */
  type FileRef = nat

  predicate FileExists(f: FileRef)
  {
    f > 0
  }

  /** A source span.  `offsetsExist` is false for the "no location" sentinel. */
  datatype Loc = Loc(file: FileRef, beginPos: nat, endPos: nat, offsetsExist: bool)

  predicate LocExists(l: Loc)
  {
    FileExists(l.file) && l.offsetsExist
  }

  /** Strictness levels in their order; "typed" means at least `True`. */
  datatype StrictLevel = Ignore | False | True | Strict | Strong

  function Rank(l: StrictLevel): nat
  {
    match l
    case Ignore => 0
    case False => 1
    case True => 2
    case Strict => 3
    case Strong => 4
  }

  predicate IsTyped(l: StrictLevel)
  {
    Rank(l) >= Rank(True)
  }

  datatype ResponseKind = Send | Ident | Literal | Constant | Field | MethodDef | KeywordArg | Edit

  /** Constants, fields and method definitions can be located without type information. */
  predicate IsDefinitionLike(k: ResponseKind)
  {
    k.Constant? || k.Field? || k.MethodDef?
  }

  /** One raw answer: its kind, its location and the strictness of the file it is in. */
  datatype QueryResponse = QueryResponse(kind: ResponseKind, loc: Loc, fileStrictness: StrictLevel)

  /** The first pass of filterAndDedup: an answer survives when its location and its
      file exist and the file is typed or the answer is definition-like. */
  predicate Passes(q: QueryResponse)
    ensures IsTyped(q.fileStrictness) ==> (Passes(q) <==> LocExists(q.loc))
    ensures !IsTyped(q.fileStrictness) ==> (Passes(q) <==> LocExists(q.loc) && IsDefinitionLike(q.kind))
  {
    LocExists(q.loc) && FileExists(q.loc.file) && (IsTyped(q.fileStrictness) || IsDefinitionLike(q.kind))
  }

  /** The answers that pass the filter, in input order. */
  function Keep(qs: seq<QueryResponse>): (r: seq<QueryResponse>)
    ensures forall q :: q in r <==> q in qs && Passes(q)
    ensures |r| <= |qs|
  {
    if qs == [] then []
    else
      var last := qs[|qs| - 1];
      assert qs == qs[..|qs| - 1] + [last];
      Keep(qs[..|qs| - 1]) + (if Passes(last) then [last] else [])
  }

  /** The total order on locations: file id, then begin offset, then end offset.
      The source computes it by subtracting unsigned ids and offsets into an `int`;
      the model uses the intended lexicographic order on mathematical integers. */
  function LocKey(q: QueryResponse): Key
  {
    Key(q.loc.file, q.loc.beginPos, q.loc.endPos)
  }

  /** `std::unique` with location equality: of every run of consecutive answers at
      the same location, only the first is kept. */
  function Unique(s: seq<QueryResponse>): (r: seq<QueryResponse>)
    ensures forall x :: x in r ==> x in s
    ensures |s| > 0 ==> |r| > 0 && r[0] == s[0]
    ensures |r| <= |s|
    decreases |s|
  {
    if |s| <= 1 then s
    else if s[0].loc == s[1].loc then Unique([s[0]] + s[2..])
    else [s[0]] + Unique(s[1..])
  }

  /** Position `i` starts a run of answers at one location. */
  predicate RunHead(s: seq<QueryResponse>, i: int)
  {
    0 <= i < |s| && (i == 0 || s[i - 1].loc != s[i].loc)
  }

  /** Collapsing keeps exactly the answers that start a run: of several consecutive
      answers at one location, the first one survives. */
  lemma {:induction false} UniqueIsRunHeads(s: seq<QueryResponse>)
    ensures forall x :: x in Unique(s) <==> exists i :: RunHead(s, i) && s[i] == x
    decreases |s|
  {
    if |s| <= 1 {
      forall x | x in s
        ensures exists i :: RunHead(s, i) && s[i] == x
      {
        assert RunHead(s, 0) && s[0] == x;
      }
    } else if s[0].loc == s[1].loc {
      var t := [s[0]] + s[2..];
      UniqueIsRunHeads(t);
      assert forall i :: 1 <= i < |t| ==> t[i] == s[i + 1] && t[i - 1].loc == s[i].loc;
      assert forall i :: 1 <= i < |t| ==> (RunHead(t, i) <==> RunHead(s, i + 1));
      forall x | x in Unique(s)
        ensures exists j :: RunHead(s, j) && s[j] == x
      {
        assert x in Unique(t);
        var i :| RunHead(t, i) && t[i] == x;
        if i == 0 {
          assert RunHead(s, 0) && s[0] == x;
        } else {
          assert RunHead(s, i + 1) && s[i + 1] == x;
        }
      }
      forall x | exists j :: RunHead(s, j) && s[j] == x
        ensures x in Unique(s)
      {
        var j :| RunHead(s, j) && s[j] == x;
        if j == 0 {
          assert RunHead(t, 0) && t[0] == x;
        } else {
          assert j != 1;
          assert RunHead(t, j - 1) && t[j - 1] == x;
        }
        assert x in Unique(t);
      }
    } else {
      var u := s[1..];
      UniqueIsRunHeads(u);
      assert Unique(s) == [s[0]] + Unique(u);
      assert forall i :: 0 <= i < |u| ==> (RunHead(u, i) <==> RunHead(s, i + 1));
      forall x | x in Unique(s)
        ensures exists j :: RunHead(s, j) && s[j] == x
      {
        if x == s[0] {
          assert RunHead(s, 0);
        } else {
          assert x in Unique(u);
          var i :| RunHead(u, i) && u[i] == x;
          assert RunHead(s, i + 1) && s[i + 1] == x;
        }
      }
      forall x | exists j :: RunHead(s, j) && s[j] == x
        ensures x in Unique(s)
      {
        var j :| RunHead(s, j) && s[j] == x;
        if j > 0 {
          assert RunHead(u, j - 1) && u[j - 1] == x;
          assert x in Unique(u);
        }
      }
    }
  }

  /** What filterAndDedup returns. */
  function FilterAndDedupSpec(qs: seq<QueryResponse>): seq<QueryResponse>
  {
    Unique(SortBy(Keep(qs), LocKey))
  }

  /** Collapsing drops no location: the location of any input element is still present. */
  lemma {:induction false} UniqueCoversOne(s: seq<QueryResponse>, x: QueryResponse)
    requires x in s
    ensures exists y :: y in Unique(s) && y.loc == x.loc
    decreases |s|
  {
    if |s| <= 1 {
      assert x in Unique(s);
    } else if s[0].loc == s[1].loc {
      var t := [s[0]] + s[2..];
      if x == s[0] || x == s[1] {
        UniqueCoversOne(t, s[0]);
      } else {
        assert x in s[2..];
        UniqueCoversOne(t, x);
      }
    } else if x == s[0] {
      assert Unique(s)[0] == s[0];
    } else {
      assert x in s[1..];
      UniqueCoversOne(s[1..], x);
      var y :| y in Unique(s[1..]) && y.loc == x.loc;
      assert y in Unique(s);
    }
  }

  lemma UniqueCovers(s: seq<QueryResponse>)
    ensures forall x :: x in s ==> exists y :: y in Unique(s) && y.loc == x.loc
  {
    forall x | x in s
      ensures exists y :: y in Unique(s) && y.loc == x.loc
    {
      UniqueCoversOne(s, x);
    }
  }

  /** Two answers whose locations exist and have equal keys have equal locations. */
  lemma SameKeySameLoc(a: QueryResponse, b: QueryResponse)
    requires a.loc.offsetsExist && b.loc.offsetsExist
    ensures LocKey(a) == LocKey(b) <==> a.loc == b.loc
  {
  }

  /** Over a sorted input of existing locations, collapsing yields strictly increasing locations. */
  lemma {:induction false} UniqueStrictlySorted(s: seq<QueryResponse>)
    requires SortedBy(s, LocKey)
    requires forall x :: x in s ==> x.loc.offsetsExist
    ensures StrictlySortedBy(Unique(s), LocKey)
    decreases |s|
  {
    if |s| > 1 {
      if s[0].loc == s[1].loc {
        var t := [s[0]] + s[2..];
        SortedDropSecond(s, LocKey);
        assert forall x :: x in t ==> x in s;
        UniqueStrictlySorted(t);
      } else {
        var u := Unique(s[1..]);
        SortedTail(s, LocKey);
        UniqueStrictlySorted(s[1..]);
        SameKeySameLoc(s[0], s[1]);
        assert KeyLt(LocKey(s[0]), LocKey(s[1]));
        forall k | 0 <= k < |u|
          ensures KeyLt(LocKey(s[0]), LocKey(u[k]))
        {
          assert u[k] in s[1..];
          var m :| 1 <= m < |s| && s[m] == u[k];
          assert KeyLe(LocKey(s[1]), LocKey(s[m]));
        }
        ConsStrictlySorted(s[0], u, LocKey);
      }
    }
  }

  /** Collapsing a sequence with strictly increasing locations changes nothing. */
  lemma {:induction false} UniqueOfStrictlySortedIsIdentity(s: seq<QueryResponse>)
    requires StrictlySortedBy(s, LocKey)
    ensures Unique(s) == s
    decreases |s|
  {
    if |s| > 1 {
      assert KeyLt(LocKey(s[0]), LocKey(s[1]));
      assert s[0].loc != s[1].loc;
      assert StrictlySortedBy(s[1..], LocKey);
      UniqueOfStrictlySortedIsIdentity(s[1..]);
      assert s == [s[0]] + s[1..];
    }
  }

  /** Filtering a sequence every element of which passes changes nothing. */
  lemma {:induction false} KeepOfPassingIsIdentity(qs: seq<QueryResponse>)
    requires forall q :: q in qs ==> Passes(q)
    ensures Keep(qs) == qs
    decreases |qs|
  {
    if qs != [] {
      var last := qs[|qs| - 1];
      assert qs == qs[..|qs| - 1] + [last];
      assert forall q :: q in qs[..|qs| - 1] ==> q in qs;
      KeepOfPassingIsIdentity(qs[..|qs| - 1]);
    }
  }

  /** The properties promised of filterAndDedup's output, for every input. */
  lemma FilterAndDedupSpecProperties(qs: seq<QueryResponse>)
    ensures forall r :: r in FilterAndDedupSpec(qs) ==> r in qs && Passes(r)
    ensures StrictlySortedBy(FilterAndDedupSpec(qs), LocKey)
    ensures forall q :: q in qs && Passes(q) ==> exists r :: r in FilterAndDedupSpec(qs) && r.loc == q.loc
  {
    var kept := Keep(qs);
    var sorted := SortBy(kept, LocKey);
    SortByMembers(kept, LocKey);
    UniqueStrictlySorted(sorted);
    UniqueCovers(sorted);
  }

  /** Applying filterAndDedup to its own output gives the same output. */
  lemma FilterAndDedupIdempotent(qs: seq<QueryResponse>)
    ensures FilterAndDedupSpec(FilterAndDedupSpec(qs)) == FilterAndDedupSpec(qs)
  {
    var r := FilterAndDedupSpec(qs);
    FilterAndDedupSpecProperties(qs);
    KeepOfPassingIsIdentity(r);
    assert SortedBy(r, LocKey);
    SortBySortedIsIdentity(r, LocKey);
    UniqueOfStrictlySortedIsIdentity(r);
  }

  /** filterAndDedup: filter in a loop, sort by location, collapse equal locations. */
  method FilterAndDedup(queryResponses: seq<QueryResponse>) returns (responses: seq<QueryResponse>)
    ensures responses == FilterAndDedupSpec(queryResponses)
    ensures forall r :: r in responses ==> r in queryResponses && LocExists(r.loc)
    ensures forall r :: r in responses ==> IsTyped(r.fileStrictness) || IsDefinitionLike(r.kind)
    ensures StrictlySortedBy(responses, LocKey)
    ensures forall i, j :: 0 <= i < j < |responses| ==> responses[i].loc != responses[j].loc
    ensures forall q :: q in queryResponses && Passes(q) ==> exists r :: r in responses && r.loc == q.loc
  {
    responses := [];
    var k := 0;
    while k < |queryResponses|
      invariant 0 <= k <= |queryResponses|
      invariant responses == Keep(queryResponses[..k])
    {
      var q := queryResponses[k];
      assert queryResponses[..k + 1] == queryResponses[..k] + [q];
      if LocExists(q.loc) && FileExists(q.loc.file) {
        var fileIsTyped := IsTyped(q.fileStrictness);
        if fileIsTyped || IsDefinitionLike(q.kind) {
          responses := responses + [q];
        }
      }
      k := k + 1;
    }
    assert queryResponses[..k] == queryResponses;
    responses := SortBy(responses, LocKey);
    responses := Unique(responses);
    FilterAndDedupSpecProperties(queryResponses);
  }

  // ---------------------------------------------------------------------------
  // Query dispatch

  /** A symbol handle; handle 0 is the sentinel that does not exist. */
  datatype SymbolRef = SymbolRef(id: nat)

  predicate SymbolExists(s: SymbolRef)
  {
    s.id > 0
  }

  datatype Query = LocQuery(loc: Loc) | SymbolQuery(symbol: SymbolRef)

  /** The LSP error code for invalid request parameters. */
  const InvalidParams: int := -32602

  datatype FailReason = IgnoredFile | FileNotFound | InvalidPosition

  /** What a dispatcher entry point does: report an error, answer with no results
      without an error, or run a query restricted to the listed files. */
  datatype QueryOutcome =
    | Failed(code: int, reason: FailReason)
    | NoResults
    | Issued(query: Query, files: seq<FileRef>)

  /** byLoc.  `fref` is the file the URI maps to, `isIgnored` whether the URI is on
      the ignore list, `strictness` the strictness of `fref`'s file, `posLoc` the
      location the position maps to in that file (None when it maps to none), and
      `isStale` whether the typechecker's state is known to be stale. */
  function ByLoc(fref: FileRef, isIgnored: bool, strictness: StrictLevel, errorIfFileIsUntyped: bool,
                 posLoc: Option<Loc>, isStale: bool): (r: QueryOutcome)
    ensures !FileExists(fref) && isIgnored ==> r == Failed(InvalidParams, IgnoredFile)
    ensures !FileExists(fref) && !isIgnored ==> r == Failed(InvalidParams, FileNotFound)
    ensures r.Failed? ==> r.code == InvalidParams
    ensures r.Issued? <==>
              FileExists(fref) && !(errorIfFileIsUntyped && !IsTyped(strictness)) && posLoc.Some?
    ensures r.Issued? ==> r.query == LocQuery(posLoc.value) && r.files == [fref]
    ensures r.NoResults? <==>
              FileExists(fref) &&
              ((errorIfFileIsUntyped && !IsTyped(strictness)) || (posLoc.None? && isStale))
    ensures r == Failed(InvalidParams, InvalidPosition) <==>
              FileExists(fref) && !(errorIfFileIsUntyped && !IsTyped(strictness)) &&
              posLoc.None? && !isStale
  {
    if !FileExists(fref) && isIgnored then Failed(InvalidParams, IgnoredFile)
    else if !FileExists(fref) then Failed(InvalidParams, FileNotFound)
    else if errorIfFileIsUntyped && Rank(strictness) < Rank(True) then NoResults
    else if posLoc.None? then
      (if isStale then NoResults else Failed(InvalidParams, InvalidPosition))
    else Issued(LocQuery(posLoc.value), [fref])
  }

  /** bySymbolInFiles: a symbol query restricted to exactly the given files. */
  function BySymbolInFiles(symbol: SymbolRef, frefs: seq<FileRef>): (r: QueryOutcome)
    requires SymbolExists(symbol)
    ensures r.Issued? && r.query.SymbolQuery? && r.query.symbol == symbol
    ensures r.files == frefs
  {
    Issued(SymbolQuery(symbol), frefs)
  }

  datatype SourceType = Normal | Payload | Package | TombStone

  type ShortNameHash = nat

  /** A file table entry: its kind, strictness and the short-name hashes of the names it uses. */
  datatype File = File(sourceType: SourceType, strictLevel: StrictLevel, nameHashes: seq<ShortNameHash>)

  /** Whether bySymbol searches file `i`: the entry is present, the handle exists, the
      file is Normal and it uses a name with the symbol's short-name hash. */
  predicate IsCandidate(files: seq<Option<File>>, i: nat, symShortNameHash: ShortNameHash)
  {
    i < |files| && files[i].Some? && FileExists(i) &&
    files[i].value.sourceType == Normal && symShortNameHash in files[i].value.nameHashes
  }

  /** bySymbol: scan the file table and query the symbol over the candidate files.
      `symShortNameHash` is the short-name hash of the symbol's name. */
  method BySymbol(files: seq<Option<File>>, symbol: SymbolRef, symShortNameHash: ShortNameHash)
    returns (r: QueryOutcome)
    requires SymbolExists(symbol)
    ensures r.Issued? && r.query == SymbolQuery(symbol)
    ensures forall i: FileRef :: i in r.files <==> IsCandidate(files, i, symShortNameHash)
    ensures forall a, b :: 0 <= a < b < |r.files| ==> r.files[a] < r.files[b]
  {
    var frefs: seq<FileRef> := [];
    var i: int := -1;
    var next := 0;
    while next < |files|
      invariant 0 <= next <= |files| && i == next - 1
      invariant forall k: FileRef :: k in frefs <==> k < next && IsCandidate(files, k, symShortNameHash)
      invariant forall a, b :: 0 <= a < b < |frefs| ==> frefs[a] < frefs[b]
      invariant forall a :: 0 <= a < |frefs| ==> frefs[a] < next
    {
      var file := files[next];
      next := next + 1;
      i := i + 1;
      if file.None? {
        continue;
      }
      var usedSymbolNameHashes := file.value.nameHashes;
      var ref: FileRef := i;
      var fileIsValid := FileExists(ref) && file.value.sourceType == Normal;
      if fileIsValid && symShortNameHash in usedSymbolNameHashes {
        frefs := frefs + [ref];
      }
    }
    r := BySymbolInFiles(symbol, frefs);
  }
}
