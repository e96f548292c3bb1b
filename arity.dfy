/** The arity of a method: counting its parameters by kind, printing the count,
    and the raw parameter count that overload selection sorts by. */
module Arity {
  import opened Types

  /** A declared parameter: its flags and its declared type. */
  datatype ArgInfo = ArgInfo(
    isKeyword: bool,
    isBlock: bool,
    isDefault: bool,
    isRepeated: bool,
    isSyntheticBlock: bool,
    declType: Type)

  /** A method symbol: its id and its parameter list. */
  datatype MethodInfo = MethodInfo(id: nat, arguments: seq<ArgInfo>)

  /** Every method has a parameter list that ends in its block parameter. */
  predicate EndsInBlockArg(m: MethodInfo)
  {
    |m.arguments| > 0 && m.arguments[|m.arguments| - 1].isBlock
  }

  /** How arityComponents counts one parameter; the tests are made in this order. */
  datatype ArgClass = Ignored | Optional | Repeated | Required

  function Classify(a: ArgInfo): ArgClass
  {
    if a.isKeyword || a.isBlock then Ignored
    else if a.isDefault then Optional
    else if a.isRepeated then Repeated
    else Required
  }

  function CountClass(args: seq<ArgInfo>, c: ArgClass): nat
  {
    if args == [] then 0
    else CountClass(args[..|args| - 1], c) + (if Classify(args[|args| - 1]) == c then 1 else 0)
  }

  datatype ArityComponents = ArityComponents(required: nat, optional: nat, repeated: bool)

  /** The arity components of a parameter list. */
  function Components(args: seq<ArgInfo>): ArityComponents
  {
    ArityComponents(CountClass(args, Required), CountClass(args, Optional), CountClass(args, Repeated) > 0)
  }

  /** Each parameter falls in exactly one class. */
  lemma {:induction false} ClassesPartition(args: seq<ArgInfo>)
    ensures CountClass(args, Required) + CountClass(args, Optional) +
            CountClass(args, Repeated) + CountClass(args, Ignored) == |args|
  {
    if args != [] {
      ClassesPartition(args[..|args| - 1]);
    }
  }

  /** A class is counted exactly when some parameter falls in it. */
  lemma {:induction false} CountClassPositive(args: seq<ArgInfo>, c: ArgClass)
    ensures CountClass(args, c) > 0 <==> exists i :: 0 <= i < |args| && Classify(args[i]) == c
  {
    if args != [] {
      var init := args[..|args| - 1];
      CountClassPositive(init, c);
      if exists i :: 0 <= i < |init| && Classify(init[i]) == c {
        var i :| 0 <= i < |init| && Classify(init[i]) == c;
        assert args[i] == init[i];
      }
      if exists i :: 0 <= i < |args| && Classify(args[i]) == c {
        var i :| 0 <= i < |args| && Classify(args[i]) == c;
        if i < |init| {
          assert init[i] == args[i];
        }
      }
    }
  }

  /** A repeated parameter is counted exactly when some parameter is repeated and
      neither keyword, block nor default. */
  lemma RepeatedMeansSomeRestArg(args: seq<ArgInfo>)
    ensures Components(args).repeated <==>
            exists i :: 0 <= i < |args| && Classify(args[i]) == Repeated
  {
    CountClassPositive(args, Repeated);
  }

  /** arityComponents: one pass over the parameters. */
  method ArityComponentsOf(m: MethodInfo) returns (c: ArityComponents)
    ensures c == Components(m.arguments)
    ensures c.required + c.optional <= |m.arguments|
  {
    var required, optional := 0, 0;
    var repeated := false;
    var k := 0;
    while k < |m.arguments|
      invariant 0 <= k <= |m.arguments|
      invariant ArityComponents(required, optional, repeated) == Components(m.arguments[..k])
    {
      var arg := m.arguments[k];
      assert m.arguments[..k + 1][..k] == m.arguments[..k];
      if arg.isKeyword || arg.isBlock {
        // ignored
      } else if arg.isDefault {
        optional := optional + 1;
      } else if arg.isRepeated {
        repeated := true;
      } else {
        required := required + 1;
      }
      k := k + 1;
    }
    assert m.arguments[..k] == m.arguments;
    c := ArityComponents(required, optional, repeated);
    ClassesPartition(m.arguments);
  }

  /** getArity: the parameter count without the trailing block parameter. */
  function GetArity(m: MethodInfo): (r: nat)
    requires EndsInBlockArg(m)
    ensures r + 1 == |m.arguments|
    ensures Components(m.arguments).required + Components(m.arguments).optional <= r
  {
    var args := m.arguments;
    ClassesPartition(args);
    assert CountClass(args, Ignored) >= 1;
    |args| - 1
  }

  // ---------------------------------------------------------------------------
  // Printing

  predicate IsDigit(c: char)
  {
    '0' <= c <= '9'
  }

  function DigitChar(d: nat): (c: char)
    requires d < 10
    ensures IsDigit(c)
  {
    "0123456789"[d]
  }

  /** The decimal rendering of a count (what `absl::StrCat` and `to_string` print). */
  function Decimal(n: nat): (s: string)
    ensures |s| > 0 && forall i :: 0 <= i < |s| ==> IsDigit(s[i])
  {
    if n < 10 then [DigitChar(n)] else Decimal(n / 10) + [DigitChar(n % 10)]
  }

  function ParseDecimal(s: string): nat
  {
    if s == [] then 0
    else
      var c := s[|s| - 1];
      ParseDecimal(s[..|s| - 1]) * 10 + (if IsDigit(c) then (c as int - '0' as int) else 0)
  }

  lemma {:induction false} DecimalRoundTrip(n: nat)
    ensures ParseDecimal(Decimal(n)) == n
  {
    if n >= 10 {
      DecimalRoundTrip(n / 10);
      var s := Decimal(n);
      assert s[..|s| - 1] == Decimal(n / 10);
      assert "0123456789"[n % 10] as int - '0' as int == n % 10;
    } else {
      assert "0123456789"[n] as int - '0' as int == n;
    }
  }

  lemma DecimalInjective(a: nat, b: nat)
    requires Decimal(a) == Decimal(b)
    ensures a == b
  {
    DecimalRoundTrip(a);
    DecimalRoundTrip(b);
  }

  /** prettyArity on the components: "R+" with a repeated parameter, "R..R+O" with
      optional parameters, "R" otherwise. */
  function PrettyArityOf(c: ArityComponents): (r: string)
    ensures |r| > 0 && (r[|r| - 1] == '+' <==> c.repeated)
    ensures '.' in r <==> !c.repeated && c.optional > 0
  {
    if c.repeated then Decimal(c.required) + "+"
    else if c.optional > 0 then Decimal(c.required) + ".." + Decimal(c.required + c.optional)
    else Decimal(c.required)
  }

  /** prettyArity: the text ends in '+' exactly when some positional parameter (one
      that is neither a keyword nor the block) is a rest parameter, and shows a range
      exactly when none is but some positional parameter has a default. */
  function PrettyArity(m: MethodInfo): (r: string)
    ensures |r| > 0
    ensures r[|r| - 1] == '+' <==>
            exists i :: 0 <= i < |m.arguments| && Classify(m.arguments[i]) == Repeated
    ensures '.' in r <==>
            (forall i :: 0 <= i < |m.arguments| ==> Classify(m.arguments[i]) != Repeated) &&
            (exists i :: 0 <= i < |m.arguments| && Classify(m.arguments[i]) == Optional)
  {
    CountClassPositive(m.arguments, Repeated);
    CountClassPositive(m.arguments, Optional);
    PrettyArityOf(Components(m.arguments))
  }

  /** The index of the first character that is not a digit. */
  function FirstNonDigit(w: string): (k: nat)
    ensures k <= |w|
  {
    if w == [] || !IsDigit(w[0]) then 0 else 1 + FirstNonDigit(w[1..])
  }

  lemma {:induction false} FirstNonDigitAfterDigits(u: string, v: string)
    requires forall i :: 0 <= i < |u| ==> IsDigit(u[i])
    requires |v| > 0 && !IsDigit(v[0])
    ensures FirstNonDigit(u + v) == |u|
  {
    if u == [] {
      assert u + v == v;
    } else {
      assert (u + v)[0] == u[0];
      assert (u + v)[1..] == u[1..] + v;
      FirstNonDigitAfterDigits(u[1..], v);
    }
  }

  /** Splitting at the first non-digit: two digit strings each followed by text
      that starts with the same non-digit are equal when the whole strings are. */
  lemma DigitPrefixUnique(u: string, u': string, v: string, v': string)
    requires forall i :: 0 <= i < |u| ==> IsDigit(u[i])
    requires forall i :: 0 <= i < |u'| ==> IsDigit(u'[i])
    requires |v| > 0 && |v'| > 0 && !IsDigit(v[0]) && !IsDigit(v'[0])
    requires u + v == u' + v'
    ensures u == u' && v == v'
  {
    FirstNonDigitAfterDigits(u, v);
    FirstNonDigitAfterDigits(u', v');
    assert u == (u + v)[..|u|];
    assert u' == (u' + v')[..|u'|];
    assert v == (u + v)[|u|..];
    assert v' == (u' + v')[|u'|..];
  }

  /** `lo..hi`, for digit strings `lo` and `hi`, determines both. */
  lemma RangeTextInjective(lo: string, hi: string, lo': string, hi': string)
    requires forall i :: 0 <= i < |lo| ==> IsDigit(lo[i])
    requires forall i :: 0 <= i < |lo'| ==> IsDigit(lo'[i])
    requires lo + ".." + hi == lo' + ".." + hi'
    ensures lo == lo' && hi == hi'
  {
    var t, t' := ".." + hi, ".." + hi';
    assert lo + ".." + hi == lo + t;
    assert lo' + ".." + hi' == lo' + t';
    DigitPrefixUnique(lo, lo', t, t');
    assert hi == t[2..] && hi' == t'[2..];
  }

  lemma PrettyArityRangeInjective(a: ArityComponents, b: ArityComponents)
    requires !a.repeated && !b.repeated && a.optional > 0 && b.optional > 0
    requires PrettyArityOf(a) == PrettyArityOf(b)
    ensures a.required == b.required && a.optional == b.optional
  {
    RangeTextInjective(Decimal(a.required), Decimal(a.required + a.optional),
                       Decimal(b.required), Decimal(b.required + b.optional));
    DecimalInjective(a.required, b.required);
    DecimalInjective(a.required + a.optional, b.required + b.optional);
  }

  /** The printed arity determines the required count, whether there is a repeated
      parameter, and (without one) the optional count. */
  lemma PrettyArityInjective(a: ArityComponents, b: ArityComponents)
    requires PrettyArityOf(a) == PrettyArityOf(b)
    ensures a.required == b.required && a.repeated == b.repeated
    ensures !a.repeated ==> a.optional == b.optional
  {
    if a.repeated && b.repeated {
      DigitPrefixUnique(Decimal(a.required), Decimal(b.required), "+", "+");
      DecimalInjective(a.required, b.required);
    } else if !a.repeated && !b.repeated {
      if a.optional > 0 && b.optional > 0 {
        PrettyArityRangeInjective(a, b);
      } else if a.optional == 0 && b.optional == 0 {
        DecimalInjective(a.required, b.required);
      } else {
        assert false;
      }
    } else {
      assert false;
    }
  }
}
