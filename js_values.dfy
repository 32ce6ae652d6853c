/** JavaScript values the skiing helper relies on, made explicit. */
module JsValues {

  /** A possibly-`undefined` value: reading a JavaScript array out of range
      gives `undefined`, and so does an unset slot of `fromNodes`. */
  datatype Option<T> = None | Some(value: T)

  /** `s[i]`, which is `undefined` outside the array. */
  function Elem(s: seq<int>, i: int): (r: Option<int>)
    ensures r.Some? <==> 0 <= i < |s|
    ensures r.Some? ==> r.value == s[i]
  {
    if 0 <= i < |s| then Some(s[i]) else None
  }

  /** An integer extended with `-Infinity`, the only non-finite number the
      helper produces (the seed of its `max` reduction and of `distances`). */
  datatype ExtInt = NegInf | Fin(n: int)

  /** `a < b` on numbers where `-Infinity < -Infinity` is false. */
  predicate Less(a: ExtInt, b: ExtInt)
  {
    match (a, b)
    case (NegInf, Fin(_)) => true
    case (Fin(p), Fin(q)) => p < q
    case _ => false
  }

  /** `a <= b`, i.e. not `b < a`. */
  predicate AtMost(a: ExtInt, b: ExtInt)
  {
    !Less(b, a)
  }

  /** `d + 1`, where `-Infinity + 1` is `-Infinity`. */
  function Plus1(d: ExtInt): (r: ExtInt)
    ensures r.NegInf? <==> d.NegInf?
    ensures d.Fin? ==> Less(d, r) && r.n == d.n + 1
  {
    match d
    case NegInf => NegInf
    case Fin(n) => Fin(n + 1)
  }

  /** `R.max(a, b)`, which is `b > a ? b : a`. */
  function Max(a: ExtInt, b: ExtInt): (r: ExtInt)
    ensures AtMost(a, r) && AtMost(b, r)
    ensures r == a || r == b
  {
    if Less(a, b) then b else a
  }

  /** JavaScript's `%`, whose remainder takes the sign of the dividend:
      `a % b` is `sign(a) * (|a| mod |b|)`. */
  function JsRem(a: int, b: int): int
    requires b != 0
  {
    var q := if b < 0 then -b else b;
    if a >= 0 then NatRem(a, q) as int else -(NatRem(-a, q) as int)
  }

  /** `a mod b` on naturals, by repeated subtraction. */
  function NatRem(a: nat, b: nat): nat
    requires b > 0
  {
    if a < b then a else NatRem(a - b, b)
  }

  lemma {:induction false} NatRemIsMod(a: nat, b: nat)
    requires 2 <= b <= 4
    ensures NatRem(a, b) == a % b
  {
    if a >= b {
      NatRemIsMod(a - b, b);
      if b == 2 {
      } else if b == 3 {
      } else {
      }
    }
  }

  /** For the grid widths the model covers, JavaScript's `%` on a cell index
      is the mathematical remainder. */
  lemma JsRemNonNegative(a: int, b: int)
    requires a >= 0 && 2 <= b <= 4
    ensures JsRem(a, b) == a % b
  {
    NatRemIsMod(a, b);
  }

  lemma {:induction false} AtMostTransitive(a: ExtInt, b: ExtInt, c: ExtInt)
    requires AtMost(a, b) && AtMost(b, c)
    ensures AtMost(a, c)
  {
    match (a, b, c)
    case (Fin(p), Fin(q), Fin(t)) => assert p <= q <= t;
    case _ =>
  }

  /** `R.reduce(R.max, -Infinity)`: the largest value of `xs`, or
      `-Infinity` when `xs` is empty. */
  function MaxOf(xs: seq<ExtInt>): (r: ExtInt)
    ensures forall k :: 0 <= k < |xs| ==> AtMost(xs[k], r)
    ensures r == NegInf || r in xs
  {
    if xs == [] then NegInf
    else
      var init := xs[..|xs| - 1];
      var r := Max(MaxOf(init), xs[|xs| - 1]);
      assert forall k :: 0 <= k < |xs| - 1 ==> xs[k] == init[k];
      forall k | 0 <= k < |xs| - 1
        ensures AtMost(xs[k], r)
      {
        AtMostTransitive(xs[k], MaxOf(init), r);
      }
      assert MaxOf(init) in init ==> MaxOf(init) in xs;
      r
  }

  /** `Array.prototype.filter`: the elements that `keep` accepts, in order. */
  function Filter<T(!new)>(s: seq<T>, keep: T -> bool): (r: seq<T>)
    ensures |r| <= |s|
    ensures forall x :: x in r <==> x in s && keep(x)
  {
    if s == [] then []
    else
      var n := |s| - 1;
      assert s == s[..n] + [s[n]];
      Filter(s[..n], keep) + (if keep(s[n]) then [s[n]] else [])
  }

  /** `filter` works element by element, keeping the order and every
      occurrence: filtering a concatenation filters each part ... */
  lemma {:induction false} FilterAppend<T(!new)>(a: seq<T>, b: seq<T>, keep: T -> bool)
    ensures Filter(a + b, keep) == Filter(a, keep) + Filter(b, keep)
    decreases |b|
  {
    if b == [] {
      assert a + b == a;
    } else {
      var c, n := a + b, |b| - 1;
      assert c[..|c| - 1] == a + b[..n] && c[|c| - 1] == b[n];
      FilterLast(c, keep);
      FilterLast(b, keep);
      FilterAppend(a, b[..n], keep);
      var t := if keep(b[n]) then [b[n]] else [];
      assert Filter(a, keep) + Filter(b[..n], keep) + t == Filter(a, keep) + (Filter(b[..n], keep) + t);
    }
  }

  /** One step of `Filter`: the last element is kept or dropped. */
  lemma FilterLast<T(!new)>(s: seq<T>, keep: T -> bool)
    requires s != []
    ensures Filter(s, keep) == Filter(s[..|s| - 1], keep) + (if keep(s[|s| - 1]) then [s[|s| - 1]] else [])
  {
  }

  /** ... and a single element is kept exactly when it passes the test. */
  lemma FilterSingle<T(!new)>(x: T, keep: T -> bool)
    ensures Filter([x], keep) == if keep(x) then [x] else []
  {
    assert [x][..0] == [];
  }

  /** Two tests that agree on the elements filter alike. */
  lemma {:induction false} FilterSame<T(!new)>(s: seq<T>, keep: T -> bool, keep2: T -> bool)
    requires forall x :: x in s ==> keep(x) == keep2(x)
    ensures Filter(s, keep) == Filter(s, keep2)
    decreases |s|
  {
    if s != [] {
      var n := |s| - 1;
      assert forall x :: x in s[..n] ==> x in s;
      assert s[n] in s;
      FilterSame(s[..n], keep, keep2);
    }
  }
}
