/** Dollar quotes (`nano_mcp/pricing.py`): the median of the sources, and an exact ceiling. */
module Pricing {
  import opened Text
  import opened Numerals
  import Units

  const RAW_PER_NANO := 1_000_000_000_000_000_000_000_000_000_000

  // ------------------------------------------------------------------ the median

  function Insert(x: real, s: seq<real>): seq<real> {
    if s == [] || x <= s[0] then [x] + s else [s[0]] + Insert(x, s[1..])
  }

  /** `sorted(values)` */
  function Sorted(values: seq<real>): (s: seq<real>)
    ensures |s| == |values|
  {
    if values == [] then [] else
      InsertLength(values[0], Sorted(values[1..]));
      Insert(values[0], Sorted(values[1..]))
  }

  lemma InsertLength(x: real, s: seq<real>)
    ensures |Insert(x, s)| == |s| + 1
  {
  }

  /** `median`; None is ValueError. */
  function Median(values: seq<real>): Option<real> {
    if values == [] then None else
      var ordered := Sorted(values);
      var n := |ordered|;
      if n % 2 == 1 then Some(ordered[n / 2])
      else Some((ordered[n / 2 - 1] + ordered[n / 2]) / 2.0)
  }

  /** The rates of the sources that answered. */
  function Rates(replies: seq<Option<real>>): seq<real> {
    if replies == [] then [] else
      Rates(replies[..|replies| - 1]) +
      match replies[|replies| - 1]
      case Some(rate) => [rate]
      case None => []
  }

  /** `fetch_median_xno_usd`; None is RuntimeError. */
  method FetchMedian(replies: seq<Option<real>>) returns (r: Option<real>)
    ensures r == if |Rates(replies)| < 2 then None else Median(Rates(replies))
  {
    var rates: seq<real> := [];
    for i := 0 to |replies|
      invariant rates == Rates(replies[..i])
    {
      assert replies[..i + 1][..i] == replies[..i];
      if replies[i].Some? {
        rates := rates + [replies[i].value];
      }
    }
    assert replies[..|replies|] == replies;
    if |rates| < 2 {
      return None;
    }
    return Median(rates);
  }

  predicate IsSorted(s: seq<real>) {
    forall i, j | 0 <= i < j < |s| :: s[i] <= s[j]
  }

  /** How many values lie in `[lo, hi]`. */
  function Inside(s: seq<real>, lo: real, hi: real): (n: nat)
    ensures n <= |s|
  {
    if s == [] then 0 else Inside(s[1..], lo, hi) + if lo <= s[0] <= hi then 1 else 0
  }

  lemma {:induction false} InsertAdds(x: real, s: seq<real>)
    ensures forall i | 0 <= i < |Insert(x, s)| :: Insert(x, s)[i] == x || Insert(x, s)[i] in s
  {
    if s == [] || x <= s[0] {
    } else {
      InsertAdds(x, s[1..]);
      assert forall v | v in s[1..] :: v in s;
    }
  }

  lemma {:induction false} InsertSorts(x: real, s: seq<real>)
    requires IsSorted(s)
    ensures IsSorted(Insert(x, s))
  {
    if s == [] || x <= s[0] {
    } else {
      InsertSorts(x, s[1..]);
      InsertAdds(x, s[1..]);
      var rest := Insert(x, s[1..]);
      forall i | 0 <= i < |rest| ensures s[0] <= rest[i] {
        if rest[i] != x {
          var j :| 0 <= j < |s[1..]| && s[1..][j] == rest[i];
          assert s[j + 1] == rest[i];
        }
      }
    }
  }

  lemma {:induction false} InsertCounts(x: real, s: seq<real>, lo: real, hi: real)
    ensures Inside(Insert(x, s), lo, hi) == Inside(s, lo, hi) + if lo <= x <= hi then 1 else 0
  {
    if s == [] || x <= s[0] {
      assert ([x] + s)[1..] == s;
    } else {
      InsertCounts(x, s[1..], lo, hi);
      assert ([s[0]] + Insert(x, s[1..]))[1..] == Insert(x, s[1..]);
    }
  }

  /** Sorting puts the values in order and keeps how many lie where. */
  lemma {:induction false} SortedSorts(values: seq<real>, lo: real, hi: real)
    ensures IsSorted(Sorted(values))
    ensures Inside(Sorted(values), lo, hi) == Inside(values, lo, hi)
  {
    if values == [] {
    } else {
      SortedSorts(values[1..], lo, hi);
      InsertSorts(values[0], Sorted(values[1..]));
      InsertCounts(values[0], Sorted(values[1..]), lo, hi);
    }
  }

  lemma {:induction false} InsertsCommute(x: real, y: real, s: seq<real>)
    ensures Insert(x, Insert(y, s)) == Insert(y, Insert(x, s))
  {
    if s != [] && x > s[0] && y > s[0] {
      InsertsCommute(x, y, s[1..]);
      assert ([s[0]] + Insert(y, s[1..]))[1..] == Insert(y, s[1..]);
      assert ([s[0]] + Insert(x, s[1..]))[1..] == Insert(x, s[1..]);
    } else {
      assert ([x] + s)[1..] == s && ([y] + s)[1..] == s;
    }
  }

  /** Sorting a list is inserting any one of its elements into the rest, sorted. */
  lemma {:induction false} SortedPulls(front: seq<real>, x: real, back: seq<real>)
    ensures Sorted(front + [x] + back) == Insert(x, Sorted(front + back))
  {
    if front == [] {
      assert ([x] + back)[1..] == back && front + [x] + back == [x] + back && front + back == back;
    } else {
      SortedPulls(front[1..], x, back);
      assert (front + [x] + back)[1..] == front[1..] + [x] + back;
      assert (front + back)[1..] == front[1..] + back;
      InsertsCommute(front[0], x, Sorted(front[1..] + back));
    }
  }

  lemma {:induction false} SortedIsOrderFree(a: seq<real>, b: seq<real>)
    requires multiset(a) == multiset(b)
    ensures Sorted(a) == Sorted(b)
    decreases |a|
  {
    hide Insert;
    if a == [] {
      assert |multiset(b)| == 0;
    } else {
      assert a == [a[0]] + a[1..];
      assert a[0] in multiset(b);
      var j :| 0 <= j < |b| && b[j] == a[0];
      var front, back := b[..j], b[j + 1..];
      assert b == front + [a[0]] + back;
      RestIsSame(a[1..], front, back, a[0]);
      SortedIsOrderFree(a[1..], front + back);
      SortedPulls(front, a[0], back);
    }
  }

  lemma RestIsSame(rest: seq<real>, front: seq<real>, back: seq<real>, x: real)
    requires multiset([x] + rest) == multiset(front + [x] + back)
    ensures multiset(rest) == multiset(front + back)
  {
    assert multiset([x] + rest) - multiset{x} == multiset(rest);
    assert multiset(front + [x] + back) - multiset{x} == multiset(front + back);
  }

  /** The median does not depend on the order the sources are asked in. */
  lemma MedianIsOrderFree(a: seq<real>, b: seq<real>)
    requires multiset(a) == multiset(b)
    ensures Median(a) == Median(b)
  {
    SortedIsOrderFree(a, b);
    assert |multiset(a)| == |a| && |multiset(b)| == |b|;
  }

  /** Of two rates the median is the mean; of three it is the middle one. */
  lemma MedianOfFew(x: real, y: real, z: real)
    requires x <= y <= z
    ensures Median([x, y]) == Some((x + y) / 2.0)
    ensures Median([x, y, z]) == Some(y)
  {
    assert [x, y, z][1..] == [y, z] && [y, z][1..] == [z] && [z][1..] == [];
    assert [x, y][1..] == [y] && [y][1..] == [];
    assert Sorted([z]) == [z] && Sorted([y]) == [y];
    assert Sorted([y, z]) == [y] + [z] == [y, z];
    assert Sorted([x, y, z]) == [x] + [y, z] == [x, y, z];
    assert Sorted([x, y]) == [x] + [y] == [x, y];
  }

  lemma {:induction false} InsideSplit(s: seq<real>, k: nat, lo: real, hi: real)
    requires k <= |s|
    ensures Inside(s, lo, hi) == Inside(s[..k], lo, hi) + Inside(s[k..], lo, hi)
  {
    if k == 0 {
      assert s[0..] == s;
    } else {
      InsideSplit(s[1..], k - 1, lo, hi);
      assert s[..k][1..] == s[1..][..k - 1] && s[k..] == s[1..][k - 1..];
    }
  }

  lemma {:induction false} NoneInside(s: seq<real>, lo: real, hi: real)
    requires forall i | 0 <= i < |s| :: s[i] < lo || s[i] > hi
    ensures Inside(s, lo, hi) == 0
  {
    if s == [] {
    } else {
      NoneInside(s[1..], lo, hi);
    }
  }

  /** In a sorted list, an element outside the range leaves room for the inside ones on one side only. */
  lemma OutsideBounds(s: seq<real>, k: nat, lo: real, hi: real)
    requires IsSorted(s) && k < |s|
    ensures s[k] > hi ==> Inside(s, lo, hi) <= k
    ensures s[k] < lo ==> Inside(s, lo, hi) <= |s| - k - 1
  {
    hide IsSorted;
    if s[k] > hi {
      InsideSplit(s, k, lo, hi);
      AllBeyond(s, k);
      NoneInside(s[k..], lo, hi);
    }
    if s[k] < lo {
      InsideSplit(s, k + 1, lo, hi);
      AllBeyond(s, k);
      NoneInside(s[..k + 1], lo, hi);
    }
  }

  lemma AllBeyond(s: seq<real>, k: nat)
    requires IsSorted(s) && k < |s|
    ensures forall i | k <= i < |s| :: s[i] >= s[k]
    ensures forall i | 0 <= i <= k :: s[i] <= s[k]
  {
  }

  /** A strict majority of the rates inside a range puts the median inside it, whatever the other rates are. */
  lemma MedianFollowsMajority(values: seq<real>, lo: real, hi: real)
    requires 2 * Inside(values, lo, hi) > |values|
    ensures Median(values).Some? && lo <= Median(values).value <= hi
  {
    SortedSorts(values, lo, hi);
    var ordered, n := Sorted(values), |values|;
    OutsideBounds(ordered, n / 2, lo, hi);
    if n % 2 == 0 {
      OutsideBounds(ordered, n / 2 - 1, lo, hi);
    }
  }

  /** A majority is needed: with half of the rates outside, the median can leave the range. */
  lemma HalfIsNotEnough()
    ensures Inside([1.0, 100.0], 1.0, 2.0) == 1 && Median([1.0, 100.0]) == Some(50.5)
  {
    assert [1.0, 100.0][1..] == [100.0] && [100.0][1..] == [];
    assert Sorted([100.0]) == [100.0] by {
      assert [100.0] + [] == [100.0];
    }
    assert Sorted([1.0, 100.0]) == [1.0, 100.0];
  }

  // ------------------------------------------------------------------ the quote

  /** A Decimal as the ratio of integers it is. */
  datatype Ratio = Ratio(num: int, den: nat) {
    predicate Valid() {
      den > 0
    }

    function Amount(): real
      requires Valid()
    {
      num as real / den as real
    }
  }

  /** `-(-a // b)` for a positive `b` */
  function CeilingDiv(a: int, b: int): int
    requires b > 0
  {
    -((-a) / b)
  }

  /** `usd_to_xno_raw`; None is ValueError. */
  function UsdToXnoRaw(price: Ratio, rate: Ratio): Option<int>
    requires price.Valid() && rate.Valid()
  {
    if price.num <= 0 || rate.num <= 0 then None
    else
      PositiveProduct(price.den, rate.num);
      Some(CeilingDiv(price.num * rate.den * RAW_PER_NANO, price.den * rate.num))
  }

  lemma PositiveProduct(a: int, b: int)
    requires a > 0 && b > 0
    ensures a * b > 0
  {
  }

  /** `n` raw at this rate are worth at least the price. */
  predicate Covers(n: int, price: Ratio, rate: Ratio)
    requires price.Valid() && rate.Valid()
  {
    n as real * rate.Amount() >= price.Amount() * RAW_PER_NANO as real
  }

  lemma CeilingDivBounds(a: int, b: int)
    requires b > 0
    ensures (CeilingDiv(a, b) - 1) * b < a <= CeilingDiv(a, b) * b
  {
    var q, r := (-a) / b, (-a) % b;
    assert -a == b * q + r && 0 <= r < b;
    assert CeilingDiv(a, b) * b == -(b * q);
  }

  lemma CeilingDivLeast(a: int, b: int, m: int)
    requires b > 0
    ensures m * b >= a <==> m >= CeilingDiv(a, b)
  {
    CeilingDivBounds(a, b);
    var n := CeilingDiv(a, b);
    if m >= n {
      MulMonotone(n, m, b);
    } else {
      MulMonotone(m, n - 1, b);
    }
  }

  lemma MulMonotone(x: int, y: int, b: int)
    requires x <= y && b > 0
    ensures x * b <= y * b
  {
  }

  /** Comparing two fractions is comparing the cross products. */
  lemma CrossMultiply(a: real, b: real, c: real, d: real)
    requires b > 0.0 && d > 0.0
    ensures a / b >= c / d <==> a * d >= c * b
  {
    var x, y := a / b, c / d;
    assert a == x * b && c == y * d;
    assert a * d == x * (b * d) && c * b == y * (b * d);
    assert b * d > 0.0;
    ScaleCompare(x, y, b * d);
  }

  lemma ScaleCompare(x: real, y: real, k: real)
    requires k > 0.0
    ensures x >= y <==> x * k >= y * k
  {
    if x >= y {
      assert (x - y) * k >= 0.0;
    } else {
      assert (y - x) * k > 0.0;
    }
  }

  lemma CoversExact(n: int, price: Ratio, rate: Ratio)
    requires price.Valid() && rate.Valid()
    ensures Covers(n, price, rate) <==> n * (price.den * rate.num) >= price.num * rate.den * RAW_PER_NANO
  {
    var rn, rd, pn, pd := rate.num as real, rate.den as real, price.num as real, price.den as real;
    var m, t := n as real, RAW_PER_NANO as real;
    assert m * (rn / rd) == (m * rn) / rd by {
      MulDiv(m, rn, rd);
    }
    assert (pn / pd) * t == (pn * t) / pd by {
      MulDiv(t, pn, pd);
    }
    CrossMultiply(m * rn, rd, pn * t, pd);
    RealProduct3(n, rate.num, price.den);
    RealProduct3(price.num, RAW_PER_NANO, rate.den);
    assert n * rate.num * price.den == n * (price.den * rate.num);
    assert price.num * RAW_PER_NANO * rate.den == price.num * rate.den * RAW_PER_NANO;
  }

  lemma MulDiv(m: real, a: real, b: real)
    requires b > 0.0
    ensures m * (a / b) == (m * a) / b
    ensures (a / b) * m == (a * m) / b
  {
    var x := a / b;
    assert a == x * b;
    assert m * a == (m * x) * b;
  }

  lemma RealProduct3(a: int, b: int, c: int)
    ensures (a as real * b as real) * c as real == (a * b * c) as real
  {
    RealProduct(a, b);
    RealProduct(a * b, c);
  }

  lemma RealProduct(a: int, b: int)
    ensures a as real * b as real == (a * b) as real
  {
  }

  /** The quote is the least number of raw that is worth the price at the rate. */
  lemma QuoteIsLeast(price: Ratio, rate: Ratio, m: int)
    requires price.Valid() && rate.Valid() && price.num > 0 && rate.num > 0
    ensures var n := UsdToXnoRaw(price, rate);
      n.Some? && n.value > 0 && (Covers(m, price, rate) <==> m >= n.value)
  {
    PositiveProduct(price.den, rate.num);
    PositiveProduct(price.num, rate.den);
    PositiveProduct(price.num * rate.den, RAW_PER_NANO);
    var a, b := price.num * rate.den * RAW_PER_NANO, price.den * rate.num;
    CoversExact(m, price, rate);
    CeilingDivLeast(a, b, m);
    CeilingDivLeast(a, b, 0);
  }

  /** A higher rate never asks for more raw. */
  lemma QuoteAntitone(price: Ratio, low: Ratio, high: Ratio)
    requires price.Valid() && low.Valid() && high.Valid() && price.num > 0 && low.num > 0 && high.num > 0
    requires low.Amount() <= high.Amount()
    ensures UsdToXnoRaw(price, high).value <= UsdToXnoRaw(price, low).value
  {
    hide UsdToXnoRaw, Ratio.Amount;
    QuoteIsLeast(price, low, 0);
    var n := UsdToXnoRaw(price, low).value;
    QuoteIsLeast(price, low, n);
    MulMonotoneReal(n as real, low.Amount(), high.Amount());
    QuoteIsLeast(price, high, n);
  }

  lemma MulMonotoneReal(k: real, x: real, y: real)
    requires k >= 0.0 && x <= y
    ensures k * x <= k * y
  {
  }

  /** Pricing is robust against any minority of sources: if a strict majority of the rates lies between two positive
      ones, the quote at the median lies between the quotes at those two. */
  lemma MajorityBoundsQuote(price: Ratio, rates: seq<real>, low: Ratio, high: Ratio, rate: Ratio)
    requires price.Valid() && low.Valid() && high.Valid() && rate.Valid()
    requires price.num > 0 && low.num > 0 && high.num > 0
    requires 2 * Inside(rates, low.Amount(), high.Amount()) > |rates|
    requires Median(rates) == Some(rate.Amount())
    ensures rate.num > 0
    ensures UsdToXnoRaw(price, high).value <= UsdToXnoRaw(price, rate).value <= UsdToXnoRaw(price, low).value
  {
    MedianFollowsMajority(rates, low.Amount(), high.Amount());
    PositiveRatio(low);
    PositiveRatio(rate);
    QuoteAntitone(price, low, rate);
    QuoteAntitone(price, rate, high);
  }

  lemma PositiveRatio(r: Ratio)
    requires r.Valid()
    ensures r.num > 0 <==> r.Amount() > 0.0
  {
    var x := r.Amount();
    assert r.num as real == x * r.den as real;
    if x > 0.0 {
      assert x * r.den as real > 0.0;
    } else {
      assert x * r.den as real <= 0.0;
    }
  }

  // ------------------------------------------------------------------ units and sources

  /** A nano is 10^30 raw, the unit `nano_sdk/units.py` scales by. */
  lemma NanoInRaw()
    ensures RAW_PER_NANO == Pow(10, 30) == Pow(10, Units.RAW_EXPONENT)
  {
    assert Pow(10, 5) == 100_000;
    PowAdd(10, 5, 5);
    PowAdd(10, 10, 10);
    PowAdd(10, 20, 10);
  }

  /** The rates are those of the sources that answered, each once, in the order they were asked. */
  lemma {:induction false} RatesExact(a: seq<Option<real>>, b: seq<Option<real>>, rate: real)
    ensures Rates(a + b) == Rates(a) + Rates(b)
    ensures Rates([Some(rate)]) == [rate] && Rates([None]) == []
  {
    var silent: seq<Option<real>> := [None];
    assert [Some(rate)][..0] == [] && silent[..0] == [];
    if b == [] {
      assert a + b == a;
    } else {
      RatesExact(a, b[..|b| - 1], rate);
      assert (a + b)[..|a + b| - 1] == a + b[..|b| - 1];
    }
  }

  /** In raw: a dollar price at a rate of one dollar is the price times 10^30, and a raw less would not cover it. */
  lemma QuoteAtParity(dollars: nat)
    requires dollars > 0
    ensures UsdToXnoRaw(Ratio(dollars, 1), Ratio(1, 1)) == Some(dollars * Pow(10, 30))
  {
    NanoInRaw();
    var a := dollars * 1 * RAW_PER_NANO;
    assert (-a) / 1 == -a;
  }

  /** A quote is refused exactly for a price or a rate that is not positive. */
  lemma QuoteRefusesExact(price: Ratio, rate: Ratio)
    requires price.Valid() && rate.Valid()
    ensures UsdToXnoRaw(price, rate).None? <==> price.Amount() <= 0.0 || rate.Amount() <= 0.0
  {
    PositiveRatio(price);
    PositiveRatio(rate);
  }
}
