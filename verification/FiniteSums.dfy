/** Sums and products of real numbers over finite sets. */
module FiniteSums {

  /** The sum of f over s, in any order. */
  ghost function Sum<T(!new)>(s: set<T>, f: T -> real): real
    decreases |s|
  {
    if s == {} then 0.0
    else
      var x :| x in s;
      f(x) + Sum(s - {x}, f)
  }

  lemma {:induction false} SumPick<T(!new)>(s: set<T>, f: T -> real, x: T)
    requires x in s
    ensures Sum(s, f) == f(x) + Sum(s - {x}, f)
    decreases |s|
  {
    var y :| y in s && Sum(s, f) == f(y) + Sum(s - {y}, f);
    if y != x {
      SumPick(s - {y}, f, x);
      SumPick(s - {x}, f, y);
      assert s - {y} - {x} == s - {x} - {y};
    }
  }

  lemma SumAdd<T(!new)>(s: set<T>, f: T -> real, x: T)
    requires x !in s
    ensures Sum(s + {x}, f) == f(x) + Sum(s, f)
  {
    SumPick(s + {x}, f, x);
    assert s + {x} - {x} == s;
  }

  lemma SumOne<T(!new)>(x: T, f: T -> real)
    ensures Sum({x}, f) == f(x)
  {
    SumPick({x}, f, x);
    assert {x} - {x} == {};
  }

  lemma {:induction false} SumSame<T(!new)>(s: set<T>, f: T -> real, g: T -> real)
    requires forall x :: x in s ==> f(x) == g(x)
    ensures Sum(s, f) == Sum(s, g)
    decreases |s|
  {
    if x :| x in s {
      SumPick(s, f, x);
      SumPick(s, g, x);
      SumSame(s - {x}, f, g);
    }
  }

  function Times(c: real, x: real): real {
    c * x
  }

  lemma TimesAdd(c: real, a: real, b: real)
    ensures Times(c, a + b) == Times(c, a) + Times(c, b) && Times(c, 0.0) == 0.0
  {
  }

  lemma {:induction false} SumScale<T(!new)>(s: set<T>, f: T -> real, g: T -> real, c: real)
    requires forall x :: x in s ==> g(x) == Times(c, f(x))
    ensures Sum(s, g) == Times(c, Sum(s, f))
    decreases |s|
  {
    hide Times;
    if x :| x in s {
      SumPick(s, f, x);
      SumPick(s, g, x);
      SumScale(s - {x}, f, g, c);
      TimesAdd(c, f(x), Sum(s - {x}, f));
    } else {
      TimesAdd(c, 0.0, 0.0);
    }
  }

  lemma {:induction false} SumNonNegative<T(!new)>(s: set<T>, f: T -> real)
    requires forall x :: x in s ==> f(x) >= 0.0
    ensures Sum(s, f) >= 0.0
    decreases |s|
  {
    if x :| x in s {
      SumPick(s, f, x);
      SumNonNegative(s - {x}, f);
    }
  }

  /** No term is greater than a sum of numbers that are not negative. */
  lemma TermBelowSum<T(!new)>(s: set<T>, f: T -> real, x: T)
    requires x in s && forall y :: y in s ==> f(y) >= 0.0
    ensures 0.0 <= f(x) <= Sum(s, f)
  {
    SumPick(s, f, x);
    SumNonNegative(s - {x}, f);
  }

  lemma {:induction false} SumZero<T(!new)>(s: set<T>, f: T -> real)
    requires forall x :: x in s ==> f(x) == 0.0
    ensures Sum(s, f) == 0.0
    decreases |s|
  {
    if x :| x in s {
      SumPick(s, f, x);
      SumZero(s - {x}, f);
    }
  }

  /** Counting the terms by their images under h gives the same sum. */
  lemma {:induction false} SumImage<T(!new), U(!new)>(s: set<T>, f: T -> real, t: set<U>, g: U -> real, h: T -> U)
    requires forall x :: x in s ==> h(x) in t && f(x) == g(h(x))
    requires forall x, y :: x in s && y in s && h(x) == h(y) ==> x == y
    requires forall u :: u in t ==> exists x :: x in s && h(x) == u
    ensures Sum(s, f) == Sum(t, g)
    decreases |s|
  {
    if x :| x in s {
      SumPick(s, f, x);
      SumPick(t, g, h(x));
      forall u | u in t - {h(x)}
        ensures exists y :: y in s - {x} && h(y) == u
      {
        var y :| y in s && h(y) == u;
        assert y in s - {x};
      }
      SumImage(s - {x}, f, t - {h(x)}, g, h);
    } else {
      assert t == {};
    }
  }

  /** The part of s that h takes to u. */
  ghost function Fiber<T(!new), U(!new)>(s: set<T>, h: T -> U, u: U): set<T> {
    set x | x in s && h(x) == u
  }

  /** A sum may be taken group by group. */
  lemma {:induction false} SumByGroups<T(!new), U(!new)>(s: set<T>, f: T -> real, t: set<U>, h: T -> U, g: U -> real)
    requires forall x :: x in s ==> h(x) in t
    requires forall u :: u in t ==> g(u) == Sum(Fiber(s, h, u), f)
    ensures Sum(s, f) == Sum(t, g)
    decreases |t|
  {
    if u :| u in t {
      var rest := s - Fiber(s, h, u);
      SumPick(t, g, u);
      SumSplit(s, f, Fiber(s, h, u));
      forall v | v in t - {u}
        ensures g(v) == Sum(Fiber(rest, h, v), f)
      {
        assert Fiber(rest, h, v) == Fiber(s, h, v);
      }
      SumByGroups(rest, f, t - {u}, h, g);
    } else {
      assert s == {};
    }
  }

  lemma {:induction false} SumSplit<T(!new)>(s: set<T>, f: T -> real, part: set<T>)
    requires part <= s
    ensures Sum(s, f) == Sum(part, f) + Sum(s - part, f)
    decreases |part|
  {
    if x :| x in part {
      hide Sum;
      SumPick(s, f, x);
      SumPick(part, f, x);
      SumSplit(s - {x}, f, part - {x});
      assert s - {x} - (part - {x}) == s - part;
    } else {
      assert s - part == s;
    }
  }

  // ---- products ----

  /** The product of f over s, in any order. */
  ghost function Product<T(!new)>(s: set<T>, f: T -> real): real
    decreases |s|
  {
    if s == {} then 1.0
    else
      var x :| x in s;
      Times(f(x), Product(s - {x}, f))
  }

  lemma TimesSwap(a: real, b: real, c: real)
    ensures Times(a, Times(b, c)) == Times(b, Times(a, c)) == Times(Times(a, b), c)
  {
  }

  lemma {:induction false} ProductPick<T(!new)>(s: set<T>, f: T -> real, x: T)
    requires x in s
    ensures Product(s, f) == Times(f(x), Product(s - {x}, f))
    decreases |s|
  {
    hide Times;
    var y :| y in s && Product(s, f) == Times(f(y), Product(s - {y}, f));
    if y != x {
      ProductPick(s - {y}, f, x);
      ProductPick(s - {x}, f, y);
      assert s - {y} - {x} == s - {x} - {y};
      TimesSwap(f(x), f(y), Product(s - {x} - {y}, f));
    }
  }

  lemma ProductAdd<T(!new)>(s: set<T>, f: T -> real, x: T)
    requires x !in s
    ensures Product(s + {x}, f) == Times(f(x), Product(s, f))
  {
    hide Times;
    ProductPick(s + {x}, f, x);
    assert s + {x} - {x} == s;
  }

  lemma {:induction false} ProductSame<T(!new)>(s: set<T>, f: T -> real, g: T -> real)
    requires forall x :: x in s ==> f(x) == g(x)
    ensures Product(s, f) == Product(s, g)
    decreases |s|
  {
    hide Times;
    if x :| x in s {
      ProductPick(s, f, x);
      ProductPick(s, g, x);
      ProductSame(s - {x}, f, g);
    }
  }

  lemma TimesZero(a: real, b: real)
    ensures Times(a, b) == 0.0 <==> a == 0.0 || b == 0.0
  {
  }

  lemma {:induction false} ProductZero<T(!new)>(s: set<T>, f: T -> real)
    ensures Product(s, f) == 0.0 <==> exists x :: x in s && f(x) == 0.0
    decreases |s|
  {
    hide Times;
    if x :| x in s {
      ProductPick(s, f, x);
      ProductZero(s - {x}, f);
      TimesZero(f(x), Product(s - {x}, f));
      if y :| y in s && f(y) == 0.0 {
        assert y == x || y in s - {x};
      }
    }
  }

  lemma {:induction false} ProductOnes<T(!new)>(s: set<T>, f: T -> real)
    requires forall x :: x in s ==> f(x) == 1.0
    ensures Product(s, f) == 1.0
    decreases |s|
  {
    if x :| x in s {
      ProductPick(s, f, x);
      ProductOnes(s - {x}, f);
    }
  }

  lemma TimesPairs(a: real, b: real, c: real, d: real)
    ensures Times(Times(a, b), Times(c, d)) == Times(Times(a, c), Times(b, d))
  {
    assert (a * b) * (c * d) == a * (b * c) * d == a * (c * b) * d == (a * c) * (b * d);
  }

  /** A product of products of two factors. */
  lemma {:induction false} ProductOfTwo<T(!new)>(s: set<T>, f: T -> real, g: T -> real, h: T -> real)
    requires forall x :: x in s ==> h(x) == Times(f(x), g(x))
    ensures Product(s, h) == Times(Product(s, f), Product(s, g))
    decreases |s|
  {
    if x :| x in s {
      hide Times;
      ProductPick(s, f, x);
      ProductPick(s, g, x);
      ProductPick(s, h, x);
      ProductOfTwo(s - {x}, f, g, h);
      TimesPairs(f(x), g(x), Product(s - {x}, f), Product(s - {x}, g));
    }
  }

  lemma {:induction false} ProductSplit<T(!new)>(s: set<T>, f: T -> real, part: set<T>)
    requires part <= s
    ensures Product(s, f) == Times(Product(part, f), Product(s - part, f))
    decreases |part|
  {
    if x :| x in part {
      hide Product, Times;
      ProductPick(s, f, x);
      ProductPick(part, f, x);
      ProductSplit(s - {x}, f, part - {x});
      assert s - {x} - (part - {x}) == s - part;
      TimesSwap(f(x), Product(part - {x}, f), Product(s - part, f));
    } else {
      assert s - part == s;
    }
  }

  /** A product may be taken group by group. */
  lemma {:induction false} ProductByGroups<T(!new), U(!new)>(s: set<T>, f: T -> real, t: set<U>, h: T -> U, g: U -> real)
    requires forall x :: x in s ==> h(x) in t
    requires forall u :: u in t ==> g(u) == Product(Fiber(s, h, u), f)
    ensures Product(s, f) == Product(t, g)
    decreases |t|
  {
    if u :| u in t {
      hide Times;
      var rest := s - Fiber(s, h, u);
      ProductPick(t, g, u);
      ProductSplit(s, f, Fiber(s, h, u));
      forall v | v in t - {u}
        ensures g(v) == Product(Fiber(rest, h, v), f)
      {
        assert Fiber(rest, h, v) == Fiber(s, h, v);
      }
      ProductByGroups(rest, f, t - {u}, h, g);
    } else {
      assert s == {};
    }
  }
}
