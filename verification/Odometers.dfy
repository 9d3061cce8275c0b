/** Counting through all assignments of a clique: the first variable changes fastest. */
module Odometers {
  import opened Arith
  import opened Assignments

  predicate Has(card: seq<nat>, keys: seq<nat>, x: Assignment) {
    forall i :: 0 <= i < |keys| ==> keys[i] in x && keys[i] < |card|
  }

  lemma HasRest(card: seq<nat>, keys: seq<nat>, x: Assignment)
    requires Has(card, keys, x) && keys != []
    ensures Has(card, keys[1..], x) && Has(card, keys[1..], x[keys[0] := 0])
  {
  }

  /** The place of an assignment in the count. */
  function Rank(card: seq<nat>, keys: seq<nat>, x: Assignment): nat
    requires Has(card, keys, x)
  {
    if keys == [] then 0 else HasRest(card, keys, x); x[keys[0]] + Scaled(card[keys[0]], Rank(card, keys[1..], x))
  }

  function Scaled(c: nat, r: nat): nat {
    c * r
  }

  /** The next assignment, and whether there is one. */
  function Next(card: seq<nat>, keys: seq<nat>, x: Assignment): (r: (Assignment, bool))
    requires Has(card, keys, x)
    ensures r.0.Keys == x.Keys && forall k :: k in x && k !in keys ==> r.0[k] == x[k]
    decreases |keys|
  {
    if keys == [] then (x, false)
    else
      HasRest(card, keys, x);
      var k := keys[0];
      if x[k] + 1 == card[k] then Next(card, keys[1..], x[k := 0]) else (x[k := x[k] + 1], true)
  }

  ghost predicate Digits(card: seq<nat>, keys: seq<nat>, x: Assignment) {
    && Has(card, keys, x)
    && (forall i :: 0 <= i < |keys| ==> x[keys[i]] < card[keys[i]])
    && forall i, j :: 0 <= i < j < |keys| ==> keys[i] != keys[j]
  }

  lemma DigitsRest(card: seq<nat>, keys: seq<nat>, x: Assignment)
    requires Digits(card, keys, x) && keys != []
    ensures keys[0] !in keys[1..] && x[keys[0]] < card[keys[0]]
    ensures Digits(card, keys[1..], x) && Digits(card, keys[1..], x[keys[0] := 0])
    ensures Rank(card, keys[1..], x[keys[0] := 0]) == Rank(card, keys[1..], x)
  {
    forall i | 0 <= i < |keys| - 1
      ensures keys[1..][i] == keys[i + 1] != keys[0]
    {
    }
    RankIgnores(card, keys[1..], x, x[keys[0] := 0]);
  }

  lemma {:induction false} RankIgnores(card: seq<nat>, keys: seq<nat>, x: Assignment, y: Assignment)
    requires Has(card, keys, x) && Has(card, keys, y) && forall i :: 0 <= i < |keys| ==> x[keys[i]] == y[keys[i]]
    ensures Rank(card, keys, x) == Rank(card, keys, y)
  {
    if keys != [] {
      HasRest(card, keys, x);
      HasRest(card, keys, y);
      RankIgnores(card, keys[1..], x, y);
    }
  }

  lemma ScaledNext(c: nat, r: nat, s: nat)
    ensures Scaled(c, r + 1) == Scaled(c, r) + c && (r <= s ==> Scaled(c, r) <= Scaled(c, s))
  {
    if r <= s {
      MulMonotone(r, s, c);
    }
  }

  /** Counting goes up by one. */
  lemma {:induction false} NextRank(card: seq<nat>, keys: seq<nat>, x: Assignment)
    requires Digits(card, keys, x)
    ensures var (y, more) := Next(card, keys, x);
            more ==> Digits(card, keys, y) && Rank(card, keys, y) == Rank(card, keys, x) + 1
    decreases |keys|
  {
    NextUnfolds(card, keys, x);
    hide Scaled, Rank, Next;
    if keys != [] {
      DigitsRest(card, keys, x);
      var k, rest := keys[0], keys[1..];
      RankUnfolds(card, keys, x);
      if x[k] + 1 == card[k] {
        NextRank(card, rest, x[k := 0]);
        ScaledNext(card[k], Rank(card, rest, x), 0);
        var (y, more) := Next(card, rest, x[k := 0]);
        if more {
          DigitsWhole(card, keys, y);
          RankUnfolds(card, keys, y);
        }
      } else {
        var y := x[k := x[k] + 1];
        SameRest(card, keys, x, y);
        DigitsWhole(card, keys, y);
        RankUnfolds(card, keys, y);
      }
    }
  }

  lemma NextUnfolds(card: seq<nat>, keys: seq<nat>, x: Assignment)
    requires Has(card, keys, x)
    ensures keys == [] ==> Next(card, keys, x) == (x, false)
    ensures keys != [] ==>
              var k := keys[0];
              Has(card, keys[1..], x[k := 0]) &&
              Next(card, keys, x) == if x[k] + 1 == card[k] then Next(card, keys[1..], x[k := 0]) else (x[k := x[k] + 1], true)
  {
    if keys != [] {
      HasRest(card, keys, x);
    }
  }

  lemma RankUnfolds(card: seq<nat>, keys: seq<nat>, x: Assignment)
    requires Has(card, keys, x) && keys != []
    ensures Has(card, keys[1..], x)
    ensures Rank(card, keys, x) == x[keys[0]] + Scaled(card[keys[0]], Rank(card, keys[1..], x))
  {
    HasRest(card, keys, x);
  }

  lemma DigitsWhole(card: seq<nat>, keys: seq<nat>, y: Assignment)
    requires keys != [] && keys[0] !in keys[1..] && Digits(card, keys[1..], y)
    requires keys[0] in y && keys[0] < |card| && y[keys[0]] < card[keys[0]]
    ensures Digits(card, keys, y)
  {
    forall i | 0 < i < |keys|
      ensures keys[i] == keys[1..][i - 1] && keys[i] != keys[0]
    {
    }
  }

  lemma SameRest(card: seq<nat>, keys: seq<nat>, x: Assignment, y: Assignment)
    requires keys != [] && keys[0] !in keys[1..] && Digits(card, keys[1..], x)
    requires y.Keys == x.Keys + {keys[0]} && forall k :: k in x && k != keys[0] ==> y[k] == x[k]
    ensures Digits(card, keys[1..], y) && Rank(card, keys[1..], y) == Rank(card, keys[1..], x)
  {
    forall i | 0 <= i < |keys| - 1
      ensures keys[1..][i] != keys[0]
    {
      assert keys[1..][i] in keys[1..];
    }
    RankIgnores(card, keys[1..], x, y);
  }

  /** Where counting ends, nothing is left. */
  lemma {:induction false} NextEnds(card: seq<nat>, keys: seq<nat>, x: Assignment, z: Assignment)
    requires Digits(card, keys, x) && Digits(card, keys, z) && !Next(card, keys, x).1
    ensures Rank(card, keys, z) <= Rank(card, keys, x)
    decreases |keys|
  {
    hide Scaled;
    if keys != [] {
      DigitsRest(card, keys, x);
      DigitsRest(card, keys, z);
      var k, rest := keys[0], keys[1..];
      NextEnds(card, rest, x[k := 0], z);
      ScaledNext(card[k], Rank(card, rest, z), Rank(card, rest, x));
    }
  }

  lemma {:induction false} RankDetermines(card: seq<nat>, keys: seq<nat>, x: Assignment, z: Assignment)
    requires Digits(card, keys, x) && Digits(card, keys, z) && Rank(card, keys, x) == Rank(card, keys, z)
    ensures forall i :: 0 <= i < |keys| ==> x[keys[i]] == z[keys[i]]
  {
    if keys != [] {
      DigitsRest(card, keys, x);
      DigitsRest(card, keys, z);
      var k, rest := keys[0], keys[1..];
      var c := card[k];
      var r, s := Rank(card, rest, x), Rank(card, rest, z);
      assert c * r == r * c && c * s == s * c;
      DivModUnique(Rank(card, keys, x), c, r, x[k]);
      DivModUnique(Rank(card, keys, z), c, s, z[k]);
      RankDetermines(card, rest, x, z);
      forall i | 0 < i < |keys|
        ensures x[keys[i]] == z[keys[i]]
      {
        assert keys[i] == rest[i - 1];
      }
    }
  }

  lemma {:induction false} ZeroRank(card: seq<nat>, keys: seq<nat>, x: Assignment)
    requires Has(card, keys, x) && forall i :: 0 <= i < |keys| ==> x[keys[i]] == 0
    ensures Rank(card, keys, x) == 0
  {
    if keys != [] {
      HasRest(card, keys, x);
      ZeroRank(card, keys[1..], x);
    }
  }

  lemma NextStep(card: seq<nat>, keys: seq<nat>, i: nat, x: Assignment)
    requires i < |keys| && Has(card, keys, x)
    ensures var k := keys[i];
            && Has(card, keys[i..], x) && Has(card, keys[i + 1..], x[k := x[k] + 1][k := 0])
            && Next(card, keys[i..], x) ==
               if x[k] + 1 == card[k] then Next(card, keys[i + 1..], x[k := x[k] + 1][k := 0]) else (x[k := x[k] + 1], true)
  {
    var k := keys[i];
    assert keys[i..][1..] == keys[i + 1..] && keys[i..][0] == k;
    assert x[k := x[k] + 1][k := 0] == x[k := 0];
  }

  /** Steps on to the next assignment, if there is one. */
  method Advance(card: seq<nat>, keys: seq<nat>, x: Assignment) returns (value: Assignment, more: bool)
    requires Has(card, keys, x)
    ensures (value, more) == Next(card, keys, x)
  {
    hide Next;
    value, more := x, false;
    var i := 0;
    assert keys[0..] == keys;
    while i < |keys|
      invariant 0 <= i <= |keys| && value.Keys == x.Keys && !more
      invariant Has(card, keys[i..], value) && Next(card, keys, x) == Next(card, keys[i..], value)
    {
      NextStep(card, keys, i, value);
      var k := keys[i];
      value := value[k := value[k] + 1];
      if value[k] == card[k] {
        value := value[k := 0];
      } else {
        more := true;
        return;
      }
      i := i + 1;
    }
    NextDone(card, keys[i..], value);
  }

  lemma NextDone(card: seq<nat>, keys: seq<nat>, x: Assignment)
    requires keys == []
    ensures Next(card, keys, x) == (x, false)
  {
  }
}
