/** Python's `collections.Counter` as the tag-usage tally uses it: a finite map
    from names to counts in which a missing name reads as 0. */
module Counters {

  type Counter = map<string, nat>

  /** `c[k]` on a Counter: 0 for a name that was never stored. */
  function Get(c: Counter, k: string): (r: nat)
    ensures k in c ==> r == c[k]
    ensures k !in c ==> r == 0
  {
    if k in c then c[k] else 0
  }

  /** `c[k] += n`. Python reads the missing count as 0 and then stores the sum,
      so the name becomes a key even when `n` is 0. */
  function Bump(c: Counter, k: string, n: nat): (r: Counter)
    ensures r.Keys == c.Keys + {k}
    ensures Get(r, k) == Get(c, k) + n
    ensures forall j :: j != k ==> Get(r, j) == Get(c, j)
  {
    c[k := Get(c, k) + n]
  }

  /** Two counters that store the same names with the same counts are equal. */
  lemma CountersEqual(a: Counter, b: Counter)
    requires a.Keys == b.Keys
    requires forall k :: Get(a, k) == Get(b, k)
    ensures a == b
  {
    forall k | k in a
      ensures a[k] == b[k]
    {
      assert Get(a, k) == Get(b, k);
    }
  }

  /** Two `+=` on one counter give the same counter in either order. */
  lemma BumpCommutes(c: Counter, j: string, m: nat, k: string, n: nat)
    ensures Bump(Bump(c, j, m), k, n) == Bump(Bump(c, k, n), j, m)
  {
    CountersEqual(Bump(Bump(c, j, m), k, n), Bump(Bump(c, k, n), j, m));
  }

  /** Some name stored in a non-empty counter. */
  ghost function Pick(c: Counter): (k: string)
    requires c != map[]
    ensures k in c
  {
    var k :| k in c; k
  }

  /** The sum of all counts stored in `c`. */
  ghost function Sum(c: Counter): nat
    decreases c.Keys
  {
    if c == map[] then 0
    else
      var k := Pick(c);
      c[k] + Sum(c - {k})
  }

  /** Every count can be taken out of the sum first, whichever name `Sum` happens to pick. */
  lemma {:induction false} SumRemove(c: Counter, k: string)
    requires k in c
    ensures Sum(c) == c[k] + Sum(c - {k})
    decreases c.Keys
  {
    var j := Pick(c);
    if j != k {
      SumRemove(c - {j}, k);
      SumRemove(c - {k}, j);
      assert c - {j} - {k} == c - {k} - {j};
    }
  }

  /** `c[k] += n` adds exactly `n` to the sum of the counter. */
  lemma SumBump(c: Counter, k: string, n: nat)
    ensures Sum(Bump(c, k, n)) == Sum(c) + n
  {
    var r := Bump(c, k, n);
    SumRemove(r, k);
    if k in c {
      SumRemove(c, k);
      assert r - {k} == c - {k};
    } else {
      assert r - {k} == c;
    }
  }

  /** A counter whose only names are `a` and `b` sums to the counts of those two. */
  lemma SumOfTwo(c: Counter, a: string, b: string)
    requires a != b
    requires c.Keys <= {a, b}
    ensures Sum(c) == Get(c, a) + Get(c, b)
  {
    if a in c {
      SumRemove(c, a);
      var rest := c - {a};
      if b in rest {
        SumRemove(rest, b);
        assert rest - {b} == map[];
      } else {
        assert rest == map[];
      }
    } else if b in c {
      SumRemove(c, b);
      assert c - {b} == map[];
    } else {
      assert c == map[];
    }
  }

  /** No name loses its key or any of its count from `a` to `b`. */
  ghost predicate Below(a: Counter, b: Counter)
  {
    forall k :: k in a ==> k in b && a[k] <= b[k]
  }

  /** `Below` from the stored names and the counts read through `Get`. */
  lemma BelowByGet(a: Counter, b: Counter)
    requires a.Keys <= b.Keys
    requires forall k :: Get(a, k) <= Get(b, k)
    ensures Below(a, b)
  {
    forall k | k in a
      ensures a[k] <= b[k]
    {
      assert Get(a, k) <= Get(b, k);
    }
  }

  lemma BelowTransitive(a: Counter, b: Counter, c: Counter)
    requires Below(a, b) && Below(b, c)
    ensures Below(a, c)
  {
  }
}
