/** The demo helpers of src/app_lib.h: factorial and the two fill_cntr
    overloads, one filling a map with i ↦ i!, one filling a list. */
module AppLib {
  import opened Lists

  /** `factorial(n)`: `n ? n * factorial(n - 1) : 1`, over mathematical
      integers. */
  function Factorial(n: nat): (r: nat)
    ensures 1 <= r && n <= r
  {
    if n == 0 then 1 else n * Factorial(n - 1)
  }

  /** The values the header checks at compile time. */
  lemma FactorialValues()
    ensures Factorial(9) == 9 * 8 * 7 * 6 * 5 * 4 * 3 * 2 * 1 == 362880
    ensures Factorial(3) == 3 * 2 * 1
    ensures Factorial(2) == 2 * 1
    ensures Factorial(1) == 1
    ensures Factorial(0) == 1
  {
  }

  /** Scaling by a positive factor never shrinks a natural number. */
  lemma ScaleUp(a: nat, b: nat)
    requires 1 <= a
    ensures b <= a * b
  {
    assert a * b == b + (a - 1) * b;
  }

  /** Factorial never decreases. */
  lemma {:induction false} FactorialMonotone(k: nat, n: nat)
    requires k <= n
    ensures Factorial(k) <= Factorial(n)
  {
    if k < n {
      FactorialMonotone(k, n - 1);
      ScaleUp(n, Factorial(n - 1));
    }
  }

  /** The integers lo, lo + 1, ..., hi - 1 (none when hi <= lo). */
  function Span(lo: int, hi: int): (r: seq<int>)
    ensures |r| == if lo < hi then hi - lo else 0
    ensures forall k :: 0 <= k < |r| ==> r[k] == lo + k
  {
    seq(if lo < hi then hi - lo else 0, k => lo + k)
  }

  /** Pushing lo in front of a span that starts at lo + 1 (followed by
      anything) extends the span down to lo. */
  lemma SpanPush(lo: int, hi: int, rest: seq<int>)
    requires lo < hi
    ensures [lo] + (Span(lo + 1, hi) + rest) == Span(lo, hi) + rest
  {
    assert Span(lo, hi) == [lo] + Span(lo + 1, hi);
  }

  /** `fill_cntr` on a list: pushes times - 1 down to 0 at the front, so the
      contents s become [0, 1, ..., times - 1] + s; nothing happens for
      times <= 0. */
  method FillList(cntr: LinkedList<int>, times: int)
    requires cntr.Valid()
    modifies cntr, cntr.alloc, cntr.alloc.bitsets
    ensures cntr.Valid()
    ensures cntr.Contents == Span(0, times) + old(cntr.Contents)
    ensures times <= 0 ==> cntr.Contents == old(cntr.Contents)
  {
    var i := times - 1;
    while i >= 0
      invariant i < times && (-1 <= i || i == times - 1)
      invariant cntr.Valid()
      invariant cntr.Contents == Span(i + 1, times) + old(cntr.Contents)
      invariant old(cntr.alloc.bitsets) <= cntr.alloc.bitsets
      invariant fresh(cntr.alloc.bitsets - old(cntr.alloc.bitsets))
    {
      SpanPush(i, times, old(cntr.Contents));
      cntr.PushFront(i);
      i := i - 1;
    }
    assert Span(i + 1, times) == Span(0, times);
  }

  /** The mutable lambda `make_factorial` with its captured counter `i`:
      each call yields (i, i!) and then advances i. */
  class FactorialCounter {
    var i: nat

    constructor ()
      ensures i == 0
    {
      i := 0;
    }

    method Next() returns (key: int, value: int)
      modifies this
      ensures key == old(i) && value == Factorial(old(i)) && i == old(i) + 1
    {
      var f := Factorial(i);
      key, value := i, f;
      i := i + 1;
    }
  }

  /** `std::map::insert` through an insert iterator: adds k ↦ v only when
      k is absent; an existing entry is kept as it is. */
  function InsertNew(m: map<int, int>, k: int, v: int): (r: map<int, int>)
    ensures r.Keys == m.Keys + {k}
    ensures r[k] == if k in m then m[k] else v
    ensures forall j :: j in m ==> r[j] == m[j]
  {
    if k in m then m else m[k := v]
  }

  /** The set 0..n-1 has n elements. */
  lemma {:induction false} CountRange(keys: set<int>, n: nat)
    requires forall k :: k in keys <==> 0 <= k < n
    ensures |keys| == n
  {
    if n > 0 {
      var rest := keys - {n - 1};
      CountRange(rest, n - 1);
      assert keys == rest + {n - 1};
    } else {
      assert forall k :: k !in keys;
      assert keys == {};
    }
  }

  /** `fill_cntr` on a map: `generate_n` calls make_factorial times times
      and inserts each (i, i!); keys already present keep their values.
      Started from an empty map, the result has exactly times entries. */
  method FillMap(cntr: map<int, int>, times: int) returns (r: map<int, int>)
    ensures forall k :: k in r <==> k in cntr || 0 <= k < times
    ensures forall k :: k in cntr ==> r[k] == cntr[k]
    ensures forall k :: k in r && k !in cntr ==> r[k] == Factorial(k)
    ensures cntr == map[] ==> |r| == if times < 0 then 0 else times
  {
    var make := new FactorialCounter();
    r := cntr;
    var n := 0;
    while n < times
      invariant n == make.i && (n <= times || n == 0)
      invariant forall k :: k in r <==> k in cntr || 0 <= k < n
      invariant forall k :: k in cntr ==> r[k] == cntr[k]
      invariant forall k :: k in r && k !in cntr ==> 0 <= k && r[k] == Factorial(k)
    {
      var key, value := make.Next();
      r := InsertNew(r, key, value);
      n := n + 1;
    }
    if cntr == map[] {
      CountRange(r.Keys, n);
    }
  }
}
