/** The browser's Map and Set: keyed by frame number, iterated in order of first insertion. */
module InsertionOrder {
  import opened Bytes

  predicate Distinct(s: seq<u32>) {
    forall i, j | 0 <= i < j < |s| :: s[i] != s[j]
  }

  function Without(s: seq<u32>, k: u32): (r: seq<u32>)
    ensures |r| <= |s|
    ensures k !in s ==> r == s
    ensures forall x | x in r :: x in s
  {
    if |s| == 0 then [] else if s[0] == k then s[1..] else [s[0]] + Without(s[1..], k)
  }

  lemma {:induction false} WithoutDistinct(s: seq<u32>, k: u32)
    requires Distinct(s)
    ensures Distinct(Without(s, k))
    ensures forall x :: x in Without(s, k) <==> x in s && x != k
    ensures k in s ==> |Without(s, k)| == |s| - 1
  {
    if |s| > 0 {
      WithoutDistinct(s[1..], k);
      assert s == [s[0]] + s[1..];
      assert s[0] !in s[1..];
    }
  }

  datatype Table<V> = Table(order: seq<u32>, at: map<u32, V>) {

    ghost predicate Valid() {
      Distinct(order) && forall k :: k in order <==> k in at
    }

    function Size(): nat { |order| }

    function Has(k: u32): bool { k in at }

    /** Overwriting keeps the key's place; a new key goes last. */
    function Set(k: u32, v: V): (r: Table<V>)
      ensures r.at == at[k := v]
      ensures Valid() ==> r.Valid() && r.Size() == if k in at then Size() else Size() + 1
    {
      Table(if k in at then order else order + [k], at[k := v])
    }

    function Delete(k: u32): (r: Table<V>)
      ensures r.at == at - {k}
      ensures Valid() ==> r.Valid() && r.Size() == if k in at then Size() - 1 else Size()
    {
      assert Valid() ==> RemovesOnly(Without(order, k), k) by {
        if Valid() { WithoutDistinct(order, k); }
      }
      Table(Without(order, k), at - {k})
    }

    ghost predicate RemovesOnly(rest: seq<u32>, k: u32) {
      && Distinct(rest)
      && (forall x :: x in rest <==> x in order && x != k)
      && |rest| == if k in order then |order| - 1 else |order|
    }

    /** Drops the oldest key. */
    function DropFirst(): Table<V>
      requires |order| > 0
    {
      Delete(order[0])
    }
  }

  lemma SetThenDelete<V>(t: Table<V>, k: u32, v: V)
    requires k in t.at
    ensures t.Set(k, v).Delete(k) == t.Delete(k)
  {
    assert t.at[k := v] - {k} == t.at - {k};
  }

  lemma {:induction false} SmallerSet<T>(a: set<T>, b: set<T>)
    requires a <= b
    ensures |a| <= |b|
  {
    if a != {} {
      var x :| x in a;
      SmallerSet(a - {x}, b - {x});
    }
  }

  function Elements(s: seq<u32>): set<u32> {
    set x | x in s
  }

  lemma {:induction false} DistinctSize(s: seq<u32>)
    requires Distinct(s)
    ensures |Elements(s)| == |s|
  {
    if |s| > 0 {
      var front, last := s[..|s| - 1], s[|s| - 1];
      DistinctSize(front);
      assert s == front + [last];
      assert Elements(s) == Elements(front) + {last};
    }
  }

  function Empty<V>(): Table<V> { Table([], map[]) }
}
