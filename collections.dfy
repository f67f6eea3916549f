/**
 * Generic sequence helpers: the parts of JavaScript's Array API that the
 * notice board relies on (filter, slice, map, findIndex, find, some), each
 * stated by what it returns rather than by how it walks the array.
 */
module Collections {

  datatype Option<+T> = None | Some(value: T)

  function Min(a: int, b: int): int { if a <= b then a else b }

  /** Array.prototype.filter: the elements satisfying p, in their original order. */
  function Filter<T(!new)>(s: seq<T>, p: T -> bool): (r: seq<T>)
    ensures |r| <= |s|
    ensures forall x :: x in r ==> x in s && p(x)
  {
    if s == [] then []
    else
      assert s == [s[0]] + s[1..];
      (if p(s[0]) then [s[0]] else []) + Filter(s[1..], p)
  }

  /** Each element passing p occurs in the filter as often as in the input, and no other element occurs. */
  lemma {:induction false} FilterMultiset<T(!new)>(s: seq<T>, p: T -> bool)
    ensures forall x :: multiset(Filter(s, p))[x] == if p(x) then multiset(s)[x] else 0
  {
    if s != [] {
      FilterMultiset(s[1..], p);
      assert s == [s[0]] + s[1..];
    }
  }

  /** Filtering distributes over concatenation: the relative order of kept elements is the input order. */
  lemma {:induction false} FilterConcat<T(!new)>(a: seq<T>, b: seq<T>, p: T -> bool)
    ensures Filter(a + b, p) == Filter(a, p) + Filter(b, p)
  {
    if a == [] {
      assert a + b == b;
    } else {
      assert (a + b)[1..] == a[1..] + b;
      FilterConcat(a[1..], b, p);
    }
  }

  /** Filtering twice by the same predicate is filtering once. */
  lemma {:induction false} FilterIdempotent<T(!new)>(s: seq<T>, p: T -> bool)
    ensures Filter(Filter(s, p), p) == Filter(s, p)
  {
    if s != [] {
      var rest := Filter(s[1..], p);
      FilterIdempotent(s[1..], p);
      if p(s[0]) {
        var f := [s[0]] + rest;
        assert Filter(s, p) == f;
        assert f[0] == s[0] && f[1..] == rest;
        assert Filter(f, p) == [s[0]] + Filter(rest, p);
      } else {
        assert Filter(s, p) == rest;
      }
    }
  }

  /** A filter that every element passes keeps the sequence as it is. */
  lemma {:induction false} FilterKeepsAll<T(!new)>(s: seq<T>, p: T -> bool)
    requires forall i :: 0 <= i < |s| ==> p(s[i])
    ensures Filter(s, p) == s
  {
    if s != [] {
      FilterKeepsAll(s[1..], p);
    }
  }

  /** A filter that no element passes yields the empty sequence. */
  lemma {:induction false} FilterDropsAll<T(!new)>(s: seq<T>, p: T -> bool)
    requires forall i :: 0 <= i < |s| ==> !p(s[i])
    ensures Filter(s, p) == []
  {
    if s != [] {
      FilterDropsAll(s[1..], p);
    }
  }

  /** Array.prototype.slice(0, n). */
  function Take<T>(s: seq<T>, n: nat): (r: seq<T>)
    ensures |r| == Min(n, |s|)
    ensures forall i :: 0 <= i < |r| ==> r[i] == s[i]
  {
    if |s| <= n then s else s[..n]
  }

  /** Array.prototype.map. */
  function Map<T, U>(s: seq<T>, f: T -> U): (r: seq<U>)
    ensures |r| == |s|
    ensures forall i :: 0 <= i < |s| ==> r[i] == f(s[i])
  {
    if s == [] then [] else [f(s[0])] + Map(s[1..], f)
  }

  /** Every element of a filter passes the predicate and comes from the input. */
  lemma FilterElements<T(!new)>(s: seq<T>, p: T -> bool)
    ensures forall i :: 0 <= i < |Filter(s, p)| ==> p(Filter(s, p)[i]) && Filter(s, p)[i] in s
  {
    var r := Filter(s, p);
    forall i | 0 <= i < |r| ensures p(r[i]) && r[i] in s {
      assert r[i] in r;
    }
  }

  /** The mapped front of a concatenation. */
  lemma MapFront<T, U>(a: seq<T>, f: T -> U, rest: seq<U>)
    ensures forall i :: 0 <= i < |a| ==> (Map(a, f) + rest)[i] == f(a[i])
  {
  }

  /** The mapped back of a concatenation. */
  lemma MapBack<T, U>(front: seq<U>, a: seq<T>, f: T -> U)
    ensures forall i :: 0 <= i < |a| ==> (front + Map(a, f))[|front| + i] == f(a[i])
  {
  }

  /** Where the elements of three joined sequences sit. */
  lemma ThreeParts<T>(a: seq<T>, b: seq<T>, c: seq<T>)
    ensures forall i :: 0 <= i < |a| ==> (a + b + c)[i] == a[i]
    ensures forall i :: 0 <= i < |b| ==> (a + b + c)[|a| + i] == b[i]
    ensures forall i :: |a| + |b| <= i < |a| + |b| + |c| ==> (a + b + c)[i] == c[i - |a| - |b|]
  {
  }

  /** k copies of x. */
  function Repeat<T>(x: T, k: nat): (r: seq<T>)
    ensures |r| == k && forall i :: 0 <= i < k ==> r[i] == x
  {
    seq(k, _ => x)
  }

  /**
   * A calendar layout: a header row, `gap` copies of a filler, then the day
   * entries; each index reads from the part it falls in.
   */
  function Layout<T>(header: seq<T>, filler: T, gap: nat, days: seq<T>): (r: seq<T>)
    ensures |r| == |header| + gap + |days|
    ensures forall i :: 0 <= i < |header| ==> r[i] == header[i]
    ensures forall i :: |header| <= i < |header| + gap ==> r[i] == filler
    ensures forall i :: |header| + gap <= i < |r| ==> r[i] == days[i - |header| - gap]
  {
    header + Repeat(filler, gap) + days
  }

  /** Mapping one more element of a prefix appends its image: what a `forEach` that pushes builds. */
  lemma MapSnoc<T, U>(s: seq<T>, i: nat, f: T -> U)
    requires i < |s|
    ensures Map(s[..i + 1], f) == Map(s[..i], f) + [f(s[i])]
  {
    var a, b := Map(s[..i + 1], f), Map(s[..i], f) + [f(s[i])];
    assert |a| == |b|;
    forall k | 0 <= k < |a| ensures a[k] == b[k] {
      if k < i {
        assert s[..i + 1][k] == s[..i][k];
      }
    }
  }

  /** `items.forEach(x => out.push(f(x)))`: the images of the items, in order, after what was there. */
  method PushAll<T, U>(front: seq<U>, items: seq<T>, f: T -> U) returns (r: seq<U>)
    ensures r == front + Map(items, f)
  {
    r := front;
    var i := 0;
    while i < |items|
      invariant 0 <= i <= |items|
      invariant r == front + Map(items[..i], f)
    {
      MapSnoc(items, i, f);
      r := r + [f(items[i])];
      i := i + 1;
    }
    assert items[..i] == items;
  }

  /** `for (i = 0; i < k; i++) out.push(filler)`: k copies of filler after what was there. */
  method PushCopies<T>(front: seq<T>, filler: T, k: nat) returns (r: seq<T>)
    ensures r == front + Repeat(filler, k)
  {
    r := front;
    var i := 0;
    while i < k
      invariant 0 <= i <= k && r == front + Repeat(filler, i)
    {
      r := r + [filler];
      i := i + 1;
    }
  }

  /** Array.prototype.findIndex: the first index whose element satisfies p, or -1. */
  function FindIndex<T>(s: seq<T>, p: T -> bool): (i: int)
    ensures -1 <= i < |s|
    ensures i == -1 <==> forall j :: 0 <= j < |s| ==> !p(s[j])
    ensures 0 <= i ==> p(s[i]) && forall j :: 0 <= j < i ==> !p(s[j])
  {
    if s == [] then -1
    else if p(s[0]) then 0
    else
      var k := FindIndex(s[1..], p);
      if k == -1 then -1 else k + 1
  }

  /**
   * `findIndex` followed by `s[index] = f(s[index])` when an element was
   * found: the first element satisfying p is replaced by its image under f,
   * and None says that no element satisfies p.
   */
  function ReplaceFirst<T>(s: seq<T>, p: T -> bool, f: T -> T): (r: Option<seq<T>>)
    ensures r.None? <==> forall j :: 0 <= j < |s| ==> !p(s[j])
    ensures r.Some? ==> |r.value| == |s|
    ensures r.Some? ==>
              exists i :: && 0 <= i < |s| && p(s[i]) && (forall j :: 0 <= j < i ==> !p(s[j]))
                          && r.value[i] == f(s[i]) && (forall j :: 0 <= j < |s| && j != i ==> r.value[j] == s[j])
  {
    var i := FindIndex(s, p);
    if i == -1 then None else Some(s[i := f(s[i])])
  }

  /**
   * When f keeps p and applying f twice is applying it once, replacing again
   * in the result changes nothing: the same element is found and replaced by itself.
   */
  lemma ReplaceFirstIdempotent<T>(s: seq<T>, p: T -> bool, f: T -> T)
    requires forall x :: p(x) ==> p(f(x)) && f(f(x)) == f(x)
    ensures var r := ReplaceFirst(s, p, f);
            r.Some? ==> ReplaceFirst(r.value, p, f) == r
  {
    var i := FindIndex(s, p);
    if i != -1 {
      var t := s[i := f(s[i])];
      assert p(t[i]);
      assert forall j :: 0 <= j < i ==> t[j] == s[j];
      var k := FindIndex(t, p);
      assert k == i;
      assert t[i := f(t[i])] == t;
    }
  }

  /** Array.prototype.find: the first element satisfying p, if any. */
  function Find<T>(s: seq<T>, p: T -> bool): (r: Option<T>)
    ensures r.None? <==> forall j :: 0 <= j < |s| ==> !p(s[j])
    ensures r.Some? ==> exists i :: 0 <= i < |s| && s[i] == r.value && p(s[i]) && forall j :: 0 <= j < i ==> !p(s[j])
  {
    var i := FindIndex(s, p);
    if i == -1 then None else Some(s[i])
  }

  /** Array.prototype.some. */
  function Any<T>(s: seq<T>, p: T -> bool): (b: bool)
    ensures b <==> exists i :: 0 <= i < |s| && p(s[i])
  {
    FindIndex(s, p) != -1
  }

  /** Number of elements satisfying p (the length of a filter). */
  function Count<T(!new)>(s: seq<T>, p: T -> bool): (n: nat)
    ensures n <= |s|
  {
    |Filter(s, p)|
  }

  /** Counting over a concatenation adds the counts. */
  lemma CountConcat<T(!new)>(a: seq<T>, b: seq<T>, p: T -> bool)
    ensures Count(a + b, p) == Count(a, p) + Count(b, p)
  {
    FilterConcat(a, b, p);
  }
}
