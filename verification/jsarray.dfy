/** The pieces of JavaScript's Array and String behaviour that the bookstore
    views rely on: `Array.prototype.slice` with its index clamping,
    `Array.prototype.filter`, and the ASCII part of `toLowerCase` and
    `String.prototype.includes`. */
module JsArray {

  datatype Option<+T> = None | Some(value: T)

  /** Resolves a slice bound the way `Array.prototype.slice` does: a negative
      bound counts back from the end, and the result is clamped to [0, len]. */
  function ClampIndex(i: int, len: nat): (r: nat)
    ensures r <= len
    ensures 0 <= i ==> r == if i <= len then i else len
  {
    if i < 0 then (if len + i < 0 then 0 else len + i)
    else if i <= len then i
    else len
  }

  /** `xs.slice(start, end)`. */
  function Slice<T>(xs: seq<T>, start: int, end: int): (r: seq<T>)
    ensures ClampIndex(start, |xs|) + |r| <= |xs|
    ensures |r| == if ClampIndex(start, |xs|) < ClampIndex(end, |xs|)
                   then ClampIndex(end, |xs|) - ClampIndex(start, |xs|) else 0
    ensures forall i :: 0 <= i < |r| ==> r[i] == xs[ClampIndex(start, |xs|) + i]
  {
    var s := ClampIndex(start, |xs|);
    var e := ClampIndex(end, |xs|);
    if s < e then xs[s..e] else []
  }

  /** Two adjacent slices join into the slice that spans both. */
  lemma SliceJoin<T>(xs: seq<T>, a: int, b: int, c: int)
    requires 0 <= a <= b <= c
    ensures Slice(xs, a, b) + Slice(xs, b, c) == Slice(xs, a, c)
  {
    var n := |xs|;
    var a', b', c' := ClampIndex(a, n), ClampIndex(b, n), ClampIndex(c, n);
    assert a' <= b' <= c';
    if a' < b' && b' < c' {
      assert xs[a'..b'] + xs[b'..c'] == xs[a'..c'];
    }
  }

  /** `a` is obtained from `b` by deleting elements, keeping the order of the
      rest. */
  predicate IsSubsequence<T(==)>(a: seq<T>, b: seq<T>)
  {
    if |a| == 0 then true
    else if |b| == 0 then false
    else if a[0] == b[0] then IsSubsequence(a[1..], b[1..])
    else IsSubsequence(a, b[1..])
  }

  /** `xs.filter(keep)`: exactly the elements satisfying `keep`. That each
      keeps its multiplicity and its order is `FilterCounts`. */
  function Filter<T(==)>(xs: seq<T>, keep: T -> bool): (r: seq<T>)
    ensures |r| <= |xs|
    ensures forall x :: x in r ==> x in xs && keep(x)
    ensures forall x :: x in xs && keep(x) ==> x in r
  {
    if |xs| == 0 then []
    else
      var rest := Filter(xs[1..], keep);
      assert forall x :: x in xs ==> x == xs[0] || x in xs[1..];
      if keep(xs[0]) then [xs[0]] + rest else rest
  }

  /** The filtered list is a sub-sequence of the input, and every element it
      keeps occurs in it exactly as often as in the input. */
  lemma FilterCounts<T>(xs: seq<T>, keep: T -> bool)
    ensures multiset(Filter(xs, keep)) <= multiset(xs)
    ensures forall x :: x in xs && keep(x) ==> multiset(Filter(xs, keep))[x] == multiset(xs)[x]
    ensures IsSubsequence(Filter(xs, keep), xs)
  {
    FilterMultiset(xs, keep);
    FilterSubsequence(xs, keep);
  }

  /** Filtering keeps input order. */
  lemma {:induction false} FilterSubsequence<T>(xs: seq<T>, keep: T -> bool)
    ensures IsSubsequence(Filter(xs, keep), xs)
  {
    if |xs| > 0 {
      var rest := Filter(xs[1..], keep);
      FilterSubsequence(xs[1..], keep);
      FilterCons(xs, keep);
      if keep(xs[0]) {
        assert ([xs[0]] + rest)[1..] == rest;
      } else if rest != [] {
        assert rest[0] in rest;
      }
    }
  }

  /** Filtering adds no copy and drops no copy of a kept element. */
  lemma {:induction false} FilterMultiset<T>(xs: seq<T>, keep: T -> bool)
    ensures multiset(Filter(xs, keep)) <= multiset(xs)
    ensures forall x :: x in xs && keep(x) ==> multiset(Filter(xs, keep))[x] == multiset(xs)[x]
  {
    if |xs| > 0 {
      var rest := Filter(xs[1..], keep);
      FilterMultiset(xs[1..], keep);
      FilterCons(xs, keep);
      assert xs == [xs[0]] + xs[1..];
      assert multiset(xs) == multiset{xs[0]} + multiset(xs[1..]);
      if keep(xs[0]) {
        assert multiset(Filter(xs, keep)) == multiset{xs[0]} + multiset(rest);
      }
    }
  }

  lemma {:induction false} FilterAllKept<T>(xs: seq<T>, keep: T -> bool)
    requires forall x :: x in xs ==> keep(x)
    ensures Filter(xs, keep) == xs
  {
    if |xs| > 0 {
      FilterAllKept(xs[1..], keep);
      assert xs == [xs[0]] + xs[1..];
    }
  }

  /** Filtering twice by the same predicate is filtering once. */
  lemma FilterIdempotent<T>(xs: seq<T>, keep: T -> bool)
    ensures Filter(Filter(xs, keep), keep) == Filter(xs, keep)
  {
    FilterAllKept(Filter(xs, keep), keep);
  }

  /** `xs.filter(x => key(x) !== k)`: the list after the server acknowledged
      deleting the record with key `k`. */
  function Without<T(==), K(==)>(xs: seq<T>, key: T -> K, k: K): (r: seq<T>)
    ensures forall x :: x in r ==> x in xs && key(x) != k
    ensures forall x :: x in xs && key(x) != k ==> x in r
    ensures forall i :: 0 <= i < |r| ==> key(r[i]) != k
    ensures IsSubsequence(r, xs)
    ensures forall x :: x in xs && key(x) != k ==> multiset(r)[x] == multiset(xs)[x]
    ensures |r| <= |xs|
  {
    var keep := x => key(x) != k;
    FilterCounts(xs, keep);
    var r := Filter(xs, keep);
    assert forall x | x in xs :: keep(x) == (key(x) != k);
    r
  }

  /** `Filter` one element at a time, for proofs by induction. */
  lemma FilterCons<T>(xs: seq<T>, keep: T -> bool)
    requires |xs| > 0
    ensures Filter(xs, keep) == (if keep(xs[0]) then [xs[0]] else []) + Filter(xs[1..], keep)
  {
    if !keep(xs[0]) {
      assert [] + Filter(xs[1..], keep) == Filter(xs[1..], keep);
    }
  }

  /** Filtering two joined lists is joining their filtered lists. */
  lemma {:induction false} FilterAppend<T>(a: seq<T>, b: seq<T>, keep: T -> bool)
    ensures Filter(a + b, keep) == Filter(a, keep) + Filter(b, keep)
  {
    if |a| > 0 {
      var ab := a + b;
      var head := if keep(a[0]) then [a[0]] else [];
      assert ab[0] == a[0] && ab[1..] == a[1..] + b;
      FilterCons(ab, keep);
      FilterCons(a, keep);
      FilterAppend(a[1..], b, keep);
      assert Filter(ab, keep) == head + (Filter(a[1..], keep) + Filter(b, keep));
      assert head + (Filter(a[1..], keep) + Filter(b, keep))
          == (head + Filter(a[1..], keep)) + Filter(b, keep);
    } else {
      assert a + b == b;
      assert Filter(a, keep) == [];
    }
  }

  /** `Without` one element at a time, for proofs by induction. */
  lemma WithoutUnfold<T, K>(xs: seq<T>, key: T -> K, k: K)
    requires |xs| > 0
    ensures Without(xs, key, k)
         == (if key(xs[0]) != k then [xs[0]] else []) + Without(xs[1..], key, k)
  {
  }

  /** A non-empty sequence is its prefix followed by its last element. */
  lemma SplitLast<T>(xs: seq<T>)
    requires |xs| > 0
    ensures xs[..|xs| - 1] + [xs[|xs| - 1]] == xs
  {
  }

  /** Filtering a list extended at the end. */
  lemma FilterSnoc<T>(xs: seq<T>, x: T, keep: T -> bool)
    ensures Filter(xs + [x], keep) == Filter(xs, keep) + (if keep(x) then [x] else [])
  {
    FilterAppend(xs, [x], keep);
    assert [x][1..] == [];
  }

  /** Appending a record with a fresh key and then removing that key gives
      back the original list. */
  lemma WithoutAppended<T, K>(xs: seq<T>, key: T -> K, x: T)
    requires forall y :: y in xs ==> key(y) != key(x)
    ensures Without(xs + [x], key, key(x)) == xs
  {
    var keep := y => key(y) != key(x);
    FilterAppend(xs, [x], keep);
    FilterAllKept(xs, keep);
    assert Filter([x], keep) == [] by {
      assert [x][1..] == [];
    }
  }

  /** Removing a key no record has changes nothing. */
  lemma WithoutAbsent<T, K>(xs: seq<T>, key: T -> K, k: K)
    requires forall y :: y in xs ==> key(y) != k
    ensures Without(xs, key, k) == xs
  {
    FilterAllKept(xs, y => key(y) != k);
  }
}

module JsString {

  /** One character of `toLowerCase`, restricted to ASCII letters. */
  function LowerChar(c: char): char
  {
    if 'A' <= c <= 'Z' then (c as int - 'A' as int + 'a' as int) as char else c
  }

  predicate IsUpper(c: char)
  {
    'A' <= c <= 'Z'
  }

  /** `s.toLowerCase()` on ASCII text. */
  function Lower(s: string): (r: string)
    ensures |r| == |s|
    ensures forall i :: 0 <= i < |r| ==> !IsUpper(r[i])
    ensures forall i :: 0 <= i < |r| && !IsUpper(s[i]) ==> r[i] == s[i]
    ensures forall i :: 0 <= i < |r| && IsUpper(s[i]) ==>
      r[i] == (s[i] as int - 'A' as int + 'a' as int) as char
  {
    seq(|s|, i requires 0 <= i < |s| => LowerChar(s[i]))
  }

  /** Lower-casing text that is already lower case changes nothing. */
  lemma LowerIdempotent(s: string)
    ensures Lower(Lower(s)) == Lower(s)
  {
  }

  /** `sub` occurs in `s` starting at index `i`. */
  predicate OccursAt(s: string, sub: string, i: int)
  {
    0 <= i && i + |sub| <= |s| && s[i..i + |sub|] == sub
  }

  /** `s.includes(sub)`, computed by trying each start position in turn. */
  function Includes(s: string, sub: string): (r: bool)
    ensures r <==> exists i :: OccursAt(s, sub, i)
    decreases |s|
  {
    if |sub| <= |s| && s[..|sub|] == sub then
      assert OccursAt(s, sub, 0);
      true
    else if |s| == 0 then
      assert forall i :: !OccursAt(s, sub, i);
      false
    else
      var r := Includes(s[1..], sub);
      assert forall i :: OccursAt(s[1..], sub, i) ==> OccursAt(s, sub, i + 1) by {
        forall i | OccursAt(s[1..], sub, i) ensures OccursAt(s, sub, i + 1) {
          assert s[i + 1..i + 1 + |sub|] == s[1..][i..i + |sub|];
        }
      }
      assert forall i :: OccursAt(s, sub, i) ==> OccursAt(s[1..], sub, i - 1) by {
        forall i | OccursAt(s, sub, i) ensures OccursAt(s[1..], sub, i - 1) {
          assert i != 0;
          assert s[i..i + |sub|] == s[1..][i - 1..i - 1 + |sub|];
        }
      }
      r
  }

  /** Every string includes the empty string. */
  lemma IncludesEmpty(s: string)
    ensures Includes(s, "")
  {
    assert OccursAt(s, "", 0);
  }
}
