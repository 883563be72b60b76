/** Order-preserving sequence combinators, each defined by recursion on the last element so that
    appending one more input element appends at most one output element. */
module Seqs {

  /** Keeps the elements that satisfy `p`, in their original order. */
  function Filter<T>(p: T -> bool, s: seq<T>): (r: seq<T>)
    ensures |r| <= |s|
    decreases |s|
  {
    if s == [] then []
    else
      var init := Filter(p, s[..|s| - 1]);
      if p(s[|s| - 1]) then init + [s[|s| - 1]] else init
  }

  /** Applies `f` to every element. */
  function Map<T, U>(f: T -> U, s: seq<T>): (r: seq<U>)
    ensures |r| == |s|
    ensures forall i :: 0 <= i < |s| ==> r[i] == f(s[i])
    decreases |s|
  {
    if s == [] then [] else Map(f, s[..|s| - 1]) + [f(s[|s| - 1])]
  }

  /** Some element of `s` has key `k`. */
  predicate HasKey<T, K(==)>(key: T -> K, s: seq<T>, k: K)
  {
    exists i :: 0 <= i < |s| && key(s[i]) == k
  }

  /** Drops every element whose key already occurred earlier: the first occurrence of each key survives. */
  function DropDuplicates<T, K(==)>(key: T -> K, s: seq<T>): (r: seq<T>)
    ensures |r| <= |s|
    decreases |s|
  {
    if s == [] then []
    else
      var init := DropDuplicates(key, s[..|s| - 1]);
      var x := s[|s| - 1];
      if HasKey(key, s[..|s| - 1], key(x)) then init else init + [x]
  }

  lemma FilterSnoc<T>(p: T -> bool, s: seq<T>, x: T)
    ensures Filter(p, s + [x]) == Filter(p, s) + (if p(x) then [x] else [])
  {
    assert (s + [x])[..|s|] == s;
  }

  lemma MapSnoc<T, U>(f: T -> U, s: seq<T>, x: T)
    ensures Map(f, s + [x]) == Map(f, s) + [f(x)]
  {
    assert (s + [x])[..|s|] == s;
  }

  lemma DropDuplicatesSnoc<T, K>(key: T -> K, s: seq<T>, x: T)
    ensures DropDuplicates(key, s + [x]) == DropDuplicates(key, s) + (if HasKey(key, s, key(x)) then [] else [x])
  {
    assert (s + [x])[..|s|] == s;
  }

  lemma HasKeySnoc<T, K>(key: T -> K, s: seq<T>, x: T, k: K)
    ensures HasKey(key, s + [x], k) <==> HasKey(key, s, k) || key(x) == k
  {
    var t := s + [x];
    if HasKey(key, t, k) && key(x) != k {
      var i :| 0 <= i < |t| && key(t[i]) == k;
      assert i < |s| && s[i] == t[i];
    }
    if HasKey(key, s, k) {
      var i :| 0 <= i < |s| && key(s[i]) == k;
      assert t[i] == s[i];
    }
    assert t[|s|] == x;
  }

  /** Filtering keeps exactly the elements that satisfy `p`. */
  lemma {:induction false} FilterMembers<T>(p: T -> bool, s: seq<T>, x: T)
    ensures x in Filter(p, s) <==> x in s && p(x)
    decreases |s|
  {
    if s != [] {
      var init, y := s[..|s| - 1], s[|s| - 1];
      assert s == init + [y];
      FilterMembers(p, init, x);
      FilterSnoc(p, init, y);
    }
  }

  /** De-duplication keeps only elements of its input, with pairwise distinct keys, and loses no key. */
  lemma {:induction false} DropDuplicatesDistinct<T, K>(key: T -> K, s: seq<T>)
    ensures forall x :: x in DropDuplicates(key, s) ==> x in s
    ensures forall k :: HasKey(key, DropDuplicates(key, s), k) <==> HasKey(key, s, k)
    ensures forall i, j :: 0 <= i < j < |DropDuplicates(key, s)| ==>
      key(DropDuplicates(key, s)[i]) != key(DropDuplicates(key, s)[j])
    decreases |s|
  {
    if s != [] {
      var init, x := s[..|s| - 1], s[|s| - 1];
      assert s == init + [x];
      DropDuplicatesDistinct(key, init);
      DropDuplicatesSnoc(key, init, x);
      var before := DropDuplicates(key, init);
      var r := DropDuplicates(key, s);
      forall k ensures HasKey(key, r, k) <==> HasKey(key, s, k) {
        HasKeySnoc(key, init, x, k);
        if !HasKey(key, init, key(x)) { HasKeySnoc(key, before, x, k); }
      }
      if !HasKey(key, init, key(x)) {
        forall i, j | 0 <= i < j < |r| ensures key(r[i]) != key(r[j]) {
          if j == |before| {
            assert r[i] == before[i];
            assert HasKey(key, before, key(r[i]));
          } else {
            assert r[i] == before[i] && r[j] == before[j];
          }
        }
      }
    }
  }

  /** `idx` lists strictly increasing positions of a sequence of length `n`. */
  ghost predicate IsSelection(idx: seq<nat>, n: nat)
  {
    && (forall i :: 0 <= i < |idx| ==> idx[i] < n)
    && (forall i, j :: 0 <= i < j < |idx| ==> idx[i] < idx[j])
  }

  /** Extending a selection of positions below `n` by `n` itself, or not. */
  lemma SelectsSnoc(prev: seq<nat>, n: nat, take: bool, idx: seq<nat>)
    requires IsSelection(prev, n)
    requires idx == if take then prev + [n] else prev
    ensures IsSelection(idx, n + 1)
    ensures forall i :: 0 <= i < |prev| ==> idx[i] == prev[i]
    ensures take ==> |idx| == |prev| + 1 && idx[|prev|] == n
    ensures forall j :: 0 <= j < n ==> (j in idx <==> j in prev)
    ensures n in idx <==> take
  {
    assert n !in prev;
  }

  /** The first elements of `out` are those of `before`. */
  lemma PrefixOf<T>(out: seq<T>, before: seq<T>, extra: seq<T>)
    requires out == before + extra
    ensures forall i :: 0 <= i < |before| ==> out[i] == before[i]
    ensures |extra| == 1 ==> out[|before|] == extra[0]
  {
  }

  /** Filtering keeps exactly the positions whose element satisfies `p`, in order. */
  lemma {:induction false} FilterSelects<T>(p: T -> bool, s: seq<T>) returns (idx: seq<nat>)
    ensures IsSelection(idx, |s|) && |idx| == |Filter(p, s)|
    ensures forall i :: 0 <= i < |idx| ==> Filter(p, s)[i] == s[idx[i]]
    ensures forall j :: 0 <= j < |s| ==> (j in idx <==> p(s[j]))
    decreases |s|
  {
    if s == [] {
      idx := [];
    } else {
      var n := |s| - 1;
      var init, x := s[..n], s[n];
      assert s == init + [x];
      var prev := FilterSelects(p, init);
      FilterSnoc(p, init, x);
      if p(x) { idx := prev + [n]; } else { idx := prev; }
      SelectsSnoc(prev, n, p(x), idx);
      PrefixOf(Filter(p, s), Filter(p, init), if p(x) then [x] else []);
      forall j | 0 <= j < n ensures j in idx <==> p(s[j]) {
        assert s[j] == init[j];
      }
    }
  }

  // ---------------------------------------------------------------- filter, map, filter, de-duplicate

  /** Keeps the elements satisfying `p`, transforms them with `f`, and keeps the results satisfying `q`. */
  function Kept<T, U>(p: T -> bool, f: T -> U, q: U -> bool, s: seq<T>): seq<U>
  {
    Filter(q, Map(f, Filter(p, s)))
  }

  /** `Kept`, then only the first element of each `key`, each finally transformed by `g`. */
  function KeptUnique<T, U, K(==), V>(p: T -> bool, f: T -> U, q: U -> bool, key: U -> K, g: U -> V, s: seq<T>): seq<V>
  {
    Map(g, DropDuplicates(key, Kept(p, f, q, s)))
  }

  /** Position `i` passes both filters. */
  ghost predicate Passes<T, U>(p: T -> bool, f: T -> U, q: U -> bool, s: seq<T>, i: int)
  {
    0 <= i < |s| && p(s[i]) && q(f(s[i]))
  }

  /** Position `j` passes both filters and no earlier position that passes them has its key. */
  ghost predicate FirstKept<T, U, K>(p: T -> bool, f: T -> U, q: U -> bool, key: U -> K, s: seq<T>, j: int)
  {
    && Passes(p, f, q, s, j)
    && forall i :: 0 <= i < j && Passes(p, f, q, s, i) ==> key(f(s[i])) != key(f(s[j]))
  }

  lemma KeptSnoc<T, U>(p: T -> bool, f: T -> U, q: U -> bool, s: seq<T>, x: T)
    ensures Kept(p, f, q, s + [x]) == Kept(p, f, q, s) + (if p(x) && q(f(x)) then [f(x)] else [])
  {
    FilterSnoc(p, s, x);
    if p(x) {
      MapSnoc(f, Filter(p, s), x);
      FilterSnoc(q, Map(f, Filter(p, s)), f(x));
    }
  }

  /** A key reaches the de-duplication exactly when some position passing both filters has it. */
  lemma {:induction false} KeptKey<T, U, K>(p: T -> bool, f: T -> U, q: U -> bool, key: U -> K, s: seq<T>, k: K)
    ensures HasKey(key, Kept(p, f, q, s), k) <==> exists i :: Passes(p, f, q, s, i) && key(f(s[i])) == k
    decreases |s|
  {
    if s != [] {
      var init, x := s[..|s| - 1], s[|s| - 1];
      assert s == init + [x];
      KeptKey(p, f, q, key, init, k);
      KeptSnoc(p, f, q, init, x);
      if p(x) && q(f(x)) { HasKeySnoc(key, Kept(p, f, q, init), f(x), k); }
      if exists i :: Passes(p, f, q, s, i) && key(f(s[i])) == k {
        var i :| Passes(p, f, q, s, i) && key(f(s[i])) == k;
        if i < |init| { assert init[i] == s[i] && Passes(p, f, q, init, i); }
      }
      if exists i :: Passes(p, f, q, init, i) && key(f(init[i])) == k {
        var i :| Passes(p, f, q, init, i) && key(f(init[i])) == k;
        assert s[i] == init[i] && Passes(p, f, q, s, i);
      }
    }
  }

  /** The last position is the first of its key exactly when no earlier passing position has it. */
  lemma FirstKeptLast<T, U, K>(p: T -> bool, f: T -> U, q: U -> bool, key: U -> K, s: seq<T>, x: T)
    requires p(x) && q(f(x))
    ensures FirstKept(p, f, q, key, s + [x], |s|) <==> !HasKey(key, Kept(p, f, q, s), key(f(x)))
  {
    var t := s + [x];
    KeptKey(p, f, q, key, s, key(f(x)));
    forall i | 0 <= i < |s| ensures Passes(p, f, q, t, i) <==> Passes(p, f, q, s, i) {
      assert t[i] == s[i];
    }
    assert t[|s|] == x;
  }

  lemma KeptUniqueSnoc<T, U, K, V>(p: T -> bool, f: T -> U, q: U -> bool, key: U -> K, g: U -> V, s: seq<T>, x: T)
    ensures KeptUnique(p, f, q, key, g, s + [x]) ==
      KeptUnique(p, f, q, key, g, s) + (if FirstKept(p, f, q, key, s + [x], |s|) then [g(f(x))] else [])
  {
    var v := Kept(p, f, q, s);
    KeptSnoc(p, f, q, s, x);
    if p(x) && q(f(x)) {
      DropDuplicatesSnoc(key, v, f(x));
      FirstKeptLast(p, f, q, key, s, x);
      MapSnoc(g, DropDuplicates(key, v), f(x));
    } else {
      assert !Passes(p, f, q, s + [x], |s|);
    }
  }

  /** Whether a position is the first of its key depends only on the positions before it. */
  lemma FirstKeptPrefix<T, U, K>(p: T -> bool, f: T -> U, q: U -> bool, key: U -> K, s: seq<T>, j: int)
    requires s != [] && 0 <= j < |s| - 1
    ensures FirstKept(p, f, q, key, s, j) <==> FirstKept(p, f, q, key, s[..|s| - 1], j)
  {
    var init := s[..|s| - 1];
    assert forall i :: 0 <= i <= j ==> s[i] == init[i];
    assert forall i :: 0 <= i <= j ==> (Passes(p, f, q, s, i) <==> Passes(p, f, q, init, i));
  }

  /** The positions that are the first passing both filters with their key, in order. */
  ghost function FirstKeptPositions<T, U, K>(p: T -> bool, f: T -> U, q: U -> bool, key: U -> K, s: seq<T>): seq<nat>
    decreases |s|
  {
    if s == [] then []
    else
      var n := |s| - 1;
      FirstKeptPositions(p, f, q, key, s[..n]) + (if FirstKept(p, f, q, key, s, n) then [n] else [])
  }

  /** `FirstKeptPositions` lists, increasing, exactly the positions that are first of their key. */
  lemma {:induction false} FirstKeptPositionsSelect<T, U, K>(p: T -> bool, f: T -> U, q: U -> bool, key: U -> K, s: seq<T>)
    ensures IsSelection(FirstKeptPositions(p, f, q, key, s), |s|)
    ensures forall j :: 0 <= j < |s| ==> (j in FirstKeptPositions(p, f, q, key, s) <==> FirstKept(p, f, q, key, s, j))
    decreases |s|
  {
    if s != [] {
      var n := |s| - 1;
      var init := s[..n];
      var prev := FirstKeptPositions(p, f, q, key, init);
      FirstKeptPositionsSelect(p, f, q, key, init);
      SelectsSnoc(prev, n, FirstKept(p, f, q, key, s, n), FirstKeptPositions(p, f, q, key, s));
      forall j | 0 <= j < n
        ensures j in FirstKeptPositions(p, f, q, key, s) <==> FirstKept(p, f, q, key, s, j)
      {
        FirstKeptPrefix(p, f, q, key, s, j);
      }
    }
  }

  /** `KeptUnique` yields `g(f(s[j]))` for each of those positions `j`, in order. */
  lemma {:induction false} KeptUniqueAt<T, U, K, V>(p: T -> bool, f: T -> U, q: U -> bool, key: U -> K, g: U -> V, s: seq<T>)
    ensures |FirstKeptPositions(p, f, q, key, s)| == |KeptUnique(p, f, q, key, g, s)|
    ensures forall i :: 0 <= i < |FirstKeptPositions(p, f, q, key, s)| ==>
      FirstKeptPositions(p, f, q, key, s)[i] < |s| &&
      KeptUnique(p, f, q, key, g, s)[i] == g(f(s[FirstKeptPositions(p, f, q, key, s)[i]]))
    decreases |s|
  {
    if s != [] {
      var n := |s| - 1;
      var init, x := s[..n], s[n];
      assert s == init + [x];
      var prev := FirstKeptPositions(p, f, q, key, init);
      var before := KeptUnique(p, f, q, key, g, init);
      KeptUniqueAt(p, f, q, key, g, init);
      var take := FirstKept(p, f, q, key, s, n);
      KeptUniqueSnoc(p, f, q, key, g, init, x);
      PrefixOf(FirstKeptPositions(p, f, q, key, s), prev, if take then [n] else []);
      PrefixOf(KeptUnique(p, f, q, key, g, s), before, if take then [g(f(x))] else []);
      forall i | 0 <= i < |prev| ensures s[prev[i]] == init[prev[i]] { }
    }
  }

  /** The output of `KeptUnique` is, in order, `g(f(s[j]))` for exactly the positions `j` that are
      the first passing both filters with their key. */
  lemma KeptUniqueSelects<T, U, K, V>(p: T -> bool, f: T -> U, q: U -> bool, key: U -> K, g: U -> V, s: seq<T>)
    returns (idx: seq<nat>)
    ensures IsSelection(idx, |s|) && |idx| == |KeptUnique(p, f, q, key, g, s)|
    ensures forall j :: 0 <= j < |s| ==> (j in idx <==> FirstKept(p, f, q, key, s, j))
    ensures forall i :: 0 <= i < |idx| ==> KeptUnique(p, f, q, key, g, s)[i] == g(f(s[idx[i]]))
  {
    idx := FirstKeptPositions(p, f, q, key, s);
    FirstKeptPositionsSelect(p, f, q, key, s);
    KeptUniqueAt(p, f, q, key, g, s);
  }

  // ---------------------------------------------------------------- fixed points

  lemma {:induction false} FilterAllPass<T>(p: T -> bool, s: seq<T>)
    requires forall i :: 0 <= i < |s| ==> p(s[i])
    ensures Filter(p, s) == s
    decreases |s|
  {
    if s != [] {
      var init := s[..|s| - 1];
      assert forall i :: 0 <= i < |init| ==> init[i] == s[i];
      FilterAllPass(p, init);
      assert s == init + [s[|s| - 1]];
    }
  }

  lemma MapFixed<T>(f: T -> T, s: seq<T>)
    requires forall i :: 0 <= i < |s| ==> f(s[i]) == s[i]
    ensures Map(f, s) == s
  {
  }

  lemma {:induction false} DropDuplicatesOfDistinct<T, K>(key: T -> K, s: seq<T>)
    requires forall i, j :: 0 <= i < j < |s| ==> key(s[i]) != key(s[j])
    ensures DropDuplicates(key, s) == s
    decreases |s|
  {
    if s != [] {
      var n := |s| - 1;
      var init := s[..n];
      assert forall i :: 0 <= i < n ==> init[i] == s[i];
      DropDuplicatesOfDistinct(key, init);
      assert !HasKey(key, init, key(s[n]));
      assert s == init + [s[n]];
    }
  }
}
