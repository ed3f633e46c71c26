/** Sequence helpers for the `Array.prototype.filter` calls of the editor. */
module Seqs {
  import opened Wrappers

  /** `s.filter(p)`: the elements of `s` that satisfy `p`, in their original order. */
  function Filter<T>(s: seq<T>, p: T -> bool): (r: seq<T>)
    ensures |r| <= |s|
    ensures forall i :: 0 <= i < |r| ==> p(r[i]) && r[i] in s
    ensures forall i :: 0 <= i < |s| && p(s[i]) ==> s[i] in r
  {
    if s == [] then [] else (if p(s[0]) then [s[0]] else []) + Filter(s[1..], p)
  }

  /**
   * The kept elements stay in their order and keep their multiplicity: filtering a concatenation
   * filters each part.
   */
  lemma {:induction false} FilterConcat<T>(a: seq<T>, b: seq<T>, p: T -> bool)
    ensures Filter(a + b, p) == Filter(a, p) + Filter(b, p)
  {
    if a == [] {
      assert a + b == b;
    } else {
      assert (a + b)[0] == a[0] && (a + b)[1..] == a[1..] + b;
      FilterConcat(a[1..], b, p);
      var head := if p(a[0]) then [a[0]] else [];
      assert head + (Filter(a[1..], p) + Filter(b, p)) == (head + Filter(a[1..], p)) + Filter(b, p);
    }
  }

  /** A single element is kept exactly when it satisfies `p`. */
  lemma FilterSingle<T>(x: T, p: T -> bool)
    ensures Filter([x], p) == if p(x) then [x] else []
  {
    assert [x][1..] == [];
  }

  /** Filtering with a predicate that every element satisfies changes nothing. */
  lemma {:induction false} FilterAll<T>(s: seq<T>, p: T -> bool)
    requires forall i :: 0 <= i < |s| ==> p(s[i])
    ensures Filter(s, p) == s
  {
    if s != [] {
      FilterAll(s[1..], p);
      assert [s[0]] + s[1..] == s;
    }
  }

  /** `s.find(p)`: the first element of `s` that satisfies `p`, if any. */
  function Find<T(==)>(s: seq<T>, p: T -> bool): (r: Option<T>)
    ensures r.None? <==> forall i :: 0 <= i < |s| ==> !p(s[i])
    ensures r.Some? ==> p(r.value)
    ensures r.Some? ==> exists i :: 0 <= i < |s| && s[i] == r.value && forall j :: 0 <= j < i ==> !p(s[j])
  {
    if |s| == 0 then None
    else if p(s[0]) then Some(s[0])
    else
      var r := Find(s[1..], p);
      if r.Some? then
        var i :| 0 <= i < |s| - 1 && s[1..][i] == r.value && forall j :: 0 <= j < i ==> !p(s[1..][j]);
        assert s[i + 1] == r.value && forall j :: 0 <= j < i + 1 ==> !p(s[j]);
        r
      else r
  }

  /**
   * The loop `if (key < best) { best = key; chosen = i }` over keys[..n], with `best` starting at
   * `Infinity`: the position chosen so far, if any.
   */
  function ArgMin(keys: seq<Option<real>>, n: nat): (r: Option<nat>)
    requires n <= |keys|
    ensures r.Some? ==> r.value < n && keys[r.value].Some?
  {
    if n == 0 then None
    else
      var best := ArgMin(keys, n - 1);
      if keys[n - 1].Some? && (best.None? || keys[n - 1].value < keys[best.value].value) then Some(n - 1)
      else best
  }

  /**
   * What the loop chooses: no position exactly when no key is present; otherwise the least present
   * key, an absent key never being chosen and the first of several equal keys winning.
   */
  lemma {:induction false} ArgMinIsLeast(keys: seq<Option<real>>, n: nat)
    requires n <= |keys|
    ensures ArgMin(keys, n).None? <==> forall j :: 0 <= j < n ==> keys[j].None?
    ensures var r := ArgMin(keys, n);
      r.Some? ==> forall j :: 0 <= j < n && keys[j].Some? ==> keys[r.value].value <= keys[j].value
    ensures var r := ArgMin(keys, n);
      r.Some? ==> forall j :: 0 <= j < r.value && keys[j].Some? ==> keys[r.value].value < keys[j].value
  {
    if n > 0 {
      ArgMinIsLeast(keys, n - 1);
    }
  }

  /** One more pass of the loop: key `n` is chosen exactly when it is present and strictly below the best so far. */
  lemma ArgMinStep(keys: seq<Option<real>>, n: nat)
    requires n < |keys|
    ensures var best := ArgMin(keys, n);
      ArgMin(keys, n + 1) ==
        if keys[n].Some? && (best.None? || keys[n].value < keys[best.value].value) then Some(n) else best
  {
  }
}
