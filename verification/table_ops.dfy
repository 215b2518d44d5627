/**
 * Generic operations on tables. A table is a sequence of rows; a column is
 * read through a projection function. These are the building blocks the
 * feature builder uses: boolean-mask selection, `drop_duplicates`,
 * the rows of one group, a column sum, and a left join on a key.
 */
module TableOps {
  import opened Wrappers

  /** No value occurs twice. */
  ghost predicate Distinct<T>(s: seq<T>) {
    forall i, j :: 0 <= i < j < |s| ==> s[i] != s[j]
  }

  /** No two rows of `t` share a key: the key is a unique key of `t`. */
  ghost predicate UniqueKeys<R, K>(t: seq<R>, key: R -> K) {
    forall i, j :: 0 <= i < j < |t| ==> key(t[i]) != key(t[j])
  }

  /** The set of values a column takes. */
  ghost function Column<R, P>(t: seq<R>, proj: R -> P): set<P> {
    set r | r in t :: proj(r)
  }

  /** The rows of `s` that satisfy `p`, in their original order (`df[mask]`). */
  function Filter<T(!new)>(s: seq<T>, p: T -> bool): (r: seq<T>)
    ensures |r| <= |s|
    ensures forall x :: x in r <==> x in s && p(x)
  {
    if |s| == 0 then []
    else (if p(s[0]) then [s[0]] else []) + Filter(s[1..], p)
  }

  /** A mask keeps each kept value as often as it occurs in the input. */
  lemma {:induction false} FilterCount<T(!new)>(s: seq<T>, p: T -> bool)
    ensures forall x :: multiset(Filter(s, p))[x] == if p(x) then multiset(s)[x] else 0
  {
    if |s| > 0 {
      assert s == [s[0]] + s[1..];
      FilterCount(s[1..], p);
    }
  }

  /** Selection keeps order: filtering a concatenation concatenates the
      filtered parts. */
  lemma {:induction false} FilterAppend<T(!new)>(a: seq<T>, b: seq<T>, p: T -> bool)
    ensures Filter(a + b, p) == Filter(a, p) + Filter(b, p)
  {
    if |a| == 0 {
      assert a + b == b;
    } else {
      assert (a + b)[0] == a[0];
      assert (a + b)[1..] == a[1..] + b;
      FilterAppend(a[1..], b, p);
    }
  }

  /** `idx` picks the elements of `r` out of `s` at strictly increasing
      positions: `r` is a subsequence of `s`, in the same order. */
  ghost predicate PicksInOrder<T>(idx: seq<nat>, r: seq<T>, s: seq<T>) {
    && |idx| == |r|
    && (forall i :: 0 <= i < |idx| ==> idx[i] < |s| && r[i] == s[idx[i]])
    && (forall i, j :: 0 <= i < j < |idx| ==> idx[i] < idx[j])
  }

  /** Positions into `s[1..]` moved up by one are positions into `s`. */
  lemma PicksShift<T>(rest: seq<nat>, tail: seq<T>, s: seq<T>) returns (shifted: seq<nat>)
    requires |s| > 0 && PicksInOrder(rest, tail, s[1..])
    ensures PicksInOrder(shifted, tail, s)
    ensures forall i :: 0 <= i < |shifted| ==> 1 <= shifted[i] && s[shifted[i]] == s[1..][rest[i]]
  {
    shifted := seq(|rest|, i requires 0 <= i < |rest| => rest[i] + 1);
  }

  /** Position 0 may be put in front of positions that are all at least 1. */
  lemma PicksCons<T>(idx: seq<nat>, r: seq<T>, s: seq<T>)
    requires |s| > 0 && PicksInOrder(idx, r, s)
    requires forall i :: 0 <= i < |idx| ==> 1 <= idx[i]
    ensures PicksInOrder([0] + idx, [s[0]] + r, s)
  {
    var idx', r' := [0] + idx, [s[0]] + r;
    forall i | 0 < i < |idx'| ensures idx'[i] < |s| && r'[i] == s[idx'[i]] {
      assert idx'[i] == idx[i - 1] && r'[i] == r[i - 1];
    }
  }

  /** Selection keeps order: the kept rows sit at increasing positions of the
      input. */
  lemma {:induction false} FilterIndices<T(!new)>(s: seq<T>, p: T -> bool) returns (idx: seq<nat>)
    ensures PicksInOrder(idx, Filter(s, p), s)
  {
    if |s| == 0 {
      idx := [];
    } else {
      var tail := Filter(s[1..], p);
      var rest := FilterIndices(s[1..], p);
      var shifted := PicksShift(rest, tail, s);
      if p(s[0]) {
        assert Filter(s, p) == [s[0]] + tail;
        PicksCons(shifted, tail, s);
        idx := [0] + shifted;
      } else {
        assert Filter(s, p) == tail;
        idx := shifted;
      }
    }
  }

  /** `drop_duplicates()`: the first occurrence of every value, in order. */
  function Dedup<T(==,!new)>(s: seq<T>): (r: seq<T>)
    ensures Distinct(r)
    ensures forall x :: x in r <==> x in s
    ensures |r| <= |s|
  {
    if |s| == 0 then []
    else
      var d := Dedup(s[..|s| - 1]);
      if s[|s| - 1] in d then d else d + [s[|s| - 1]]
  }

  /** Each picked position of `s` holds the first occurrence of its value. */
  ghost predicate AtFirstOccurrences<T>(idx: seq<nat>, s: seq<T>)
    requires forall i :: 0 <= i < |idx| ==> idx[i] < |s|
  {
    forall i :: 0 <= i < |idx| ==> s[idx[i]] !in s[..idx[i]]
  }

  /** Positions picked from a prefix of `s` are positions of `s`, still at
      first occurrences and all before the prefix's end. */
  lemma PicksPrefix<T>(idx: seq<nat>, r: seq<T>, s: seq<T>, n: nat)
    requires n <= |s| && PicksInOrder(idx, r, s[..n]) && AtFirstOccurrences(idx, s[..n])
    ensures PicksInOrder(idx, r, s) && AtFirstOccurrences(idx, s)
    ensures forall i :: 0 <= i < |idx| ==> idx[i] < n
  {
    forall i | 0 <= i < |idx| ensures s[..idx[i]] == s[..n][..idx[i]] {
    }
  }

  /** A last position, after all the others and at a value not seen before,
      may be appended. */
  lemma PicksSnoc<T>(idx: seq<nat>, r: seq<T>, s: seq<T>)
    requires |s| > 0 && PicksInOrder(idx, r, s) && AtFirstOccurrences(idx, s)
    requires forall i :: 0 <= i < |idx| ==> idx[i] < |s| - 1
    requires s[|s| - 1] !in s[..|s| - 1]
    ensures PicksInOrder(idx + [|s| - 1], r + [s[|s| - 1]], s)
    ensures AtFirstOccurrences(idx + [|s| - 1], s)
  {
    var idx', r' := idx + [|s| - 1], r + [s[|s| - 1]];
    forall i | 0 <= i < |idx| ensures idx'[i] == idx[i] && r'[i] == r[i] {
    }
  }

  /** De-duplication keeps order: the output values sit at increasing
      positions of the input, each at the first occurrence of its value. */
  lemma {:induction false} DedupIndices<T(!new)>(s: seq<T>) returns (idx: seq<nat>)
    ensures PicksInOrder(idx, Dedup(s), s)
    ensures AtFirstOccurrences(idx, s)
  {
    if |s| == 0 {
      idx := [];
    } else {
      var n := |s| - 1;
      var d := Dedup(s[..n]);
      var rest := DedupIndices(s[..n]);
      PicksPrefix(rest, d, s, n);
      if s[n] in d {
        idx := rest;
      } else {
        PicksSnoc(rest, d, s);
        idx := rest + [n];
      }
    }
  }

  /** The rows of `t` whose key is `k`, in their original order: one group of a
      `groupby`, or the right-hand partners of one left row in a join. */
  function Matches<R(!new), K(==)>(t: seq<R>, key: R -> K, k: K): (m: seq<R>)
    ensures |m| <= |t|
    ensures forall r :: r in m <==> r in t && key(r) == k
    ensures (forall r :: r in t ==> key(r) != k) ==> m == []
  {
    if |t| == 0 then []
    else (if key(t[0]) == k then [t[0]] else []) + Matches(t[1..], key, k)
  }

  /** Grouping keeps order: the group of a concatenation is the concatenation
      of the groups. */
  lemma {:induction false} MatchesAppend<R(!new), K>(a: seq<R>, b: seq<R>, key: R -> K, k: K)
    ensures Matches(a + b, key, k) == Matches(a, key, k) + Matches(b, key, k)
  {
    if |a| == 0 {
      assert a + b == b;
    } else {
      assert (a + b)[0] == a[0];
      assert (a + b)[1..] == a[1..] + b;
      MatchesAppend(a[1..], b, key, k);
    }
  }

  /** A row of `t` with key `k`, if any; `LookupFirst` shows it is the first. */
  function Lookup<R(!new), K(==)>(t: seq<R>, key: R -> K, k: K): (r: Option<R>)
    ensures r.Some? ==> r.value in t && key(r.value) == k
    ensures r.None? <==> forall x :: x in t ==> key(x) != k
  {
    var m := Matches(t, key, k);
    if |m| == 0 then None
    else
      assert m[0] in m;
      Some(m[0])
  }

  /** `Lookup` returns the first row of `t` that carries key `k`. */
  lemma {:induction false} LookupFirst<R(!new), K>(t: seq<R>, key: R -> K, k: K) returns (i: nat)
    requires Lookup(t, key, k).Some?
    ensures i < |t| && t[i] == Lookup(t, key, k).value
    ensures forall j :: 0 <= j < i ==> key(t[j]) != k
  {
    if key(t[0]) == k {
      i := 0;
    } else {
      assert Matches(t, key, k) == Matches(t[1..], key, k);
      var i' := LookupFirst(t[1..], key, k);
      i := i' + 1;
      forall j | 0 < j < i ensures key(t[j]) != k {
        assert t[j] == t[1..][j - 1];
      }
    }
  }

  /** Column sum; the empty sum is 0. */
  function Sum<R>(t: seq<R>, f: R -> int): int {
    if |t| == 0 then 0 else f(t[0]) + Sum(t[1..], f)
  }

  /** The output rows a left join produces for one left row: one per matching
      right row, in right-hand order, or a single row with the right-hand
      side missing when nothing matches. */
  function JoinRow<L, R(!new), K(==), O>(l: L, right: seq<R>, lk: L -> K, rk: R -> K,
                                   combine: (L, Option<R>) -> O): seq<O>
  {
    var m := Matches(right, rk, lk(l));
    if |m| == 0 then [combine(l, None)]
    else seq(|m|, i requires 0 <= i < |m| => combine(l, Some(m[i])))
  }

  /** How an output row of a left join arose from left row `l`: combined with
      a right row of the same key, or with nothing when no right row has it. */
  ghost predicate JoinedFrom<L, R(!new), K, O>(o: O, l: L, right: seq<R>, lk: L -> K, rk: R -> K,
                                              combine: (L, Option<R>) -> O)
  {
    || (o == combine(l, None) && forall r :: r in right ==> rk(r) != lk(l))
    || (exists r :: r in right && rk(r) == lk(l) && o == combine(l, Some(r)))
  }

  /** `left.merge(right, on=key, how='left')`: every left row in order, each
      expanded into its matches (or padded with a missing right side). */
  function LeftJoin<L(!new), R(!new), K(==), O(!new)>(left: seq<L>, right: seq<R>, lk: L -> K, rk: R -> K,
                                    combine: (L, Option<R>) -> O): (out: seq<O>)
    ensures |out| >= |left|
    ensures forall o :: o in out ==>
              exists l :: l in left && JoinedFrom(o, l, right, lk, rk, combine)
  {
    if |left| == 0 then []
    else
      var head := JoinRow(left[0], right, lk, rk, combine);
      var tail := LeftJoin(left[1..], right, lk, rk, combine);
      assert forall o :: o in head ==> JoinedFrom(o, left[0], right, lk, rk, combine) by {
        var m := Matches(right, rk, lk(left[0]));
        forall o | o in head
          ensures JoinedFrom(o, left[0], right, lk, rk, combine)
        {
          if |m| != 0 {
            var i :| 0 <= i < |m| && head[i] == o;
            assert m[i] in m;
          }
        }
      }
      head + tail
  }

  /** The rows one left row produces: one with every right row of its key,
      or the padded row when there is none. */
  lemma JoinRowComplete<L, R(!new), K, O>(l: L, right: seq<R>, lk: L -> K, rk: R -> K,
                                          combine: (L, Option<R>) -> O)
    ensures forall r :: r in right && rk(r) == lk(l) ==>
              combine(l, Some(r)) in JoinRow(l, right, lk, rk, combine)
    ensures (forall r :: r in right ==> rk(r) != lk(l)) ==>
              combine(l, None) in JoinRow(l, right, lk, rk, combine)
  {
    var head := JoinRow(l, right, lk, rk, combine);
    var m := Matches(right, rk, lk(l));
    forall r | r in right && rk(r) == lk(l)
      ensures combine(l, Some(r)) in head
    {
      assert r in m;
      var i :| 0 <= i < |m| && m[i] == r;
      assert head[i] == combine(l, Some(r));
    }
  }

  /** `out` holds every left row combined with every right row of its key,
      and every left row without one, padded. */
  ghost predicate CoversLeft<L, R, K, O>(left: seq<L>, right: seq<R>, lk: L -> K, rk: R -> K,
                                         combine: (L, Option<R>) -> O, out: seq<O>)
  {
    && (forall l, r :: l in left && r in right && rk(r) == lk(l) ==> combine(l, Some(r)) in out)
    && (forall l :: l in left && (forall r :: r in right ==> rk(r) != lk(l)) ==> combine(l, None) in out)
  }

  /** Coverage of the first left row by `head` and of the rest by `tail` is
      coverage of all left rows by `head + tail`. */
  lemma CoversCons<L, R, K, O>(left: seq<L>, right: seq<R>, lk: L -> K, rk: R -> K,
                               combine: (L, Option<R>) -> O, head: seq<O>, tail: seq<O>)
    requires |left| > 0
    requires CoversLeft([left[0]], right, lk, rk, combine, head)
    requires CoversLeft(left[1..], right, lk, rk, combine, tail)
    ensures CoversLeft(left, right, lk, rk, combine, head + tail)
  {
  }

  /** A left join loses nothing: every left row is combined with every right
      row of its key, and a left row without one is kept, padded. */
  lemma {:induction false} LeftJoinComplete<L(!new), R(!new), K, O(!new)>(
    left: seq<L>, right: seq<R>, lk: L -> K, rk: R -> K, combine: (L, Option<R>) -> O)
    ensures forall l, r :: l in left && r in right && rk(r) == lk(l) ==>
              combine(l, Some(r)) in LeftJoin(left, right, lk, rk, combine)
    ensures forall l :: l in left && (forall r :: r in right ==> rk(r) != lk(l)) ==>
              combine(l, None) in LeftJoin(left, right, lk, rk, combine)
  {
    var out := LeftJoin(left, right, lk, rk, combine);
    if |left| != 0 {
      var head := JoinRow(left[0], right, lk, rk, combine);
      var tail := LeftJoin(left[1..], right, lk, rk, combine);
      assert out == head + tail;
      JoinRowComplete(left[0], right, lk, rk, combine);
      LeftJoinComplete(left[1..], right, lk, rk, combine);
      CoversCons(left, right, lk, rk, combine, head, tail);
    }
    assert CoversLeft(left, right, lk, rk, combine, out);
  }

  /** How many output rows a left row with key `k` produces: one per right
      row carrying `k`, and one padded row when there is none. */
  ghost function Fanout<R, K>(right: seq<R>, rk: R -> K, k: K): nat {
    var n := multiset(KeyColumn(right, rk))[k];
    if n == 0 then 1 else n
  }

  /** The size of a left join: the fan-outs of the left rows added up. */
  ghost function JoinSize<L, R, K>(left: seq<L>, right: seq<R>, lk: L -> K, rk: R -> K): nat {
    if |left| == 0 then 0 else Fanout(right, rk, lk(left[0])) + JoinSize(left[1..], right, lk, rk)
  }

  /** A left row with several matches is repeated once per match. */
  lemma {:induction false} LeftJoinSize<L(!new), R(!new), K, O(!new)>(
    left: seq<L>, right: seq<R>, lk: L -> K, rk: R -> K, combine: (L, Option<R>) -> O)
    ensures |LeftJoin(left, right, lk, rk, combine)| == JoinSize(left, right, lk, rk)
  {
    if |left| != 0 {
      LeftJoinSize(left[1..], right, lk, rk, combine);
      MatchesCount(right, rk, lk(left[0]));
    }
  }

  /** The key column of `t` as a sequence. */
  function KeyColumn<R, K>(t: seq<R>, key: R -> K): (c: seq<K>)
    ensures |c| == |t|
    ensures forall i :: 0 <= i < |t| ==> c[i] == key(t[i])
  {
    seq(|t|, i requires 0 <= i < |t| => key(t[i]))
  }

  /** A group's size is the number of times its key occurs in the key column. */
  lemma {:induction false} MatchesCount<R(!new), K>(t: seq<R>, key: R -> K, k: K)
    ensures |Matches(t, key, k)| == multiset(KeyColumn(t, key))[k]
  {
    if |t| != 0 {
      MatchesCount(t[1..], key, k);
      assert KeyColumn(t, key) == [key(t[0])] + KeyColumn(t[1..], key);
    }
  }

  /** Under a unique key, a key has at most one match. */
  lemma {:induction false} MatchesUnique<R(!new), K>(t: seq<R>, key: R -> K, k: K)
    requires UniqueKeys(t, key)
    ensures |Matches(t, key, k)| <= 1
  {
    if |t| != 0 {
      var rest := Matches(t[1..], key, k);
      assert UniqueKeys(t[1..], key);
      MatchesUnique(t[1..], key, k);
      if key(t[0]) == k {
        forall r | r in t[1..]
          ensures key(r) != k
        {
          var j :| 0 <= j < |t[1..]| && t[1..][j] == r;
          assert t[j + 1] == r;
        }
      }
    }
  }

  /** Under a unique right-hand key, a left join is a row-by-row lookup: one
      output row per left row, in left order. */
  lemma {:induction false} LeftJoinUnique<L(!new), R(!new), K, O(!new)>(
    left: seq<L>, right: seq<R>, lk: L -> K, rk: R -> K, combine: (L, Option<R>) -> O)
    requires UniqueKeys(right, rk)
    ensures |LeftJoin(left, right, lk, rk, combine)| == |left|
    ensures forall i :: 0 <= i < |left| ==>
              LeftJoin(left, right, lk, rk, combine)[i] == combine(left[i], Lookup(right, rk, lk(left[i])))
  {
    if |left| != 0 {
      JoinRowUnique(left[0], right, lk, rk, combine);
      LeftJoinUnique(left[1..], right, lk, rk, combine);
      var out := LeftJoin(left, right, lk, rk, combine);
      assert out == [combine(left[0], Lookup(right, rk, lk(left[0])))] + LeftJoin(left[1..], right, lk, rk, combine);
      forall i | 1 <= i < |left|
        ensures out[i] == combine(left[i], Lookup(right, rk, lk(left[i])))
      {
        assert left[i] == left[1..][i - 1];
      }
    }
  }

  /** Against a uniquely keyed right table, one left row yields exactly one
      output row: itself combined with the lookup of its key. */
  lemma JoinRowUnique<L, R(!new), K, O>(l: L, right: seq<R>, lk: L -> K, rk: R -> K, combine: (L, Option<R>) -> O)
    requires UniqueKeys(right, rk)
    ensures JoinRow(l, right, lk, rk, combine) == [combine(l, Lookup(right, rk, lk(l)))]
  {
    MatchesUnique(right, rk, lk(l));
  }

  /** A column that every combine step copies from the left row survives the
      join unchanged as a set: the join invents no value in it and loses none. */
  lemma {:induction false} LeftJoinKeeps<L(!new), R(!new), K, O(!new), P>(
    left: seq<L>, right: seq<R>, lk: L -> K, rk: R -> K, combine: (L, Option<R>) -> O,
    projL: L -> P, projO: O -> P)
    requires forall l, m :: projO(combine(l, m)) == projL(l)
    ensures Column(LeftJoin(left, right, lk, rk, combine), projO) == Column(left, projL)
  {
    var out := LeftJoin(left, right, lk, rk, combine);
    LeftJoinComplete(left, right, lk, rk, combine);
    forall p | p in Column(left, projL)
      ensures p in Column(out, projO)
    {
      var l :| l in left && projL(l) == p;
      if r :| r in right && rk(r) == lk(l) {
        assert projO(combine(l, Some(r))) == p;
      } else {
        assert projO(combine(l, None)) == p;
      }
    }
    forall p | p in Column(out, projO)
      ensures p in Column(left, projL)
    {
      var o :| o in out && projO(o) == p;
      var l :| l in left && JoinedFrom(o, l, right, lk, rk, combine);
      if o == combine(l, None) {
        assert projO(o) == projL(l);
      } else {
        var r :| r in right && rk(r) == lk(l) && o == combine(l, Some(r));
        assert projO(o) == projL(l);
      }
    }
  }

  /** Under a unique key, looking up a row's own key finds that row. */
  lemma LookupUnique<R(!new), K>(t: seq<R>, key: R -> K, x: R)
    requires UniqueKeys(t, key)
    requires x in t
    ensures Lookup(t, key, key(x)) == Some(x)
  {
    MatchesUnique(t, key, key(x));
    var m := Matches(t, key, key(x));
    assert x in m;
  }

  /** Per-key group sums, over the keys `ks` in order. */
  function GroupedSum<R(!new), K(==)>(t: seq<R>, key: R -> K, ks: seq<K>, f: R -> int): int {
    if |ks| == 0 then 0 else Sum(Matches(t, key, ks[0]), f) + GroupedSum(t, key, ks[1..], f)
  }

  /** The group of `k` in a table with one more row in front. */
  lemma {:induction false} MatchesCons<R(!new), K>(x: R, t: seq<R>, key: R -> K, k: K, f: R -> int)
    ensures Sum(Matches([x] + t, key, k), f) == (if key(x) == k then f(x) else 0) + Sum(Matches(t, key, k), f)
  {
    var xt := [x] + t;
    assert xt[0] == x && xt[1..] == t;
    var m := Matches(t, key, k);
    if key(x) == k {
      assert Matches(xt, key, k) == [x] + m;
      var xm := [x] + m;
      assert xm[0] == x && xm[1..] == m;
    } else {
      assert Matches(xt, key, k) == [] + m;
      assert [] + m == m;
    }
  }

  /** One step of `GroupedSumCons`: the first group key, then the rest. */
  lemma GroupedSumConsStep<R(!new), K>(x: R, t: seq<R>, key: R -> K, ks: seq<K>, f: R -> int)
    requires |ks| > 0 && ks[0] !in ks[1..]
    requires GroupedSum([x] + t, key, ks[1..], f)
             == (if key(x) in ks[1..] then f(x) else 0) + GroupedSum(t, key, ks[1..], f)
    ensures GroupedSum([x] + t, key, ks, f) == (if key(x) in ks then f(x) else 0) + GroupedSum(t, key, ks, f)
  {
    MatchesCons(x, t, key, ks[0], f);
    assert key(x) in ks <==> key(x) == ks[0] || key(x) in ks[1..] by {
      assert ks == [ks[0]] + ks[1..];
    }
  }

  /** Adding one row in front changes the grouped sum by that row's value,
      provided its key is one of the (distinct) group keys. */
  lemma {:induction false} GroupedSumCons<R(!new), K>(x: R, t: seq<R>, key: R -> K, ks: seq<K>, f: R -> int)
    requires Distinct(ks)
    ensures GroupedSum([x] + t, key, ks, f) == (if key(x) in ks then f(x) else 0) + GroupedSum(t, key, ks, f)
  {
    if |ks| != 0 {
      DistinctTail(ks);
      GroupedSumCons(x, t, key, ks[1..], f);
      GroupedSumConsStep(x, t, key, ks, f);
    }
  }

  /** The tail of a distinct sequence is distinct and lacks the head. */
  lemma DistinctTail<T>(s: seq<T>)
    requires |s| > 0 && Distinct(s)
    ensures Distinct(s[1..]) && s[0] !in s[1..]
  {
    forall j | 0 <= j < |s| - 1 ensures s[1..][j] != s[0] {
      assert s[1..][j] == s[j + 1];
    }
  }

  /** Grouping loses and duplicates nothing: the per-group sums over distinct
      keys that cover every row add up to the sum over the whole table. */
  lemma {:induction false} GroupedSumTotal<R(!new), K>(t: seq<R>, key: R -> K, ks: seq<K>, f: R -> int)
    requires Distinct(ks)
    requires forall r :: r in t ==> key(r) in ks
    ensures GroupedSum(t, key, ks, f) == Sum(t, f)
  {
    if |t| == 0 {
      GroupedSumEmpty(key, ks, f);
    } else {
      assert t == [t[0]] + t[1..];
      GroupedSumCons(t[0], t[1..], key, ks, f);
      GroupedSumTotal(t[1..], key, ks, f);
    }
  }

  lemma {:induction false} GroupedSumEmpty<R(!new), K>(key: R -> K, ks: seq<K>, f: R -> int)
    ensures GroupedSum([], key, ks, f) == 0
  {
    if |ks| != 0 {
      GroupedSumEmpty(key, ks[1..], f);
    }
  }

  /** A one-row left join whose right side is one matching row. */
  lemma JoinSingletons<L(!new), R(!new), K, O(!new)>(l: L, r: R, lk: L -> K, rk: R -> K,
                                                         combine: (L, Option<R>) -> O)
    requires lk(l) == rk(r)
    ensures LeftJoin([l], [r], lk, rk, combine) == [combine(l, Some(r))]
  {
    assert [r][1..] == [];
    assert Matches([r], rk, lk(l)) == [r];
    assert [l][1..] == [];
  }
}
