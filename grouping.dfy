/**
 * Grouping a list by a string key, keeping first-seen key order and the input
 * order inside each group. This is what `groupByRoom` does with a JavaScript
 * object and what `allocate_students_updated` does twice with Python dicts
 * (students by year, then by branch).
 */
module Grouping {

  /** The keys of `xs` in the order in which each first occurs. */
  function FirstSeen<T>(xs: seq<T>, key: T -> string): seq<string>
  {
    if xs == [] then []
    else
      var ks := FirstSeen(xs[..|xs| - 1], key);
      var k := key(xs[|xs| - 1]);
      if k in ks then ks else ks + [k]
  }

  /** The elements of `xs` whose key is `k`, in their input order. */
  function Select<T>(xs: seq<T>, key: T -> string, k: string): (g: seq<T>)
    ensures |g| <= |xs|
    ensures forall i :: 0 <= i < |g| ==> key(g[i]) == k
    ensures forall x :: x in g ==> x in xs
  {
    if xs == [] then []
    else
      var x := xs[|xs| - 1];
      Select(xs[..|xs| - 1], key, k) + (if key(x) == k then [x] else [])
  }

  /** The groups of `ks`, one after another. */
  function ConcatGroups<T>(xs: seq<T>, key: T -> string, ks: seq<string>): seq<T>
  {
    if ks == [] then [] else Select(xs, key, ks[0]) + ConcatGroups(xs, key, ks[1..])
  }

  /** Position of the first element of `xs` whose key is `k`, or `|xs|` when there is none. */
  function FirstIndex<T>(xs: seq<T>, key: T -> string, k: string): (p: nat)
    ensures p <= |xs|
    ensures p < |xs| ==> key(xs[p]) == k
    ensures forall i :: 0 <= i < p ==> key(xs[i]) != k
  {
    if xs == [] then 0
    else if key(xs[0]) == k then 0
    else
      var p := FirstIndex(xs[1..], key, k);
      assert forall i :: 1 <= i < 1 + p ==> xs[i] == xs[1..][i - 1];
      1 + p
  }

  // ------------------------------------------------------------------ order

  /** No key is listed twice. */
  lemma {:induction false} FirstSeenDistinct<T>(xs: seq<T>, key: T -> string)
    ensures forall i, j :: 0 <= i < j < |FirstSeen(xs, key)| ==> FirstSeen(xs, key)[i] != FirstSeen(xs, key)[j]
  {
    if xs != [] {
      var init := xs[..|xs| - 1];
      assert init + [xs[|xs| - 1]] == xs;
      FirstSeenDistinct(init, key);
      FirstSeenAppend(init, key, xs[|xs| - 1]);
    }
  }

  lemma {:induction false} FirstSeenAppend<T>(xs: seq<T>, key: T -> string, x: T)
    ensures FirstSeen(xs + [x], key)
         == if key(x) in FirstSeen(xs, key) then FirstSeen(xs, key) else FirstSeen(xs, key) + [key(x)]
  {
    assert (xs + [x])[..|xs|] == xs;
  }

  /** Every element's key is listed. */
  lemma {:induction false} FirstSeenCovers<T>(xs: seq<T>, key: T -> string)
    ensures forall i :: 0 <= i < |xs| ==> key(xs[i]) in FirstSeen(xs, key)
  {
    if xs != [] {
      var init := xs[..|xs| - 1];
      FirstSeenCovers(init, key);
      FirstSeenAppend(init, key, xs[|xs| - 1]);
      assert forall i :: 0 <= i < |init| ==> init[i] == xs[i];
    }
  }

  /** A key no element has is not listed. */
  lemma {:induction false} FirstSeenAbsent<T>(xs: seq<T>, key: T -> string, k: string)
    requires forall i :: 0 <= i < |xs| ==> key(xs[i]) != k
    ensures k !in FirstSeen(xs, key)
    decreases |xs|
  {
    if xs != [] {
      var init := xs[..|xs| - 1];
      assert init + [xs[|xs| - 1]] == xs;
      assert forall i :: 0 <= i < |init| ==> init[i] == xs[i];
      FirstSeenAbsent(init, key, k);
      FirstSeenAppend(init, key, xs[|xs| - 1]);
    }
  }

  /** Every listed key occurs in the input. */
  lemma {:induction false} FirstSeenFound<T>(xs: seq<T>, key: T -> string, m: nat)
    requires m < |FirstSeen(xs, key)|
    ensures FirstIndex(xs, key, FirstSeen(xs, key)[m]) < |xs|
    decreases |xs|
  {
    var init, x := xs[..|xs| - 1], xs[|xs| - 1];
    assert init + [x] == xs;
    FirstSeenAppend(init, key, x);
    var ks0 := FirstSeen(init, key);
    var a := FirstSeen(xs, key)[m];
    if m < |ks0| {
      FirstSeenFound(init, key, m);
      FirstIndexExtend(init, key, x, a);
    } else {
      assert key(xs[|xs| - 1]) == a;
    }
  }

  /** Group order is first-seen order: a key listed earlier occurs earlier in the input. */
  lemma {:induction false} FirstSeenOrder<T>(xs: seq<T>, key: T -> string, i: nat, j: nat)
    requires i < j < |FirstSeen(xs, key)|
    ensures FirstIndex(xs, key, FirstSeen(xs, key)[i]) < FirstIndex(xs, key, FirstSeen(xs, key)[j]) < |xs|
    decreases |xs|
  {
    var init, x := xs[..|xs| - 1], xs[|xs| - 1];
    assert init + [x] == xs;
    FirstSeenAppend(init, key, x);
    var ks0 := FirstSeen(init, key);
    var a, b := FirstSeen(xs, key)[i], FirstSeen(xs, key)[j];
    assert a == ks0[i];
    assert FirstIndex(xs, key, a) == FirstIndex(init, key, a) by {
      FirstSeenFound(init, key, i);
      FirstIndexExtend(init, key, x, a);
    }
    if j < |ks0| {
      assert b == ks0[j];
      assert FirstIndex(init, key, a) < FirstIndex(init, key, b) < |init| by {
        FirstSeenOrder(init, key, i, j);
      }
      FirstIndexExtend(init, key, x, b);
    } else {
      LastKeyIndex(init, key, x);
    }
  }

  /** A key first seen on the last element is first found there. */
  lemma {:induction false} LastKeyIndex<T>(init: seq<T>, key: T -> string, x: T)
    requires key(x) !in FirstSeen(init, key)
    ensures FirstIndex(init + [x], key, key(x)) == |init|
  {
    var xs := init + [x];
    FirstSeenCovers(init, key);
    assert forall u :: 0 <= u < |init| ==> key(xs[u]) != key(x) by {
      assert forall u :: 0 <= u < |init| ==> xs[u] == init[u];
    }
    assert xs[|init|] == x;
  }

  /** Appending an element does not move the first occurrence of a key already present. */
  lemma {:induction false} FirstIndexExtend<T>(xs: seq<T>, key: T -> string, x: T, k: string)
    requires FirstIndex(xs, key, k) < |xs|
    ensures FirstIndex(xs + [x], key, k) == FirstIndex(xs, key, k)
    decreases |xs|
  {
    if key(xs[0]) != k {
      assert (xs + [x])[1..] == xs[1..] + [x];
      FirstIndexExtend(xs[1..], key, x, k);
    }
  }

  // ------------------------------------------------------------- membership

  /**
   * Select is the stable filter: it lists exactly the positions of `xs` whose
   * key is `k`, in increasing order.
   */
  lemma {:induction false} SelectPositions<T>(xs: seq<T>, key: T -> string, k: string)
    returns (pos: seq<nat>)
    ensures |pos| == |Select(xs, key, k)|
    ensures forall i :: 0 <= i < |pos| ==> pos[i] < |xs| && Select(xs, key, k)[i] == xs[pos[i]]
    ensures forall i, j :: 0 <= i < j < |pos| ==> pos[i] < pos[j]
    ensures forall p :: 0 <= p < |xs| && key(xs[p]) == k ==> p in pos
  {
    if xs == [] {
      pos := [];
    } else {
      var init := xs[..|xs| - 1];
      var x := xs[|xs| - 1];
      var p0 := SelectPositions(init, key, k);
      SelectAppend(init, key, x, k);
      assert init + [x] == xs;
      assert forall p :: 0 <= p < |init| ==> init[p] == xs[p];
      if key(x) == k {
        pos := p0 + [|xs| - 1];
        assert forall p :: 0 <= p < |xs| - 1 && key(xs[p]) == k ==> p in p0;
      } else {
        pos := p0;
      }
    }
  }

  // ------------------------------------------------------------ subsequences

  /** `a` is `b` read at the strictly increasing positions `pos`. */
  ghost predicate Embeds<T>(a: seq<T>, b: seq<T>, pos: seq<nat>)
  {
    |pos| == |a|
    && (forall i :: 0 <= i < |pos| ==> pos[i] < |b| && a[i] == b[pos[i]])
    && (forall i, j :: 0 <= i < j < |pos| ==> pos[i] < pos[j])
  }

  /** The elements of `a` occur in `b`, in the same order. */
  ghost predicate Subsequence<T>(a: seq<T>, b: seq<T>)
  {
    exists pos :: Embeds(a, b, pos)
  }

  lemma {:induction false} SelectSubsequence<T>(xs: seq<T>, key: T -> string, k: string)
    ensures Subsequence(Select(xs, key, k), xs)
  {
    var pos := SelectPositions(xs, key, k);
    assert Embeds(Select(xs, key, k), xs, pos);
  }

  lemma {:induction false} SubsequenceTransitive<T>(a: seq<T>, b: seq<T>, c: seq<T>)
    requires Subsequence(a, b) && Subsequence(b, c)
    ensures Subsequence(a, c)
  {
    var p :| Embeds(a, b, p);
    var q :| Embeds(b, c, q);
    var r := seq(|p|, i requires 0 <= i < |p| => q[p[i]]);
    assert Embeds(a, c, r);
  }

  /** Appending `x` to `b`, and to `a` when `keep`, extends the positions by `|b|`. */
  lemma {:induction false} EmbedsSnoc<T>(b: seq<T>, x: T, a: seq<T>, pos: seq<nat>, keep: bool,
                                        b': seq<T>, a': seq<T>, pos': seq<nat>)
    requires Embeds(a, b, pos)
    requires b' == b + [x]
    requires a' == if keep then a + [x] else a
    requires pos' == if keep then pos + [|b|] else pos
    ensures Embeds(a', b', pos')
  {
  }

  /** A contiguous run of a subsequence of `b` is a subsequence of `b`. */
  lemma {:induction false} SubsequenceSlice<T>(a: seq<T>, b: seq<T>, x: nat, y: nat)
    requires Subsequence(a, b) && x <= y <= |a|
    ensures Subsequence(a[x..y], b)
  {
    var p :| Embeds(a, b, p);
    assert Embeds(a[x..y], b, p[x..y]);
  }

  // ------------------------------------------------------------ permutation

  lemma {:induction false} SelectAbsent<T>(xs: seq<T>, key: T -> string, k: string)
    requires k !in FirstSeen(xs, key)
    ensures Select(xs, key, k) == []
  {
    FirstSeenCovers(xs, key);
    SelectNone(xs, key, k);
  }

  lemma {:induction false} SelectNone<T>(xs: seq<T>, key: T -> string, k: string)
    requires forall i :: 0 <= i < |xs| ==> key(xs[i]) != k
    ensures Select(xs, key, k) == []
    decreases |xs|
  {
    if xs != [] {
      var init := xs[..|xs| - 1];
      assert forall i :: 0 <= i < |init| ==> init[i] == xs[i];
      SelectNone(init, key, k);
    }
  }

  lemma {:induction false} SelectAppend<T>(xs: seq<T>, key: T -> string, x: T, k: string)
    ensures Select(xs + [x], key, k) == Select(xs, key, k) + (if key(x) == k then [x] else [])
  {
    assert (xs + [x])[..|xs|] == xs;
  }

  /** Adding one element adds it to the concatenation iff its key is listed. */
  lemma {:induction false} ConcatGroupsAppend<T>(xs: seq<T>, key: T -> string, x: T, ks: seq<string>)
    requires forall i, j :: 0 <= i < j < |ks| ==> ks[i] != ks[j]
    ensures multiset(ConcatGroups(xs + [x], key, ks))
         == multiset(ConcatGroups(xs, key, ks)) + (if key(x) in ks then multiset{x} else multiset{})
    decreases |ks|
  {
    if ks != [] {
      var k0, rest := ks[0], ks[1..];
      DistinctTail(ks);
      ConcatGroupsAppend(xs, key, x, rest);
      SelectAppend(xs, key, x, k0);
      var inHead: seq<T> := if key(x) == k0 then [x] else [];
      var inRest := if key(x) in rest then multiset{x} else multiset{};
      MultisetShuffle(Select(xs, key, k0), inHead, ConcatGroups(xs + [x], key, rest), ConcatGroups(xs, key, rest), inRest);
    }
  }

  /** The keys after the first are distinct and do not repeat the first. */
  lemma {:induction false} DistinctTail(ks: seq<string>)
    requires ks != []
    requires forall i, j :: 0 <= i < j < |ks| ==> ks[i] != ks[j]
    ensures forall i, j :: 0 <= i < j < |ks[1..]| ==> ks[1..][i] != ks[1..][j]
    ensures ks[0] !in ks[1..]
    ensures forall k :: k in ks <==> k == ks[0] || k in ks[1..]
  {
    assert ks == [ks[0]] + ks[1..];
    forall j | 0 <= j < |ks[1..]| ensures ks[1..][j] != ks[0] {
      assert ks[1..][j] == ks[j + 1];
    }
  }

  lemma {:induction false} MultisetShuffle<T>(a: seq<T>, h: seq<T>, c: seq<T>, b: seq<T>, r: multiset<T>)
    requires multiset(c) == multiset(b) + r
    ensures multiset((a + h) + c) == multiset(a + b) + (multiset(h) + r)
  {
    calc {
      multiset((a + h) + c);
      multiset(a) + multiset(h) + multiset(c);
      multiset(a) + multiset(b) + (multiset(h) + r);
    }
  }

  /** Concatenating the groups of distinct keys that cover every element loses and invents nothing. */
  lemma {:induction false} ConcatGroupsPermutation<T>(xs: seq<T>, key: T -> string, ks: seq<string>)
    requires forall i, j :: 0 <= i < j < |ks| ==> ks[i] != ks[j]
    requires forall i :: 0 <= i < |xs| ==> key(xs[i]) in ks
    ensures multiset(ConcatGroups(xs, key, ks)) == multiset(xs)
  {
    if xs == [] {
      EmptyGroups(key, ks);
    } else {
      var init := xs[..|xs| - 1];
      assert init + [xs[|xs| - 1]] == xs;
      ConcatGroupsPermutation(init, key, ks);
      ConcatGroupsAppend(init, key, xs[|xs| - 1], ks);
    }
  }

  lemma {:induction false} EmptyGroups<T>(key: T -> string, ks: seq<string>)
    ensures ConcatGroups([], key, ks) == []
  {
    if ks != [] { EmptyGroups(key, ks[1..]); }
  }

  /** The grouping of `xs` in first-seen key order is a permutation of `xs`. */
  lemma {:induction false} GroupingIsPermutation<T>(xs: seq<T>, key: T -> string)
    ensures multiset(ConcatGroups(xs, key, FirstSeen(xs, key))) == multiset(xs)
    ensures |ConcatGroups(xs, key, FirstSeen(xs, key))| == |xs|
  {
    FirstSeenDistinct(xs, key);
    FirstSeenCovers(xs, key);
    ConcatGroupsPermutation(xs, key, FirstSeen(xs, key));
    assert |multiset(ConcatGroups(xs, key, FirstSeen(xs, key)))| == |multiset(xs)|;
  }

  // ----------------------------------------------------------------- method

  /** `keys` and `groups` are the grouping of `prefix`. */
  ghost predicate Grouped<T>(prefix: seq<T>, key: T -> string, keys: seq<string>, groups: map<string, seq<T>>)
  {
    && keys == FirstSeen(prefix, key)
    && (forall k :: k in groups <==> k in keys)
    && (forall k :: k in groups ==> groups[k] == Select(prefix, key, k))
  }

  /**
   * The dictionary-building loop: for each element in order, create its key's
   * list if missing, then append the element to it.
   */
  method GroupBy<T>(xs: seq<T>, key: T -> string) returns (keys: seq<string>, groups: map<string, seq<T>>)
    ensures keys == FirstSeen(xs, key)
    ensures forall k :: k in groups <==> k in keys
    ensures forall k :: k in groups ==> groups[k] == Select(xs, key, k)
  {
    keys, groups := [], map[];
    for i := 0 to |xs|
      invariant Grouped(xs[..i], key, keys, groups)
    {
      var x := xs[i];
      var k := key(x);
      GroupStep(xs[..i], key, x, keys, groups);
      if k !in groups {
        keys := keys + [k];
        groups := groups[k := []];
      }
      groups := groups[k := groups[k] + [x]];
      TakeNext(xs, i);
    }
    assert xs[..|xs|] == xs;
  }

  /** The first i elements followed by element i are the first i + 1. */
  lemma {:induction false} TakeNext<T>(xs: seq<T>, i: nat)
    requires i < |xs|
    ensures xs[..i] + [xs[i]] == xs[..i + 1]
  {
  }

  lemma {:induction false} SliceOfDrop<T>(xs: seq<T>, n: nat, x: nat, y: nat)
    requires n <= |xs| && x <= y <= |xs| - n
    ensures xs[n..][x..y] == xs[n + x..n + y]
  {
    assert forall i :: 0 <= i < y - x ==> xs[n..][x..y][i] == xs[n + x + i];
  }

  /** One iteration of GroupBy's loop turns the grouping of a prefix into that of the prefix and the next element. */
  lemma {:induction false} GroupStep<T>(prefix: seq<T>, key: T -> string, x: T, keys: seq<string>, groups: map<string, seq<T>>)
    requires Grouped(prefix, key, keys, groups)
    ensures var k := key(x);
      Grouped(prefix + [x], key,
              if k in groups then keys else keys + [k],
              groups[k := (if k in groups then groups[k] else []) + [x]])
  {
    FirstSeenAppend(prefix, key, x);
    GroupsStep(prefix, key, x, groups);
  }

  /** Appending `x` extends the group of its key by `x` and leaves the other groups as they were. */
  lemma {:induction false} GroupsStep<T>(prefix: seq<T>, key: T -> string, x: T, groups: map<string, seq<T>>)
    requires forall k :: k in groups <==> k in FirstSeen(prefix, key)
    requires forall k :: k in groups ==> groups[k] == Select(prefix, key, k)
    ensures var k := key(x);
      var groups' := groups[k := (if k in groups then groups[k] else []) + [x]];
      forall k' :: k' in groups' ==> groups'[k'] == Select(prefix + [x], key, k')
  {
    var k := key(x);
    assert Select(prefix + [x], key, k) == (if k in groups then groups[k] else []) + [x] by {
      SelectAppend(prefix, key, x, k);
      if k !in groups { SelectAbsent(prefix, key, k); }
    }
    forall k' | k' in groups && k' != k
      ensures groups[k'] == Select(prefix + [x], key, k')
    {
      SelectAppend(prefix, key, x, k');
    }
  }
}
