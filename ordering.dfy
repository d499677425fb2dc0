/** Ordered queries over integer keys: the store's `ORDER BY id ASC` and `id > k` filter. */
module Ordering {

  /** No value occurs twice. */
  ghost predicate Distinct(s: seq<int>) {
    forall i, j :: 0 <= i < j < |s| ==> s[i] != s[j]
  }

  ghost predicate Ascending(s: seq<int>) {
    forall i, j :: 0 <= i < j < |s| ==> s[i] <= s[j]
  }

  ghost predicate StrictlyAscending(s: seq<int>) {
    forall i, j :: 0 <= i < j < |s| ==> s[i] < s[j]
  }

  /** Puts `x` in front of the first element of `s` that is not smaller than it. */
  function InsertAsc(x: int, s: seq<int>): (r: seq<int>)
    ensures |r| == |s| + 1
    ensures multiset(r) == multiset(s) + multiset{x}
  {
    if s == [] || x <= s[0] then [x] + s
    else
      assert s == [s[0]] + s[1..];
      [s[0]] + InsertAsc(x, s[1..])
  }

  /** Each key of `InsertAsc(x, s)` is `x` or a key of `s`. */
  lemma InsertAscFrom(x: int, s: seq<int>, j: nat)
    requires j < |InsertAsc(x, s)|
    ensures InsertAsc(x, s)[j] == x || InsertAsc(x, s)[j] in s
  {
    assert InsertAsc(x, s)[j] in multiset(InsertAsc(x, s));
  }

  /** Inserting into a sorted sequence keeps it sorted. */
  lemma {:induction false} InsertAscAscending(x: int, s: seq<int>)
    requires Ascending(s)
    ensures Ascending(InsertAsc(x, s))
  {
    if s != [] && x > s[0] {
      var rest := InsertAsc(x, s[1..]);
      var r := [s[0]] + rest;
      assert Ascending(s[1..]);
      InsertAscAscending(x, s[1..]);
      forall i, j | 0 <= i < j < |r| ensures r[i] <= r[j] {
        if i == 0 {
          InsertAscFrom(x, s[1..], j - 1);
        }
      }
    }
  }

  /** Inserting a new key into a strictly sorted sequence keeps it strictly sorted. */
  lemma {:induction false} InsertAscStrict(x: int, s: seq<int>)
    requires StrictlyAscending(s) && x !in s
    ensures StrictlyAscending(InsertAsc(x, s))
  {
    if s != [] && x > s[0] {
      var rest := InsertAsc(x, s[1..]);
      var r := [s[0]] + rest;
      assert StrictlyAscending(s[1..]) && x !in s[1..];
      InsertAscStrict(x, s[1..]);
      forall i, j | 0 <= i < j < |r| ensures r[i] < r[j] {
        if i == 0 {
          InsertAscFrom(x, s[1..], j - 1);
        }
      }
    }
  }

  /** The first key of a sequence without repetitions does not occur in the rest. */
  lemma HeadNotInTail(s: seq<int>)
    requires Distinct(s) && s != []
    ensures Distinct(s[1..]) && s[0] !in s[1..]
  {
  }

  /** The keys of `s` in ascending order: a permutation of `s` that is sorted,
      strictly so when the keys are distinct. */
  function SortAsc(s: seq<int>): (r: seq<int>)
    ensures |r| == |s|
    ensures multiset(r) == multiset(s)
    ensures Ascending(r)
    ensures Distinct(s) ==> StrictlyAscending(r)
  {
    if s == [] then []
    else
      var rest := SortAsc(s[1..]);
      SortStep(s, rest);
      InsertAsc(s[0], rest)
  }

  lemma SortStep(s: seq<int>, rest: seq<int>)
    requires s != []
    requires multiset(rest) == multiset(s[1..]) && Ascending(rest)
    requires Distinct(s[1..]) ==> StrictlyAscending(rest)
    ensures multiset(InsertAsc(s[0], rest)) == multiset(s)
    ensures Ascending(InsertAsc(s[0], rest))
    ensures Distinct(s) ==> StrictlyAscending(InsertAsc(s[0], rest))
  {
    assert s == [s[0]] + s[1..];
    InsertAscAscending(s[0], rest);
    if Distinct(s) {
      HeadNotInTail(s);
      assert s[0] !in multiset(rest);
      InsertAscStrict(s[0], rest);
    }
  }

  /** Prefixing a new key keeps a sequence free of repetitions. */
  lemma ConsDistinct(x: int, s: seq<int>)
    requires Distinct(s) && x !in s
    ensures Distinct([x] + s)
  {
    forall i, j | 0 <= i < j < |[x] + s| ensures ([x] + s)[i] != ([x] + s)[j] {
      if i == 0 { assert ([x] + s)[j] == s[j - 1]; }
    }
  }

  /** The keys of `s` greater than `k`, in the order of `s`. */
  function Above(s: seq<int>, k: int): (r: seq<int>)
    ensures |r| <= |s|
    ensures forall x :: x in r <==> x in s && k < x
    ensures Distinct(s) ==> Distinct(r)
  {
    if s == [] then []
    else
      assert s == [s[0]] + s[1..];
      var rest := Above(s[1..], k);
      assert Distinct(s) ==> Distinct(s[1..]) && s[0] !in rest by {
        if Distinct(s) { HeadNotInTail(s); }
      }
      if k < s[0] then
        assert Distinct(s) ==> Distinct([s[0]] + rest) by {
          if Distinct(s) { ConsDistinct(s[0], rest); }
        }
        [s[0]] + rest
      else rest
  }
}
