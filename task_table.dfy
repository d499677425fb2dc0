/** The `task` table as a sequence of rows in storage order, the queries the
    task service puts to it, and the properties of its id space. */
module TaskTable {
  import opened Results
  import opened TaskEntity
  import opened Ordering

  /** The ids of the rows, in storage order (`find({ select: ['id'] })`). */
  function Ids(s: seq<Task>): (r: seq<int>)
    ensures |r| == |s| && forall i :: 0 <= i < |s| ==> r[i] == s[i].id
  {
    seq(|s|, i requires 0 <= i < |s| => s[i].id)
  }

  function IdSet(s: seq<Task>): set<int> {
    set i | 0 <= i < |s| :: s[i].id
  }

  /** The primary-key constraint: no two rows share an id. */
  ghost predicate DistinctIds(s: seq<Task>) {
    forall i, j :: 0 <= i < j < |s| ==> s[i].id != s[j].id
  }

  /** Distinct ids, all of them positive: what every operation keeps. */
  ghost predicate WellFormed(s: seq<Task>) {
    DistinctIds(s) && forall i :: 0 <= i < |s| ==> 1 <= s[i].id
  }

  /** The id space is exactly 1..N for N rows. */
  ghost predicate Dense(s: seq<Task>) {
    DistinctIds(s) && forall v :: v in IdSet(s) <==> 1 <= v <= |s|
  }

  /** No owner has two tasks with the same title. */
  ghost predicate TitlesUniquePerOwner(s: seq<Task>) {
    forall i, j :: 0 <= i < j < |s| && s[i].owner == s[j].owner ==> s[i].title != s[j].title
  }

  /** `x` is the smallest positive integer that is not an id in use. */
  ghost predicate IsLeastFreeId(x: int, ids: set<int>) {
    1 <= x && x !in ids && forall v :: 1 <= v < x ==> v in ids
  }

  /** `findOne({ where: { id } })`: the position of the first row with id `k`. */
  function FindById(s: seq<Task>, k: int): (r: Option<nat>)
    ensures r.Some? ==> r.value < |s| && s[r.value].id == k
    ensures r.None? <==> k !in IdSet(s)
  {
    if s == [] then None
    else if s[0].id == k then Some(0)
    else
      assert forall i :: 1 <= i < |s| ==> s[i] == s[1..][i - 1];
      match FindById(s[1..], k)
      case None => None
      case Some(i) => Some(i + 1)
  }

  /** `findOne({ where: { title, user: { username } } })` finds a row. */
  predicate HasTitle(s: seq<Task>, owner: string, title: string) {
    exists i :: 0 <= i < |s| && s[i].owner == owner && s[i].title == title
  }

  /** `find({ where: { user: { username } } })`: the rows of one owner, in storage order. */
  function OwnedBy(s: seq<Task>, owner: string): (r: seq<Task>)
    ensures forall t :: t in r <==> t in s && t.owner == owner
    ensures forall t :: multiset(r)[t] == if t.owner == owner then multiset(s)[t] else 0
  {
    if s == [] then []
    else
      assert s == [s[0]] + s[1..];
      var rest := OwnedBy(s[1..], owner);
      if s[0].owner == owner then [s[0]] + rest else rest
  }

  /** `delete(Task, k)`: the rows whose id is not `k`, in storage order. */
  function Remove(s: seq<Task>, k: int): (r: seq<Task>)
    ensures |r| <= |s|
    ensures forall i :: 0 <= i < |r| ==> r[i].id != k
  {
    if s == [] then []
    else
      assert s == [s[0]] + s[1..];
      var rest := Remove(s[1..], k);
      if s[0].id != k then [s[0]] + rest else rest
  }

  /** A row after compaction around the deleted id `k`: an id above `k` drops by
      one, an id below stays, and no other field changes. */
  function Lower(t: Task, k: int): (r: Task)
    ensures r.id == (if t.id > k then t.id - 1 else t.id)
    ensures r.(id := t.id) == t
  {
    if t.id > k then t.(id := t.id - 1) else t
  }

  /** Every row with an id above `k` moved down by one. */
  function ShiftAbove(s: seq<Task>, k: int): (r: seq<Task>)
    ensures |r| == |s| && forall i :: 0 <= i < |s| ==> r[i] == Lower(s[i], k)
  {
    seq(|s|, i requires 0 <= i < |s| => Lower(s[i], k))
  }

  /** Every row `Remove` keeps is a row of the table. */
  lemma {:induction false} RemoveKeepsRows(s: seq<Task>, k: int)
    ensures forall i :: 0 <= i < |Remove(s, k)| ==> Remove(s, k)[i] in s
  {
    if s != [] {
      assert s == [s[0]] + s[1..];
      RemoveKeepsRows(s[1..], k);
    }
  }

  /** The table after `deleteTask(k)` has committed. Each row is a stored row:
      one with an id below `k` as it was, one with an id of `k` or more is the
      stored row with the next id, moved down. */
  function Compact(s: seq<Task>, k: int): (r: seq<Task>)
    ensures |r| <= |s|
    ensures forall i :: 0 <= i < |r| && r[i].id < k ==> r[i] in s
    ensures forall i :: 0 <= i < |r| && k <= r[i].id ==> r[i].(id := r[i].id + 1) in s
  {
    RemoveKeepsRows(s, k);
    ShiftAbove(Remove(s, k), k)
  }

  /** `update(Task, { id: from }, { id: to })`: renumbers the rows with id `from`. */
  function Renumber(s: seq<Task>, from: int, to: int): (r: seq<Task>)
    ensures |r| == |s|
    ensures forall i :: 0 <= i < |s| ==> r[i].id == (if s[i].id == from then to else s[i].id)
    ensures forall i :: 0 <= i < |s| ==> r[i].(id := s[i].id) == s[i]
  {
    seq(|s|, i requires 0 <= i < |s| => if s[i].id == from then s[i].(id := to) else s[i])
  }

  // ----- Allocation -----------------------------------------------------------

  /** The ids of a well-formed table, read in ascending order, are exactly its ids,
      strictly ascending and positive. */
  lemma SortedIds(s: seq<Task>)
    requires WellFormed(s)
    ensures StrictlyAscending(SortAsc(Ids(s)))
    ensures forall x :: x in SortAsc(Ids(s)) <==> x in IdSet(s)
    ensures forall j :: 0 <= j < |s| ==> 1 <= SortAsc(Ids(s))[j]
  {
    var ids := Ids(s);
    var sorted := SortAsc(ids);
    assert Distinct(ids);
    forall x ensures x in sorted <==> x in IdSet(s) {
      assert x in sorted <==> x in multiset(ids);
      if x in ids {
        var i :| 0 <= i < |s| && ids[i] == x;
      }
      if x in IdSet(s) {
        var i :| 0 <= i < |s| && s[i].id == x;
        assert ids[i] == x;
      }
    }
    forall j | 0 <= j < |s| ensures 1 <= sorted[j] {
      assert sorted[j] in IdSet(s);
    }
  }

  /** The least free id is unique, so it determines the id a new task takes. */
  lemma LeastFreeIdUnique(x: int, y: int, ids: set<int>)
    requires IsLeastFreeId(x, ids) && IsLeastFreeId(y, ids)
    ensures x == y
  {
  }

  /** On a dense table the least free id is N + 1. */
  lemma DenseLeastFreeId(s: seq<Task>, x: int)
    requires Dense(s) && IsLeastFreeId(x, IdSet(s))
    ensures x == |s| + 1
  {
    assert |s| + 1 !in IdSet(s);
  }

  lemma DenseIsWellFormed(s: seq<Task>)
    requires Dense(s)
    ensures WellFormed(s)
  {
    forall i | 0 <= i < |s| ensures 1 <= s[i].id {
      assert s[i].id in IdSet(s);
    }
  }

  /** Appending a row with a fresh positive id keeps the ids distinct and positive. */
  lemma AppendKeepsWellFormed(s: seq<Task>, t: Task)
    requires WellFormed(s) && 1 <= t.id && t.id !in IdSet(s)
    ensures WellFormed(s + [t])
  {
    forall i | 0 <= i < |s| ensures s[i].id != t.id {
      assert s[i].id in IdSet(s);
    }
  }

  /** Appending a row that takes the least free id turns 1..N into 1..N+1. */
  lemma AppendKeepsDense(s: seq<Task>, t: Task)
    requires Dense(s) && IsLeastFreeId(t.id, IdSet(s))
    ensures Dense(s + [t])
  {
    DenseLeastFreeId(s, t.id);
    DenseIsWellFormed(s);
    AppendKeepsWellFormed(s, t);
    var s' := s + [t];
    assert IdSet(s') == IdSet(s) + {t.id} by {
      forall v ensures v in IdSet(s') <==> v in IdSet(s) + {t.id} {
        if v in IdSet(s') {
          var i :| 0 <= i < |s'| && s'[i].id == v;
          if i < |s| { assert s[i].id == v; }
        }
        if v in IdSet(s) {
          var i :| 0 <= i < |s| && s[i].id == v;
          assert s'[i].id == v;
        }
        if v == t.id { assert s'[|s|].id == v; }
      }
    }
  }

  /** Appending a row whose title its owner does not use yet keeps titles unique per owner. */
  lemma AppendKeepsTitlesUnique(s: seq<Task>, t: Task)
    requires TitlesUniquePerOwner(s) && !HasTitle(s, t.owner, t.title)
    ensures TitlesUniquePerOwner(s + [t])
  {
    var s' := s + [t];
    forall i, j | 0 <= i < j < |s'| && s'[i].owner == s'[j].owner ensures s'[i].title != s'[j].title {
      if j == |s| {
        assert s'[i] == s[i];
      }
    }
  }

  // ----- Deletion and compaction ---------------------------------------------

  /** A table without id `k` is left as it is by `Remove(_, k)`. */
  lemma {:induction false} RemoveAbsent(s: seq<Task>, k: int)
    requires forall i :: 0 <= i < |s| ==> s[i].id != k
    ensures Remove(s, k) == s
  {
    if s != [] {
      assert s == [s[0]] + s[1..];
      RemoveAbsent(s[1..], k);
    }
  }

  /** With distinct ids, deleting the id of the row at `p` removes that row and no other. */
  lemma {:induction false} RemoveIsSlice(s: seq<Task>, p: nat)
    requires DistinctIds(s) && p < |s|
    ensures Remove(s, s[p].id) == s[..p] + s[p + 1..]
  {
    var k := s[p].id;
    var t := s[1..];
    assert s == [s[0]] + t;
    if p == 0 {
      assert forall i :: 0 <= i < |t| ==> t[i].id != k by {
        forall i | 0 <= i < |t| ensures t[i].id != k {
          assert t[i] == s[i + 1];
        }
      }
      RemoveAbsent(t, k);
      assert s[..0] + s[1..] == t;
    } else {
      assert t[p - 1] == s[p];
      assert DistinctIds(t) by {
        forall a, b | 0 <= a < b < |t| ensures t[a].id != t[b].id {
          assert t[a] == s[a + 1] && t[b] == s[b + 1];
        }
      }
      RemoveIsSlice(t, p - 1);
      assert s[0].id != k;
      assert Remove(s, k) == [s[0]] + Remove(t, k);
      assert t[..p - 1] == s[1..p];
      assert t[p..] == s[p + 1..];
      assert [s[0]] + s[1..p] == s[..p];
      assert [s[0]] + (s[1..p] + s[p + 1..]) == s[..p] + s[p + 1..];
    }
  }

  /** Where a row of the compacted table comes from: the rows before the deleted
      one keep their position, the rows after it move up by one. */
  function Origin(j: nat, p: nat): nat {
    if j < p then j else j + 1
  }

  /** After deleting the id of the row at `p`: that row is gone, the table is one row
      shorter, the surviving rows keep their storage order, and each is `Lower`ed. */
  lemma CompactShape(s: seq<Task>, p: nat)
    requires DistinctIds(s) && p < |s|
    ensures |Compact(s, s[p].id)| == |s| - 1
    ensures forall j :: 0 <= j < |s| - 1 ==>
      Origin(j, p) < |s| && Origin(j, p) != p && Compact(s, s[p].id)[j] == Lower(s[Origin(j, p)], s[p].id)
  {
    var k := s[p].id;
    var r := Remove(s, k);
    RemoveIsSlice(s, p);
    assert |r| == |s| - 1;
    forall j | 0 <= j < |s| - 1 ensures r[j] == s[Origin(j, p)] {
      if j < p {
        assert r[j] == s[..p][j];
      } else {
        assert r[j] == s[p + 1..][j - p];
      }
    }
    assert Compact(s, k) == ShiftAbove(r, k);
  }

  /** Compaction keeps the primary key: distinct positive ids stay distinct and positive. */
  lemma CompactKeepsWellFormed(s: seq<Task>, p: nat)
    requires WellFormed(s) && p < |s|
    ensures WellFormed(Compact(s, s[p].id))
  {
    var k := s[p].id;
    var c := Compact(s, k);
    CompactShape(s, p);
    forall a, b | 0 <= a < b < |c| ensures c[a].id != c[b].id {
      assert Origin(a, p) < Origin(b, p);
      assert s[Origin(a, p)].id != s[Origin(b, p)].id;
    }
  }

  /** Every id after compaction lies in 1..N-1. */
  lemma CompactIdsInRange(s: seq<Task>, p: nat, j: nat)
    requires Dense(s) && p < |s| && j < |s| - 1
    ensures |Compact(s, s[p].id)| == |s| - 1
    ensures 1 <= Compact(s, s[p].id)[j].id <= |s| - 1
  {
    CompactShape(s, p);
    var o := Origin(j, p);
    assert s[o].id in IdSet(s) && s[p].id in IdSet(s);
    assert s[o].id != s[p].id;
  }

  /** Every id in 1..N-1 is taken after compaction. */
  lemma CompactIdsCover(s: seq<Task>, p: nat, v: int)
    requires Dense(s) && p < |s| && 1 <= v <= |s| - 1
    ensures v in IdSet(Compact(s, s[p].id))
  {
    var k := s[p].id;
    var c := Compact(s, k);
    CompactShape(s, p);
    var w := if v < k then v else v + 1;
    assert w in IdSet(s);
    var o :| 0 <= o < |s| && s[o].id == w;
    var j := if o < p then o else o - 1;
    assert Origin(j, p) == o;
    assert c[j].id == v;
  }

  /** Compaction turns the id space 1..N into 1..N-1. */
  lemma CompactKeepsDense(s: seq<Task>, p: nat)
    requires Dense(s) && p < |s|
    ensures Dense(Compact(s, s[p].id))
  {
    var c := Compact(s, s[p].id);
    DenseIsWellFormed(s);
    CompactShape(s, p);
    CompactKeepsWellFormed(s, p);
    forall v ensures v in IdSet(c) <==> 1 <= v <= |c| {
      if v in IdSet(c) {
        var j :| 0 <= j < |c| && c[j].id == v;
        CompactIdsInRange(s, p, j);
      }
      if 1 <= v <= |c| {
        CompactIdsCover(s, p, v);
      }
    }
  }

  /** Compaction keeps titles unique per owner: it changes no title and no owner. */
  lemma CompactKeepsTitlesUnique(s: seq<Task>, p: nat)
    requires DistinctIds(s) && TitlesUniquePerOwner(s) && p < |s|
    ensures TitlesUniquePerOwner(Compact(s, s[p].id))
  {
    var c := Compact(s, s[p].id);
    CompactShape(s, p);
    forall a, b | 0 <= a < b < |c| && c[a].owner == c[b].owner ensures c[a].title != c[b].title {
      assert Origin(a, p) < Origin(b, p);
    }
  }

  /** Compaction keeps the relative order of the survivors' ids. */
  lemma CompactKeepsIdOrder(s: seq<Task>, p: nat)
    requires DistinctIds(s) && p < |s|
    ensures |Compact(s, s[p].id)| == |s| - 1
    ensures forall a, b :: 0 <= a < |s| - 1 && 0 <= b < |s| - 1 ==>
      (Compact(s, s[p].id)[a].id < Compact(s, s[p].id)[b].id <==> s[Origin(a, p)].id < s[Origin(b, p)].id)
  {
    CompactShape(s, p);
    forall a | 0 <= a < |s| - 1 ensures s[Origin(a, p)].id != s[p].id {
      assert Origin(a, p) != p;
    }
  }

  /** Why the renumbering runs in ascending order: after `[1, 2, 3]` loses id 1,
      moving 3 down before 2 puts two rows on id 2. */
  lemma DescendingRenumberCollides(a: Task, b: Task)
    requires a.id == 2 && b.id == 3
    ensures !DistinctIds(Renumber([a, b], 3, 2))
  {
    assert Renumber([a, b], 3, 2)[0].id == 2 == Renumber([a, b], 3, 2)[1].id;
  }

  // ----- Update ----------------------------------------------------------------

  /** updateTask checks no title: renaming a task to the title of another task of
      the same owner leaves that owner with two tasks of one title. */
  lemma UpdateCanDuplicateTitle(a: Task, b: Task, dto: UpdateTaskDto)
    requires a.owner == b.owner && a.title != b.title && dto.title == Some(a.title)
    ensures TitlesUniquePerOwner([a, b])
    ensures !TitlesUniquePerOwner([a, b][1 := ApplyUpdate(b, dto)])
  {
    var u := [a, b][1 := ApplyUpdate(b, dto)];
    assert u[0].owner == u[1].owner && u[0].title == u[1].title;
  }
}
