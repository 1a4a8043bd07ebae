/**
 * The pandas group-by used throughout the data pipeline: rows carry a key and
 * two integer value columns; grouping yields one group per distinct key with the
 * number of rows (`size()`) and the sums of the two columns (`agg(sum)`).
 * Groups are produced in order of first occurrence of their key.
 */
module GroupBy {
  import opened Wrappers

  datatype Row<K> = Row(key: K, x: int, y: int)
  datatype Group<K> = Group(key: K, size: nat, x: int, y: int)

  /** The three aggregated columns of a group. */
  datatype Column = Size | X | Y

  function Value<K>(g: Group<K>, c: Column): (v: int)
  {
    match c
    case Size => g.size
    case X => g.x
    case Y => g.y
  }

  /** What one row contributes to a column: one to the size, its value to a sum. */
  function RowValue<K>(r: Row<K>, c: Column): (v: int)
  {
    match c
    case Size => 1
    case X => r.x
    case Y => r.y
  }

  function Single<K>(r: Row<K>): (single: Group<K>)
  {
    Group(r.key, 1, r.x, r.y)
  }

  function Merge<K>(g: Group<K>, r: Row<K>): (merged: Group<K>)
  {
    Group(g.key, g.size + 1, g.x + r.x, g.y + r.y)
  }

  /** Adds one row to the groups: bumps the group of its key, or opens a new one at the end. */
  function Add<K(==)>(gs: seq<Group<K>>, r: Row<K>): (added: seq<Group<K>>)
  {
    if gs == [] then [Single(r)]
    else if gs[0].key == r.key then [Merge(gs[0], r)] + gs[1..]
    else [gs[0]] + Add(gs[1..], r)
  }

  /** `df.groupby(key)`: the rows folded into groups, one row at a time. */
  function Aggregate<K(==)>(rows: seq<Row<K>>): (groups: seq<Group<K>>)
  {
    if rows == [] then [] else Add(Aggregate(rows[..|rows| - 1]), rows[|rows| - 1])
  }

  // ---- Reference definitions, key by key ----

  /** Number of rows with key k. */
  function Count<K(==)>(rows: seq<Row<K>>, k: K): (count: nat)
  {
    if rows == [] then 0
    else Count(rows[..|rows| - 1], k) + (if rows[|rows| - 1].key == k then 1 else 0)
  }

  /** Sum of the first value column over the rows with key k. */
  function SumX<K(==)>(rows: seq<Row<K>>, k: K): (sum: int)
  {
    if rows == [] then 0
    else SumX(rows[..|rows| - 1], k) + (if rows[|rows| - 1].key == k then rows[|rows| - 1].x else 0)
  }

  /** Sum of the second value column over the rows with key k. */
  function SumY<K(==)>(rows: seq<Row<K>>, k: K): (sum: int)
  {
    if rows == [] then 0
    else SumY(rows[..|rows| - 1], k) + (if rows[|rows| - 1].key == k then rows[|rows| - 1].y else 0)
  }

  /** The group key k should have: none when no row has key k. */
  function Expected<K(==)>(rows: seq<Row<K>>, k: K): (expected: Option<Group<K>>)
  {
    if Count(rows, k) == 0 then None else Some(Group(k, Count(rows, k), SumX(rows, k), SumY(rows, k)))
  }

  /** The first group with key k. */
  function Find<K(==)>(gs: seq<Group<K>>, k: K): (found: Option<Group<K>>)
  {
    if gs == [] then None
    else if gs[0].key == k then Some(gs[0])
    else Find(gs[1..], k)
  }

  /** No key is repeated: each group's key is absent from the groups after it. */
  predicate UniqueKeys<K(==)>(gs: seq<Group<K>>)
  {
    gs == [] || (Find(gs[1..], gs[0].key) == None && UniqueKeys(gs[1..]))
  }

  /** Sum of column c over the groups whose key satisfies p. */
  function GroupsWhere<K>(gs: seq<Group<K>>, p: K -> bool, c: Column): (sum: int)
  {
    if gs == [] then 0
    else (if p(gs[0].key) then Value(gs[0], c) else 0) + GroupsWhere(gs[1..], p, c)
  }

  /** Sum of what the rows whose key satisfies p contribute to column c. */
  function RowsWhere<K>(rows: seq<Row<K>>, p: K -> bool, c: Column): (sum: int)
  {
    if rows == [] then 0
    else RowsWhere(rows[..|rows| - 1], p, c) + (if p(rows[|rows| - 1].key) then RowValue(rows[|rows| - 1], c) else 0)
  }

  // ---- Lemmas ----

  lemma {:induction false} NoRowsNoSums<K>(rows: seq<Row<K>>, k: K)
    requires Count(rows, k) == 0
    ensures SumX(rows, k) == 0 && SumY(rows, k) == 0
  {
    if rows != [] {
      NoRowsNoSums(rows[..|rows| - 1], k);
    }
  }

  lemma {:induction false} AddFind<K>(gs: seq<Group<K>>, r: Row<K>, k: K)
    ensures Find(Add(gs, r), k) ==
      if k != r.key then Find(gs, k)
      else if Find(gs, k) == None then Some(Single(r))
      else Some(Merge(Find(gs, k).value, r))
  {
    if gs != [] && gs[0].key != r.key {
      AddFind(gs[1..], r, k);
      assert Add(gs, r)[1..] == Add(gs[1..], r);
    }
  }

  lemma {:induction false} AddUnique<K>(gs: seq<Group<K>>, r: Row<K>)
    requires UniqueKeys(gs)
    ensures UniqueKeys(Add(gs, r))
  {
    if gs != [] {
      if gs[0].key == r.key {
        assert Add(gs, r)[1..] == gs[1..];
      } else {
        AddUnique(gs[1..], r);
        AddFind(gs[1..], r, gs[0].key);
        assert Add(gs, r)[1..] == Add(gs[1..], r);
      }
    }
  }

  lemma {:induction false} AggregateFind<K>(rows: seq<Row<K>>)
    ensures UniqueKeys(Aggregate(rows))
    ensures forall k :: Find(Aggregate(rows), k) == Expected(rows, k)
  {
    if rows != [] {
      var init, r := rows[..|rows| - 1], rows[|rows| - 1];
      AggregateFind(init);
      AddUnique(Aggregate(init), r);
      forall k ensures Find(Aggregate(rows), k) == Expected(rows, k) {
        AddFind(Aggregate(init), r, k);
        if k == r.key && Count(init, k) == 0 {
          NoRowsNoSums(init, k);
        }
      }
    }
  }

  lemma {:induction false} FindAt<K>(gs: seq<Group<K>>, i: nat)
    requires UniqueKeys(gs) && i < |gs|
    ensures Find(gs, gs[i].key) == Some(gs[i])
  {
    if i > 0 {
      FindAt(gs[1..], i - 1);
    }
  }

  lemma {:induction false} FindNone<K>(gs: seq<Group<K>>, k: K, i: nat)
    requires Find(gs, k) == None && i < |gs|
    ensures gs[i].key != k
  {
    if i > 0 {
      FindNone(gs[1..], k, i - 1);
    }
  }

  lemma {:induction false} FindSome<K>(gs: seq<Group<K>>, k: K) returns (i: nat)
    requires Find(gs, k).Some?
    ensures i < |gs| && gs[i] == Find(gs, k).value && gs[i].key == k
  {
    if gs[0].key == k {
      i := 0;
    } else {
      var j := FindSome(gs[1..], k);
      i := j + 1;
    }
  }

  lemma {:induction false} UniqueKeysDistinct<K>(gs: seq<Group<K>>, i: nat, j: nat)
    requires UniqueKeys(gs) && i < j < |gs|
    ensures gs[i].key != gs[j].key
  {
    if i == 0 {
      FindNone(gs[1..], gs[0].key, j - 1);
    } else {
      UniqueKeysDistinct(gs[1..], i - 1, j - 1);
    }
  }

  /**
   * What the group-by computes: one group per distinct key of the rows, no
   * other group, and every group carries the number of rows with its key and
   * the sums of both value columns over those rows.
   */
  lemma AggregateCorrect<K>(rows: seq<Row<K>>)
    ensures forall i, j :: 0 <= i < j < |Aggregate(rows)| ==> Aggregate(rows)[i].key != Aggregate(rows)[j].key
    ensures forall k :: (exists i :: 0 <= i < |Aggregate(rows)| && Aggregate(rows)[i].key == k) <==> Count(rows, k) > 0
    ensures forall i :: 0 <= i < |Aggregate(rows)| ==>
      var g := Aggregate(rows)[i];
      g.size == Count(rows, g.key) > 0 && g.x == SumX(rows, g.key) && g.y == SumY(rows, g.key)
  {
    var gs := Aggregate(rows);
    AggregateFind(rows);
    forall i, j | 0 <= i < j < |gs| ensures gs[i].key != gs[j].key {
      UniqueKeysDistinct(gs, i, j);
    }
    forall k ensures (exists i :: 0 <= i < |gs| && gs[i].key == k) <==> Count(rows, k) > 0 {
      if Count(rows, k) > 0 {
        var i := FindSome(gs, k);
      } else {
        forall i | 0 <= i < |gs| ensures gs[i].key != k {
          FindNone(gs, k, i);
        }
      }
    }
    forall i | 0 <= i < |gs|
      ensures gs[i].size == Count(rows, gs[i].key) > 0 && gs[i].x == SumX(rows, gs[i].key) && gs[i].y == SumY(rows, gs[i].key)
    {
      FindAt(gs, i);
      assert Find(gs, gs[i].key) == Expected(rows, gs[i].key);
    }
  }

  lemma {:induction false} AddPartition<K>(gs: seq<Group<K>>, r: Row<K>, p: K -> bool, c: Column)
    ensures GroupsWhere(Add(gs, r), p, c) == GroupsWhere(gs, p, c) + (if p(r.key) then RowValue(r, c) else 0)
  {
    if gs == [] {
      assert Add(gs, r)[1..] == [];
    } else if gs[0].key == r.key {
      assert Add(gs, r)[1..] == gs[1..];
    } else {
      AddPartition(gs[1..], r, p, c);
      assert Add(gs, r)[1..] == Add(gs[1..], r);
    }
  }

  /**
   * Grouping loses and invents nothing: summed over the groups whose key
   * satisfies p, each column equals what the rows with such keys contribute.
   */
  lemma {:induction false} AggregatePartition<K>(rows: seq<Row<K>>, p: K -> bool, c: Column)
    ensures GroupsWhere(Aggregate(rows), p, c) == RowsWhere(rows, p, c)
  {
    if rows != [] {
      AggregatePartition(rows[..|rows| - 1], p, c);
      AddPartition(Aggregate(rows[..|rows| - 1]), rows[|rows| - 1], p, c);
    }
  }
}
