/**
 "View Employees by Manager" (server.js, `viewEmployeesByManager`): the rows of the
 manager self-join are folded into one bucket per manager name, in order of first
 appearance, and then printed bucket by bucket. The store's query, its join and its
 ORDER BY are not modelled; the rows arrive as a parameter.
 */
module ManagerGroups {
  import opened Options
  import opened Text

  /**
   One row of the employees-by-manager query. `managerName` is
   `CONCAT(m.first_name, ' ', m.last_name)`, which is NULL when the LEFT JOIN found no manager.
   */
  datatype EmployeeRow = EmployeeRow(
    id: int,
    firstName: string,
    lastName: string,
    title: string,
    departmentName: string,
    managerName: Option<string>)

  /** The bucket name for rows whose manager name is null or empty. */
  const NoManager: string := "No Manager"

  /** `cur.manager_name || 'No Manager'`: both null and the empty string are falsy. */
  function GroupKey(row: EmployeeRow): string
  {
    match row.managerName
    case Some(name) => if name != [] then name else NoManager
    case None => NoManager
  }

  /** One property of the accumulator object: a manager name and the rows pushed under it. */
  datatype Bucket = Bucket(manager: string, employees: seq<EmployeeRow>)

  /** Where `acc[key]` lives in the accumulator; `|acc|` when the object has no such property. */
  function FindBucket(acc: seq<Bucket>, key: string): (i: nat)
    ensures i <= |acc|
    ensures i < |acc| ==> acc[i].manager == key
    ensures forall j :: 0 <= j < i ==> acc[j].manager != key
  {
    if |acc| == 0 then 0
    else if acc[0].manager == key then 0
    else 1 + FindBucket(acc[1..], key)
  }

  /**
   The reducer: `acc[k] = acc[k] || []; acc[k].push(cur)`. A new property goes at the end,
   which is where `Object.entries` later finds it (manager names always contain a space or
   are "No Manager", so none is an integer-like key that JavaScript would reorder).
   */
  function AddRow(acc: seq<Bucket>, row: EmployeeRow): seq<Bucket>
  {
    var key := GroupKey(row);
    var i := FindBucket(acc, key);
    if i < |acc| then acc[i := Bucket(key, acc[i].employees + [row])]
    else acc + [Bucket(key, [row])]
  }

  /** `rows.reduce(reducer, {})`: the rows are added one at a time, first to last. */
  function GroupByManager(rows: seq<EmployeeRow>): seq<Bucket>
  {
    if |rows| == 0 then [] else AddRow(GroupByManager(rows[..|rows| - 1]), rows[|rows| - 1])
  }

  // ---------------------------------------------------------------------------
  // Reference definitions, independent of the fold

  /** The rows filed under `key`, in input order. */
  function RowsUnder(rows: seq<EmployeeRow>, key: string): seq<EmployeeRow>
  {
    if |rows| == 0 then []
    else (if GroupKey(rows[0]) == key then [rows[0]] else []) + RowsUnder(rows[1..], key)
  }

  /** Index of the first row filed under `key`; `|rows|` when there is none. */
  function FirstRowUnder(rows: seq<EmployeeRow>, key: string): (i: nat)
    ensures i <= |rows|
    ensures i < |rows| ==> GroupKey(rows[i]) == key
    ensures forall j :: 0 <= j < i ==> GroupKey(rows[j]) != key
  {
    if |rows| == 0 then 0
    else if GroupKey(rows[0]) == key then 0
    else 1 + FirstRowUnder(rows[1..], key)
  }

  /** A row is filed under `key` exactly when it is one of the rows and has that key. */
  lemma {:induction false} RowsUnderMembers(rows: seq<EmployeeRow>, key: string)
    ensures forall x :: x in RowsUnder(rows, key) <==> x in rows && GroupKey(x) == key
  {
    if |rows| > 0 {
      RowsUnderMembers(rows[1..], key);
      assert rows == [rows[0]] + rows[1..];
    }
  }

  /** No row has the key, so none is filed under it. */
  lemma {:induction false} RowsUnderNone(rows: seq<EmployeeRow>, key: string)
    requires forall j :: 0 <= j < |rows| ==> GroupKey(rows[j]) != key
    ensures RowsUnder(rows, key) == []
  {
    if |rows| > 0 {
      assert GroupKey(rows[0]) != key;
      RowsUnderNone(rows[1..], key);
    }
  }

  /** The bucket names, in bucket order. */
  function Managers(g: seq<Bucket>): seq<string>
  {
    seq(|g|, i requires 0 <= i < |g| => g[i].manager)
  }

  /** All bucketed rows, bucket after bucket. */
  function Flatten(g: seq<Bucket>): seq<EmployeeRow>
  {
    if |g| == 0 then [] else g[0].employees + Flatten(g[1..])
  }

  /** The bucket sizes added up. */
  function TotalSize(g: seq<Bucket>): nat
  {
    if |g| == 0 then 0 else |g[0].employees| + TotalSize(g[1..])
  }

  /** Each bucket holds exactly the rows filed under its name, in input order. */
  ghost predicate BucketsHoldTheirRows(rows: seq<EmployeeRow>, g: seq<Bucket>)
  {
    forall i :: 0 <= i < |g| ==> g[i].employees == RowsUnder(rows, g[i].manager)
  }

  ghost predicate BucketsNonEmpty(g: seq<Bucket>)
  {
    forall i :: 0 <= i < |g| ==> g[i].employees != []
  }

  ghost predicate NamesDistinct(g: seq<Bucket>)
  {
    forall i, j :: 0 <= i < j < |g| ==> g[i].manager != g[j].manager
  }

  /** Every row's key has a bucket. */
  ghost predicate EveryKeyHasBucket(rows: seq<EmployeeRow>, g: seq<Bucket>)
  {
    forall j :: 0 <= j < |rows| ==> FindBucket(g, GroupKey(rows[j])) < |g|
  }

  /** Buckets are ordered by the position of the first row of each key. */
  ghost predicate InFirstAppearanceOrder(rows: seq<EmployeeRow>, g: seq<Bucket>)
  {
    forall i, j :: 0 <= i < j < |g| ==>
      FirstRowUnder(rows, g[i].manager) < FirstRowUnder(rows, g[j].manager)
  }

  /** What the fold keeps true of the rows seen so far. */
  ghost predicate Grouped(rows: seq<EmployeeRow>, g: seq<Bucket>)
  {
    && BucketsHoldTheirRows(rows, g)
    && BucketsNonEmpty(g)
    && NamesDistinct(g)
    && EveryKeyHasBucket(rows, g)
    && InFirstAppearanceOrder(rows, g)
  }

  lemma {:induction false} RowsUnderSnoc(rows: seq<EmployeeRow>, row: EmployeeRow, key: string)
    ensures RowsUnder(rows + [row], key)
            == RowsUnder(rows, key) + (if GroupKey(row) == key then [row] else [])
  {
    if |rows| > 0 {
      RowsUnderSnoc(rows[1..], row, key);
      assert (rows + [row])[1..] == rows[1..] + [row];
    }
  }

  lemma {:induction false} FirstRowUnderSnoc(rows: seq<EmployeeRow>, row: EmployeeRow, key: string)
    ensures FirstRowUnder(rows + [row], key)
            == if FirstRowUnder(rows, key) < |rows| || GroupKey(row) == key
               then FirstRowUnder(rows, key) else |rows| + 1
  {
    if |rows| > 0 {
      FirstRowUnderSnoc(rows[1..], row, key);
      assert (rows + [row])[1..] == rows[1..] + [row];
    }
  }

  /** The lookup only looks at bucket names. */
  lemma {:induction false} FindBucketByNames(g: seq<Bucket>, h: seq<Bucket>, key: string)
    requires |g| == |h|
    requires forall b :: 0 <= b < |g| ==> g[b].manager == h[b].manager
    ensures FindBucket(g, key) == FindBucket(h, key)
  {
  }

  /** Opening a bucket at the end does not move the existing ones. */
  lemma {:induction false} FindBucketAppend(g: seq<Bucket>, b: Bucket, key: string)
    ensures FindBucket(g + [b], key)
            == if FindBucket(g, key) < |g| || b.manager == key then FindBucket(g, key) else |g| + 1
  {
    if |g| > 0 && g[0].manager != key {
      FindBucketAppend(g[1..], b, key);
      assert (g + [b])[1..] == g[1..] + [b];
    }
  }

  /** A bucket that holds its rows and is not empty names a key that occurs. */
  lemma {:induction false} BucketNamesOccur(rows: seq<EmployeeRow>, g: seq<Bucket>, i: nat)
    requires BucketsHoldTheirRows(rows, g) && BucketsNonEmpty(g)
    requires i < |g|
    ensures FirstRowUnder(rows, g[i].manager) < |rows|
  {
    var x := g[i].employees[0];
    assert x in RowsUnder(rows, g[i].manager);
    RowsUnderMembers(rows, g[i].manager);
    var j :| 0 <= j < |rows| && rows[j] == x;
    assert GroupKey(rows[j]) == g[i].manager;
  }

  /** A key without a bucket has no rows. */
  lemma {:induction false} UnbucketedKeyHasNoRows(rows: seq<EmployeeRow>, g: seq<Bucket>, key: string)
    requires EveryKeyHasBucket(rows, g)
    requires FindBucket(g, key) == |g|
    ensures RowsUnder(rows, key) == []
    ensures FirstRowUnder(rows, key) == |rows|
  {
    forall j | 0 <= j < |rows| ensures GroupKey(rows[j]) != key {
      assert FindBucket(g, GroupKey(rows[j])) < |g|;
    }
    RowsUnderNone(rows, key);
  }

  /** The bucket for an already-seen key receives the row; every other bucket is left as it was. */
  lemma {:induction false} ExistingKeepsRows(rows: seq<EmployeeRow>, g: seq<Bucket>, row: EmployeeRow)
    requires BucketsHoldTheirRows(rows, g) && NamesDistinct(g)
    requires FindBucket(g, GroupKey(row)) < |g|
    ensures BucketsHoldTheirRows(rows + [row], AddRow(g, row))
  {
    var i := FindBucket(g, GroupKey(row));
    var g' := AddRow(g, row);
    assert g' == g[i := Bucket(GroupKey(row), g[i].employees + [row])];
    forall b | 0 <= b < |g'| ensures g'[b].employees == RowsUnder(rows + [row], g'[b].manager) {
      RowsUnderSnoc(rows, row, g'[b].manager);
      if b != i {
        assert g[b].manager != g[i].manager;
      }
    }
  }

  lemma {:induction false} ExistingKeepsKeys(rows: seq<EmployeeRow>, g: seq<Bucket>, row: EmployeeRow)
    requires EveryKeyHasBucket(rows, g)
    requires FindBucket(g, GroupKey(row)) < |g|
    ensures EveryKeyHasBucket(rows + [row], AddRow(g, row))
  {
    var g' := AddRow(g, row);
    var rows' := rows + [row];
    forall j | 0 <= j < |rows'| ensures FindBucket(g', GroupKey(rows'[j])) < |g'| {
      FindBucketByNames(g, g', GroupKey(rows'[j]));
      if j < |rows| {
        assert rows'[j] == rows[j];
      }
    }
  }

  lemma {:induction false} ExistingKeepsOrder(rows: seq<EmployeeRow>, g: seq<Bucket>, row: EmployeeRow)
    requires BucketsHoldTheirRows(rows, g) && BucketsNonEmpty(g) && InFirstAppearanceOrder(rows, g)
    requires FindBucket(g, GroupKey(row)) < |g|
    ensures InFirstAppearanceOrder(rows + [row], AddRow(g, row))
  {
    var g' := AddRow(g, row);
    forall a, b | 0 <= a < b < |g'|
      ensures FirstRowUnder(rows + [row], g'[a].manager) < FirstRowUnder(rows + [row], g'[b].manager)
    {
      BucketNamesOccur(rows, g, a);
      BucketNamesOccur(rows, g, b);
      FirstRowUnderSnoc(rows, row, g'[a].manager);
      FirstRowUnderSnoc(rows, row, g'[b].manager);
    }
  }

  /** Adding a row whose key already has a bucket keeps the invariant. */
  lemma {:induction false} AddRowToExisting(rows: seq<EmployeeRow>, g: seq<Bucket>, row: EmployeeRow)
    requires Grouped(rows, g)
    requires FindBucket(g, GroupKey(row)) < |g|
    ensures Grouped(rows + [row], AddRow(g, row))
  {
    ExistingKeepsRows(rows, g, row);
    ExistingKeepsKeys(rows, g, row);
    ExistingKeepsOrder(rows, g, row);
  }

  /** A new key's bucket holds just the row; every other bucket is left as it was. */
  lemma {:induction false} NewKeepsRows(rows: seq<EmployeeRow>, g: seq<Bucket>, row: EmployeeRow)
    requires BucketsHoldTheirRows(rows, g) && EveryKeyHasBucket(rows, g)
    requires FindBucket(g, GroupKey(row)) == |g|
    ensures BucketsHoldTheirRows(rows + [row], AddRow(g, row))
  {
    var g' := AddRow(g, row);
    UnbucketedKeyHasNoRows(rows, g, GroupKey(row));
    forall b | 0 <= b < |g'| ensures g'[b].employees == RowsUnder(rows + [row], g'[b].manager) {
      RowsUnderSnoc(rows, row, g'[b].manager);
    }
  }

  lemma {:induction false} NewKeepsKeys(rows: seq<EmployeeRow>, g: seq<Bucket>, row: EmployeeRow)
    requires EveryKeyHasBucket(rows, g)
    requires FindBucket(g, GroupKey(row)) == |g|
    ensures EveryKeyHasBucket(rows + [row], AddRow(g, row))
  {
    var g' := AddRow(g, row);
    var rows' := rows + [row];
    forall j | 0 <= j < |rows'| ensures FindBucket(g', GroupKey(rows'[j])) < |g'| {
      FindBucketAppend(g, Bucket(GroupKey(row), [row]), GroupKey(rows'[j]));
      if j < |rows| {
        assert rows'[j] == rows[j];
      }
    }
  }

  lemma {:induction false} NewKeepsOrder(rows: seq<EmployeeRow>, g: seq<Bucket>, row: EmployeeRow)
    requires BucketsHoldTheirRows(rows, g) && BucketsNonEmpty(g) && EveryKeyHasBucket(rows, g)
    requires InFirstAppearanceOrder(rows, g)
    requires FindBucket(g, GroupKey(row)) == |g|
    ensures InFirstAppearanceOrder(rows + [row], AddRow(g, row))
  {
    var g' := AddRow(g, row);
    UnbucketedKeyHasNoRows(rows, g, GroupKey(row));
    forall a, b | 0 <= a < b < |g'|
      ensures FirstRowUnder(rows + [row], g'[a].manager) < FirstRowUnder(rows + [row], g'[b].manager)
    {
      BucketNamesOccur(rows, g, a);
      FirstRowUnderSnoc(rows, row, g'[a].manager);
      FirstRowUnderSnoc(rows, row, g'[b].manager);
      if b < |g| {
        BucketNamesOccur(rows, g, b);
      }
    }
  }

  /** Adding a row with a key not seen before opens a new bucket at the end and keeps the invariant. */
  lemma {:induction false} AddRowToNew(rows: seq<EmployeeRow>, g: seq<Bucket>, row: EmployeeRow)
    requires Grouped(rows, g)
    requires FindBucket(g, GroupKey(row)) == |g|
    ensures Grouped(rows + [row], AddRow(g, row))
  {
    NewKeepsRows(rows, g, row);
    NewKeepsKeys(rows, g, row);
    NewKeepsOrder(rows, g, row);
  }

  /** Adding one row to a correct grouping of the rows before it gives a correct grouping. */
  lemma {:induction false} AddRowKeepsGrouped(rows: seq<EmployeeRow>, g: seq<Bucket>, row: EmployeeRow)
    requires Grouped(rows, g)
    ensures Grouped(rows + [row], AddRow(g, row))
  {
    if FindBucket(g, GroupKey(row)) < |g| {
      AddRowToExisting(rows, g, row);
    } else {
      AddRowToNew(rows, g, row);
    }
  }

  /** The fold establishes the grouping invariant for every input. */
  lemma {:induction false} GroupByManagerIsGrouped(rows: seq<EmployeeRow>)
    ensures Grouped(rows, GroupByManager(rows))
  {
    if |rows| > 0 {
      var front, last := rows[..|rows| - 1], rows[|rows| - 1];
      assert rows == front + [last];
      GroupByManagerIsGrouped(front);
      assert GroupByManager(rows) == AddRow(GroupByManager(front), last);
      AddRowKeepsGrouped(front, GroupByManager(front), last);
    }
  }

  // ---------------------------------------------------------------------------
  // What the grouping promises

  /** Each bucket holds exactly the rows filed under its name, in the order the query returned them. */
  lemma {:induction false} BucketsAreOrderedFilters(rows: seq<EmployeeRow>)
    ensures var g := GroupByManager(rows);
      forall i :: 0 <= i < |g| ==> g[i].employees == RowsUnder(rows, g[i].manager)
  {
    GroupByManagerIsGrouped(rows);
  }

  /** No bucket is empty. */
  lemma {:induction false} NoEmptyBucket(rows: seq<EmployeeRow>)
    ensures var g := GroupByManager(rows);
      forall i :: 0 <= i < |g| ==> |g[i].employees| > 0
  {
    GroupByManagerIsGrouped(rows);
  }

  /**
   The bucket names are distinct and are exactly the keys that occur among the rows, and the
   buckets come in the order in which their keys first occur.
   */
  lemma {:induction false} BucketNamesAreFirstOccurrences(rows: seq<EmployeeRow>)
    ensures var g := GroupByManager(rows);
      && (forall i, j :: 0 <= i < j < |g| ==> g[i].manager != g[j].manager)
      && (forall key :: key in Managers(g) <==> FirstRowUnder(rows, key) < |rows|)
      && (forall i, j :: 0 <= i < j < |g| ==>
            FirstRowUnder(rows, g[i].manager) < FirstRowUnder(rows, g[j].manager))
  {
    var g := GroupByManager(rows);
    GroupByManagerIsGrouped(rows);
    forall key ensures key in Managers(g) <==> FirstRowUnder(rows, key) < |rows| {
      if key in Managers(g) {
        var i :| 0 <= i < |g| && Managers(g)[i] == key;
        BucketNamesOccur(rows, g, i);
      }
      if FirstRowUnder(rows, key) < |rows| {
        var i := FindBucket(g, GroupKey(rows[FirstRowUnder(rows, key)]));
        assert Managers(g)[i] == key;
      }
    }
  }

  /** Every row is in the bucket named by its key and in no other bucket. */
  lemma {:induction false} EachRowInExactlyOneBucket(rows: seq<EmployeeRow>)
    ensures var g := GroupByManager(rows);
      forall j :: 0 <= j < |rows| ==>
        && FindBucket(g, GroupKey(rows[j])) < |g|
        && rows[j] in g[FindBucket(g, GroupKey(rows[j]))].employees
        && (forall i :: 0 <= i < |g| && rows[j] in g[i].employees ==> i == FindBucket(g, GroupKey(rows[j])))
  {
    var g := GroupByManager(rows);
    GroupByManagerIsGrouped(rows);
    forall j | 0 <= j < |rows|
      ensures FindBucket(g, GroupKey(rows[j])) < |g|
      ensures rows[j] in g[FindBucket(g, GroupKey(rows[j]))].employees
      ensures forall i :: 0 <= i < |g| && rows[j] in g[i].employees ==> i == FindBucket(g, GroupKey(rows[j]))
    {
      var key := GroupKey(rows[j]);
      var b := FindBucket(g, key);
      RowUnderItsKey(rows, j);
      forall i | 0 <= i < |g| && rows[j] in g[i].employees ensures i == b {
        RowsUnderMembers(rows, g[i].manager);
        assert g[i].manager == key;
      }
    }
  }

  /** A row is among the rows filed under its own key. */
  lemma {:induction false} RowUnderItsKey(rows: seq<EmployeeRow>, j: nat)
    requires j < |rows|
    ensures rows[j] in RowsUnder(rows, GroupKey(rows[j]))
  {
    if j > 0 {
      RowUnderItsKey(rows[1..], j - 1);
      assert rows[1..][j - 1] == rows[j];
    }
  }

  /** A row whose manager name is null or empty is listed under "No Manager". */
  lemma {:induction false} UnmanagedRowsUnderNoManager(rows: seq<EmployeeRow>, j: nat)
    requires j < |rows|
    requires rows[j].managerName == None || rows[j].managerName == Some([])
    ensures var g := GroupByManager(rows);
      exists i :: 0 <= i < |g| && g[i].manager == NoManager && rows[j] in g[i].employees
  {
    var g := GroupByManager(rows);
    EachRowInExactlyOneBucket(rows);
    var i := FindBucket(g, GroupKey(rows[j]));
    assert g[i].manager == NoManager && rows[j] in g[i].employees;
  }

  /** A row with a non-empty manager name is listed under exactly that name. */
  lemma {:induction false} ManagedRowsUnderTheirManager(rows: seq<EmployeeRow>, j: nat, name: string)
    requires j < |rows|
    requires rows[j].managerName == Some(name) && name != []
    ensures var g := GroupByManager(rows);
      exists i :: 0 <= i < |g| && g[i].manager == name && rows[j] in g[i].employees
  {
    var g := GroupByManager(rows);
    EachRowInExactlyOneBucket(rows);
    var i := FindBucket(g, GroupKey(rows[j]));
    assert g[i].manager == name && rows[j] in g[i].employees;
  }

  lemma {:induction false} FlattenAppend(g: seq<Bucket>, b: Bucket)
    ensures Flatten(g + [b]) == Flatten(g) + b.employees
  {
    if |g| > 0 {
      FlattenAppend(g[1..], b);
      assert (g + [b])[1..] == g[1..] + [b];
    }
  }

  lemma {:induction false} FlattenPush(g: seq<Bucket>, i: nat, row: EmployeeRow)
    requires i < |g|
    ensures multiset(Flatten(g[i := Bucket(g[i].manager, g[i].employees + [row])]))
            == multiset(Flatten(g)) + multiset{row}
  {
    var g' := g[i := Bucket(g[i].manager, g[i].employees + [row])];
    if i == 0 {
      assert g'[1..] == g[1..];
    } else {
      FlattenPush(g[1..], i - 1, row);
      assert g'[1..] == g[1..][i - 1 := Bucket(g[i].manager, g[i].employees + [row])];
    }
  }

  lemma {:induction false} TotalSizeIsFlattenLength(g: seq<Bucket>)
    ensures TotalSize(g) == |Flatten(g)|
  {
    if |g| > 0 {
      TotalSizeIsFlattenLength(g[1..]);
    }
  }

  /**
   The buckets partition the rows: taken together they hold every row exactly as often as the
   input does, so the bucket sizes add up to the number of rows.
   */
  lemma {:induction false} GroupingPartitionsRows(rows: seq<EmployeeRow>)
    ensures multiset(Flatten(GroupByManager(rows))) == multiset(rows)
    ensures TotalSize(GroupByManager(rows)) == |rows|
  {
    var g := GroupByManager(rows);
    if |rows| > 0 {
      var front := rows[..|rows| - 1];
      var row := rows[|rows| - 1];
      GroupingPartitionsRows(front);
      assert front + [row] == rows;
      var h := GroupByManager(front);
      var i := FindBucket(h, GroupKey(row));
      if i < |h| {
        FlattenPush(h, i, row);
      } else {
        FlattenAppend(h, Bucket(GroupKey(row), [row]));
      }
    }
    TotalSizeIsFlattenLength(g);
    assert |multiset(Flatten(g))| == |Flatten(g)|;
  }

  /** Non-empty buckets hold at least one row each. */
  lemma {:induction false} NonEmptyBucketsAtMostSize(g: seq<Bucket>)
    requires forall i :: 0 <= i < |g| ==> |g[i].employees| > 0
    ensures |g| <= TotalSize(g)
  {
    if |g| > 0 {
      assert forall i :: 0 <= i < |g[1..]| ==> |g[1..][i].employees| > 0 by {
        forall i | 0 <= i < |g[1..]| ensures |g[1..][i].employees| > 0 {
          assert g[1..][i] == g[i + 1];
        }
      }
      NonEmptyBucketsAtMostSize(g[1..]);
    }
  }

  /** There are never more buckets than rows. */
  lemma {:induction false} AtMostOneBucketPerRow(rows: seq<EmployeeRow>)
    ensures |GroupByManager(rows)| <= |rows|
  {
    NoEmptyBucket(rows);
    GroupingPartitionsRows(rows);
    NonEmptyBucketsAtMostSize(GroupByManager(rows));
  }

  /** `before` holds of every earlier/later pair of the sequence. */
  ghost predicate SortedBy(rows: seq<EmployeeRow>, before: (EmployeeRow, EmployeeRow) -> bool)
  {
    forall i, j :: 0 <= i < j < |rows| ==> before(rows[i], rows[j])
  }

  lemma {:induction false} RowsUnderKeepsOrder(rows: seq<EmployeeRow>, key: string, before: (EmployeeRow, EmployeeRow) -> bool)
    requires SortedBy(rows, before)
    ensures SortedBy(RowsUnder(rows, key), before)
  {
    if |rows| > 0 {
      assert SortedBy(rows[1..], before);
      RowsUnderKeepsOrder(rows[1..], key, before);
      var rest := RowsUnder(rows[1..], key);
      RowsUnderMembers(rows[1..], key);
      forall x | x in rest ensures before(rows[0], x) {
        var j :| 0 <= j < |rows[1..]| && rows[1..][j] == x;
        assert rows[j + 1] == x;
      }
    }
  }

  /**
   Whatever order the query returned the rows in (by last name, then first name), every
   bucket lists its employees in that same order.
   */
  lemma {:induction false} BucketsKeepQueryOrder(rows: seq<EmployeeRow>, before: (EmployeeRow, EmployeeRow) -> bool)
    requires SortedBy(rows, before)
    ensures var g := GroupByManager(rows);
      forall i :: 0 <= i < |g| ==> SortedBy(g[i].employees, before)
  {
    var g := GroupByManager(rows);
    GroupByManagerIsGrouped(rows);
    assert BucketsHoldTheirRows(rows, g);
    forall i | 0 <= i < |g| ensures SortedBy(g[i].employees, before) {
      RowsUnderKeepsOrder(rows, g[i].manager, before);
    }
  }

  // ---------------------------------------------------------------------------
  // The print loop

  /** The line logged before the buckets (after a blank line, since the text starts with a newline). */
  const Heading: string := "Employees by manager:"

  /** `  ${first_name} ${last_name} | ${title} | ${department_name}`. */
  function EmployeeLine(e: EmployeeRow): string
  {
    "  " + e.firstName + " " + e.lastName + " | " + e.title + " | " + e.departmentName
  }

  /** A blank line, the manager name with a colon, then one line per employee. */
  function BucketLines(b: Bucket): seq<string>
  {
    [[], b.manager + ":"]
      + seq(|b.employees|, k requires 0 <= k < |b.employees| => EmployeeLine(b.employees[k]))
  }

  function BucketsLines(g: seq<Bucket>): seq<string>
  {
    if |g| == 0 then [] else BucketLines(g[0]) + BucketsLines(g[1..])
  }

  /** The lines the display loop logs for the grouped rows, in order. */
  function DisplayByManager(g: seq<Bucket>): seq<string>
  {
    [[], Heading] + BucketsLines(g)
  }

  /** Where the block of bucket `i` begins among the bucket lines. */
  function BlockStart(g: seq<Bucket>, i: nat): nat
    requires i <= |g|
  {
    if i == 0 then 0 else 2 + |g[0].employees| + BlockStart(g[1..], i - 1)
  }

  lemma {:induction false} BucketsLinesLength(g: seq<Bucket>)
    ensures |BucketsLines(g)| == 2 * |g| + TotalSize(g)
  {
    if |g| > 0 {
      BucketsLinesLength(g[1..]);
    }
  }

  /** Each bucket's block begins right where the previous bucket's block ends, so blocks follow bucket order. */
  lemma {:induction false} BlocksAreConsecutive(g: seq<Bucket>, i: nat)
    requires i < |g|
    ensures BlockStart(g, i + 1) == BlockStart(g, i) + 2 + |g[i].employees|
  {
    if i > 0 {
      BlocksAreConsecutive(g[1..], i - 1);
      assert g[1..][i - 1] == g[i];
    }
  }

  lemma {:induction false} BucketsLinesBlock(g: seq<Bucket>, i: nat)
    requires i < |g|
    ensures BlockStart(g, i) + 2 + |g[i].employees| <= |BucketsLines(g)|
    ensures BucketsLines(g)[BlockStart(g, i) .. BlockStart(g, i) + 2 + |g[i].employees|] == BucketLines(g[i])
  {
    assert BucketsLines(g) == BucketLines(g[0]) + BucketsLines(g[1..]);
    if i > 0 {
      BucketsLinesBlock(g[1..], i - 1);
      assert g[1..][i - 1] == g[i];
      var s := BlockStart(g[1..], i - 1);
      SliceAfterPrefix(BucketLines(g[0]), BucketsLines(g[1..]), s, s + 2 + |g[i].employees|);
    }
  }

  /**
   The display is the heading and then, for each bucket in order, a blank line, the manager
   name with a colon and one line per employee of that bucket in bucket order.
   */
  lemma {:induction false} DisplayBlocks(g: seq<Bucket>, i: nat)
    requires i < |g|
    ensures var lines, s := DisplayByManager(g), 2 + BlockStart(g, i);
      && s + 2 + |g[i].employees| <= |lines|
      && lines[s] == [] && lines[s + 1] == g[i].manager + ":"
      && forall k :: 0 <= k < |g[i].employees| ==> lines[s + 2 + k] == EmployeeLine(g[i].employees[k])
  {
    BucketsLinesBlock(g, i);
    var lines, b, n := DisplayByManager(g), BlockStart(g, i), 2 + |g[i].employees|;
    var block := BucketLines(g[i]);
    SliceAfterPrefix([[], Heading], BucketsLines(g), b, b + n);
    assert lines[2 + b .. 2 + b + n] == block;
    assert lines[2 + b] == block[0];
    assert lines[2 + b + 1] == block[1];
    forall k | 0 <= k < |g[i].employees| ensures lines[2 + b + 2 + k] == EmployeeLine(g[i].employees[k]) {
      assert lines[2 + b + 2 + k] == block[2 + k];
    }
  }

  /** Printing the grouping of the rows logs a blank line and the heading, then two lines per bucket and one per row. */
  lemma {:induction false} DisplayLineCount(rows: seq<EmployeeRow>)
    ensures var lines := DisplayByManager(GroupByManager(rows));
      && |lines| == 2 + 2 * |GroupByManager(rows)| + |rows|
      && lines[0] == [] && lines[1] == Heading
  {
    BucketsLinesLength(GroupByManager(rows));
    GroupingPartitionsRows(rows);
  }
}
