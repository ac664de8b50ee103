/**
 Rows of a table as a sequence in insertion order, with the few relational
 operations the schema uses: counting, UPDATE ... WHERE and DELETE ... WHERE.
 */
module Tables {

  datatype Option<+T> = None | Some(value: T)

  /** The number of rows that satisfy a condition. */
  function Count<T>(rows: seq<T>, hit: T -> bool): nat
  {
    if |rows| == 0 then 0
    else Count(rows[..|rows| - 1], hit) + (if hit(rows[|rows| - 1]) then 1 else 0)
  }

  /** UPDATE rows SET ... WHERE hit. */
  function UpdateWhere<T>(rows: seq<T>, hit: T -> bool, change: T -> T): (r: seq<T>)
    ensures |r| == |rows|
    ensures forall i :: 0 <= i < |r| ==> r[i] == if hit(rows[i]) then change(rows[i]) else rows[i]
  {
    seq(|rows|, i requires 0 <= i < |rows| => if hit(rows[i]) then change(rows[i]) else rows[i])
  }

  /** DELETE FROM rows WHERE hit. */
  function DeleteWhere<T(!new)>(rows: seq<T>, hit: T -> bool): (r: seq<T>)
    ensures |r| == |rows| - Count(rows, hit)
    ensures forall x :: x in r <==> x in rows && !hit(x)
  {
    if |rows| == 0 then []
    else
      var rest := DeleteWhere(rows[..|rows| - 1], hit);
      assert rows == rows[..|rows| - 1] + [rows[|rows| - 1]];
      if hit(rows[|rows| - 1]) then rest else rest + [rows[|rows| - 1]]
  }

  lemma CountAppend<T>(rows: seq<T>, x: T, hit: T -> bool)
    ensures Count(rows + [x], hit) == Count(rows, hit) + (if hit(x) then 1 else 0)
  {
    assert (rows + [x])[..|rows|] == rows;
  }

  lemma {:induction false} CountConcat<T>(a: seq<T>, b: seq<T>, hit: T -> bool)
    ensures Count(a + b, hit) == Count(a, hit) + Count(b, hit)
  {
    if |b| == 0 {
      assert a + b == a;
    } else {
      var n := |b| - 1;
      assert (a + b)[..|a| + n] == a + b[..n];
      CountConcat(a, b[..n], hit);
    }
  }

  lemma {:induction false} CountPositive<T>(rows: seq<T>, hit: T -> bool)
    ensures Count(rows, hit) > 0 <==> exists i :: 0 <= i < |rows| && hit(rows[i])
  {
    if |rows| > 0 {
      var n := |rows| - 1;
      CountPositive(rows[..n], hit);
      if Count(rows[..n], hit) > 0 {
        var i :| 0 <= i < n && hit(rows[..n][i]);
        assert hit(rows[i]);
      }
    }
  }

  /** If at most one row can satisfy the condition and row `at` does, the count is one. */
  lemma {:induction false} CountUnique<T>(rows: seq<T>, hit: T -> bool, at: nat)
    requires at < |rows| && hit(rows[at])
    requires forall i :: 0 <= i < |rows| && i != at ==> !hit(rows[i])
    ensures Count(rows, hit) == 1
  {
    CountConcat(rows[..at], rows[at..], hit);
    CountConcat([rows[at]], rows[at + 1..], hit);
    assert rows == rows[..at] + rows[at..];
    assert rows[at..] == [rows[at]] + rows[at + 1..];
    CountPositive(rows[..at], hit);
    CountPositive(rows[at + 1..], hit);
    CountAppend([], rows[at], hit);
    assert [] + [rows[at]] == [rows[at]];
  }

  /** Updating columns a condition does not read leaves its count alone. */
  lemma {:induction false} CountUpdated<T>(rows: seq<T>, rows': seq<T>, hit: T -> bool)
    requires |rows| == |rows'|
    requires forall i :: 0 <= i < |rows| ==> hit(rows[i]) == hit(rows'[i])
    ensures Count(rows, hit) == Count(rows', hit)
  {
    if |rows| > 0 {
      CountUpdated(rows[..|rows| - 1], rows'[..|rows| - 1], hit);
    }
  }

  lemma {:induction false} SameCondition<T>(rows: seq<T>, f: T -> bool, g: T -> bool)
    requires forall x :: x in rows ==> f(x) == g(x)
    ensures Count(rows, f) == Count(rows, g)
  {
    if |rows| > 0 {
      SameCondition(rows[..|rows| - 1], f, g);
    }
  }

  /** The sum of one integer column. */
  function Sum<T>(rows: seq<T>, column: T -> int): int
  {
    if |rows| == 0 then 0 else Sum(rows[..|rows| - 1], column) + column(rows[|rows| - 1])
  }
}
