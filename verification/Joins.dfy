/** SELECT: filters, left joins, and ORDER BY ... DESC LIMIT. */
module Joins {
  import opened Tables

  function Where<T>(rows: seq<T>, hit: T -> bool): (r: seq<T>)
    ensures |r| == Count(rows, hit)
    ensures forall i :: 0 <= i < |r| ==> r[i] in rows && hit(r[i])
  {
    if |rows| == 0 then []
    else
      var n := |rows| - 1;
      var rest := Where(rows[..n], hit);
      assert forall x :: x in rows[..n] ==> x in rows;
      if hit(rows[n]) then rest + [rows[n]] else rest
  }

  function Matching<L, R>(on: (L, R) -> bool, l: L): R -> bool {
    (r: R) => on(l, r)
  }

  function Pairs<L, R>(l: L, rows: seq<R>): (r: seq<(L, Option<R>)>)
    ensures |r| == |rows|
    ensures forall i :: 0 <= i < |r| ==> r[i] == (l, Some(rows[i]))
  {
    seq(|rows|, i requires 0 <= i < |rows| => (l, Some(rows[i])))
  }

  /** One left row with every match, or once with NULLs if there is none. */
  function Expand<L, R>(l: L, right: seq<R>, on: (L, R) -> bool): seq<(L, Option<R>)> {
    var matches := Where(right, Matching(on, l));
    if |matches| == 0 then [(l, None)] else Pairs(l, matches)
  }

  function LeftJoin<L, R>(left: seq<L>, right: seq<R>, on: (L, R) -> bool): seq<(L, Option<R>)> {
    if |left| == 0 then []
    else LeftJoin(left[..|left| - 1], right, on) + Expand(left[|left| - 1], right, on)
  }

  /** `j` is the left row with its only match, or with NULL when there is none. */
  ghost predicate Joined<L, R(!new)>(j: (L, Option<R>), l: L, right: seq<R>, on: (L, R) -> bool) {
    j.0 == l &&
    match j.1
    case Some(r) => r in right && on(l, r)
    case None => forall r :: r in right ==> !on(l, r)
  }

  lemma ExpandUnique<L, R(!new)>(l: L, right: seq<R>, on: (L, R) -> bool)
    requires Count(right, Matching(on, l)) <= 1
    ensures |Expand(l, right, on)| == 1 && Joined(Expand(l, right, on)[0], l, right, on)
  {
    CountPositive(right, Matching(on, l));
    var matches := Where(right, Matching(on, l));
    if |matches| == 0 {
      forall r | r in right ensures !on(l, r) {
        var i :| 0 <= i < |right| && right[i] == r;
        assert !Matching(on, l)(right[i]);
      }
    }
  }

  /** A join whose condition matches at most one row neither duplicates nor drops a left row. */
  lemma {:induction false} LeftJoinUnique<L, R(!new)>(left: seq<L>, right: seq<R>, on: (L, R) -> bool)
    requires forall i :: 0 <= i < |left| ==> Count(right, Matching(on, left[i])) <= 1
    ensures |LeftJoin(left, right, on)| == |left|
    ensures forall i :: 0 <= i < |left| ==> Joined(LeftJoin(left, right, on)[i], left[i], right, on)
  {
    hide Expand, Joined, Count;
    if |left| > 0 {
      var n := |left| - 1;
      forall i | 0 <= i < n ensures Count(right, Matching(on, left[..n][i])) <= 1 {
        assert left[..n][i] == left[i];
      }
      LeftJoinUnique(left[..n], right, on);
      ExpandUnique(left[n], right, on);
      var init := LeftJoin(left[..n], right, on);
      assert LeftJoin(left, right, on) == init + Expand(left[n], right, on);
      forall i | 0 <= i < |left| ensures Joined(LeftJoin(left, right, on)[i], left[i], right, on) {
        if i < n {
          assert Joined(init[i], left[..n][i], right, on);
        }
      }
    }
  }

  ghost predicate InOrder<T>(rows: seq<T>, before: (T, T) -> bool) {
    forall i, j :: 0 <= i < j < |rows| ==> before(rows[i], rows[j])
  }

  lemma {:induction false} WhereKeepsOrder<T>(rows: seq<T>, hit: T -> bool, before: (T, T) -> bool)
    requires InOrder(rows, before)
    ensures InOrder(Where(rows, hit), before)
    ensures forall x :: x in rows && hit(x) ==> x in Where(rows, hit)
  {
    if |rows| > 0 {
      var n := |rows| - 1;
      assert InOrder(rows[..n], before);
      WhereKeepsOrder(rows[..n], hit, before);
      var rest := Where(rows[..n], hit);
      forall k | 0 <= k < |rest| ensures before(rest[k], rows[n]) {
        var i :| 0 <= i < n && rows[..n][i] == rest[k];
        assert before(rows[i], rows[n]);
      }
      assert InOrder(rest + [rows[n]], before);
    }
  }

  lemma WhereIs<T(!new)>(rows: seq<T>, hit: T -> bool)
    ensures forall x :: x in Where(rows, hit) <==> x in rows && hit(x)
  {
    WhereKeepsOrder(rows, hit, (x: T, y: T) => true);
  }

  ghost predicate Aligned<A, B>(a: seq<A>, b: seq<B>, rel: (A, B) -> bool) {
    |a| == |b| && forall i :: 0 <= i < |a| ==> rel(a[i], b[i])
  }

  lemma AlignedLast<A, B>(a: seq<A>, b: seq<B>, x: A, y: B, rel: (A, B) -> bool)
    requires Aligned(a, b, rel) && rel(x, y)
    ensures Aligned(a + [x], b + [y], rel)
  {
  }

  lemma WhereLast<T>(rows: seq<T>, x: T, hit: T -> bool)
    ensures Where(rows + [x], hit) == Where(rows, hit) + (if hit(x) then [x] else [])
  {
    assert (rows + [x])[..|rows|] == rows;
  }

  /** Filtering two aligned lists by conditions that agree keeps them aligned. */
  lemma {:induction false} WhereAligned<A, B>(a: seq<A>, b: seq<B>, hit: A -> bool, hit': B -> bool,
                                              rel: (A, B) -> bool)
    requires Aligned(a, b, rel)
    requires forall i :: 0 <= i < |a| ==> hit(a[i]) == hit'(b[i])
    ensures Aligned(Where(a, hit), Where(b, hit'), rel)
  {
    if |a| == 0 {
      assert a == [] && b == [];
    } else {
      hide Where;
      var n := |a| - 1;
      WhereAligned(a[..n], b[..n], hit, hit', rel);
      WhereLast(a[..n], a[n], hit);
      WhereLast(b[..n], b[n], hit');
      assert a == a[..n] + [a[n]] && b == b[..n] + [b[n]];
      assert rel(a[n], b[n]) && hit(a[n]) == hit'(b[n]);
      AlignedLast(Where(a[..n], hit), Where(b[..n], hit'), a[n], b[n], rel);
    }
  }

  /**
   `answer` is a possible result of ORDER BY key DESC LIMIT `limit`: it lists rows
   at distinct positions, in descending order, as many as there are up to the
   limit, and no row left out has a greater key. Ties are broken at will.
   */
  ghost predicate TopBy<T>(rows: seq<T>, key: T -> int, limit: nat, at: seq<nat>) {
    |at| == (if |rows| < limit then |rows| else limit) &&
    (forall k :: 0 <= k < |at| ==> at[k] < |rows|) &&
    (forall k, l :: 0 <= k < l < |at| ==> at[k] != at[l] && key(rows[at[l]]) <= key(rows[at[k]])) &&
    forall i, k :: 0 <= i < |rows| && i !in at && 0 <= k < |at| ==> key(rows[i]) <= key(rows[at[k]])
  }

  function Below(n: nat): (r: set<nat>)
    ensures |r| == n && forall i: nat :: i in r <==> i < n
  {
    if n == 0 then {} else Below(n - 1) + {n - 1}
  }

  /** As many distinct positions as there are rows are all the positions. */
  lemma {:induction false} DistinctFill(at: seq<nat>, n: nat, i: nat)
    requires |at| == n && i < n
    requires forall k :: 0 <= k < |at| ==> at[k] < n
    requires forall k, l :: 0 <= k < l < |at| ==> at[k] != at[l]
    ensures i in at
  {
    var hits := set k | 0 <= k < |at| :: at[k];
    Distinct(at);
    if i !in at {
      Subset(hits, Below(n) - {i});
    }
  }

  lemma {:induction false} Distinct(at: seq<nat>)
    requires forall k, l :: 0 <= k < l < |at| ==> at[k] != at[l]
    ensures |set k | 0 <= k < |at| :: at[k]| == |at|
  {
    if |at| > 0 {
      var n := |at| - 1;
      Distinct(at[..n]);
      var rest := set k | 0 <= k < n :: at[..n][k];
      assert (set k | 0 <= k < |at| :: at[k]) == rest + {at[n]};
    }
  }

  lemma {:induction false} Subset<T>(a: set<T>, b: set<T>)
    requires a <= b
    ensures |a| <= |b|
  {
    if a != {} {
      var x :| x in a;
      Subset(a - {x}, b - {x});
    }
  }
}
