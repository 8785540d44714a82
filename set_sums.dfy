/**
 * Sums over a set of station names, independent of any order, and column sums of a table
 * whose rows carry distinct names. A column sum over a table is the set sum over its names:
 * the order of the rows (group order, display order) does not change a total.
 */
module SetSums {

  /** The sum of f over the names in S. */
  ghost function SetSum(S: set<string>, f: string -> int): int
    decreases |S|
  {
    if S == {} then 0
    else
      var s :| s in S;
      f(s) + SetSum(S - {s}, f)
  }

  /** Any member can be taken out first. */
  lemma SetSumRemove(S: set<string>, x: string, f: string -> int)
    requires x in S
    ensures SetSum(S, f) == f(x) + SetSum(S - {x}, f)
    decreases |S|
  {
    var y :| y in S && SetSum(S, f) == f(y) + SetSum(S - {y}, f);
    if y != x {
      SetSumRemove(S - {y}, x, f);
      SetSumRemove(S - {x}, y, f);
      assert S - {y} - {x} == S - {x} - {y};
    }
  }

  /** Names on which f is 0 add nothing. */
  lemma SetSumZeroOutside(S: set<string>, T: set<string>, f: string -> int)
    requires S <= T
    requires forall s :: s in T && s !in S ==> f(s) == 0
    ensures SetSum(T, f) == SetSum(S, f)
    decreases |T|
  {
    if T != S {
      var x :| x in T && x !in S;
      SetSumRemove(T, x, f);
      SetSumZeroOutside(S, T - {x}, f);
    }
  }

  /** The sum of a column over the rows of a table. */
  function SumBy<T>(rows: seq<T>, col: T -> int): int
  {
    if rows == [] then 0 else SumBy(rows[..|rows| - 1], col) + col(rows[|rows| - 1])
  }

  /** The names of the rows of a table. */
  function NamesBy<T>(rows: seq<T>, name: T -> string): set<string>
  {
    set i | 0 <= i < |rows| :: name(rows[i])
  }

  /**
   * A column whose value in each row is f of the row's name sums, over rows with distinct
   * names, to the set sum of f over those names.
   */
  lemma {:induction false} SumAsSetSum<T>(rows: seq<T>, name: T -> string, col: T -> int, f: string -> int)
    requires forall i, j :: 0 <= i < j < |rows| ==> name(rows[i]) != name(rows[j])
    requires forall i :: 0 <= i < |rows| ==> col(rows[i]) == f(name(rows[i]))
    ensures SumBy(rows, col) == SetSum(NamesBy(rows, name), f)
  {
    if rows != [] {
      var n := |rows| - 1;
      var pre := rows[..n];
      var last := name(rows[n]);
      SumAsSetSum(pre, name, col, f);
      assert NamesBy(rows, name) - {last} == NamesBy(pre, name) by {
        forall s | s in NamesBy(rows, name) - {last} ensures s in NamesBy(pre, name) {
          var i :| 0 <= i < |rows| && name(rows[i]) == s;
          assert pre[i] == rows[i];
        }
        forall s | s in NamesBy(pre, name) ensures s in NamesBy(rows, name) - {last} {
          var i :| 0 <= i < |pre| && name(pre[i]) == s;
          assert rows[i] == pre[i];
        }
      }
      assert last in NamesBy(rows, name);
      SetSumRemove(NamesBy(rows, name), last, f);
    }
  }

  /** A column that is the difference of two others sums to the difference of their sums. */
  lemma {:induction false} SumByDifference<T>(rows: seq<T>, c: T -> int, a: T -> int, b: T -> int)
    requires forall i :: 0 <= i < |rows| ==> c(rows[i]) == a(rows[i]) - b(rows[i])
    ensures SumBy(rows, c) == SumBy(rows, a) - SumBy(rows, b)
  {
    if rows != [] {
      SumByDifference(rows[..|rows| - 1], c, a, b);
    }
  }
}
