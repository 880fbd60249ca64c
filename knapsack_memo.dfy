/** 0/1 knapsack by the same recursion, remembering every solved
    `(items, capacity)` pair in a table so that each is solved once. */
module KnapsackMemo {
  import Naive = Knapsack

  /** A table entry: not solved yet, or the solved value. */
  datatype Cell = None | Some(value: int)

  /** A table with a row for every item count `0..n` and a column for every
      capacity `0..C`, nothing solved yet. */
  method InitializeMemo(n: nat, C: nat) returns (arr: array2<Cell>)
    ensures fresh(arr) && arr.Length0 == n + 1 && arr.Length1 == C + 1
    ensures forall i, c :: 0 <= i <= n && 0 <= c <= C ==> arr[i, c] == None
  {
    arr := new Cell[n + 1, C + 1]((_, _) => None);
  }

  /** Every solved entry `arr[i, c]` holds the value of the plain recursion
      for the first `i` items and capacity `c`. */
  ghost predicate Consistent(arr: array2<Cell>, w: seq<int>, v: seq<int>)
    reads arr
  {
    forall i, c :: 0 <= i < arr.Length0 && 0 <= c < arr.Length1 && arr[i, c].Some? ==>
      i <= |w| && i <= |v| && arr[i, c].value == Naive.Knapsack(i, c, w, v)
  }

  /** The best value of the first `n` items within capacity `C`, looked up
      when already solved and otherwise solved and stored. Solved entries
      never change, and a solved `(n, C)` leaves the table untouched. */
  method Knapsack(n: nat, C: int, w: seq<int>, v: seq<int>, arr: array2<Cell>) returns (result: int)
    requires n <= |w| && n <= |v| && n < arr.Length0 && 0 <= C < arr.Length1
    requires Naive.NonNegative(w, n) && Consistent(arr, w, v)
    modifies arr
    ensures result == Naive.Knapsack(n, C, w, v)
    ensures Consistent(arr, w, v) && arr[n, C] == Some(result)
    ensures forall i, c :: 0 <= i < arr.Length0 && 0 <= c < arr.Length1 && old(arr[i, c]).Some? ==>
              arr[i, c] == old(arr[i, c])
    ensures old(arr[n, C]).Some? ==> unchanged(arr)
    decreases n
  {
    if arr[n, C].Some? {
      return arr[n, C].value;
    }
    if n == 0 || C == 0 {
      result := 0;
    } else if w[n - 1] > C {
      result := Knapsack(n - 1, C, w, v, arr);
    } else {
      var tmp1 := Knapsack(n - 1, C, w, v, arr);
      var tmp2 := Knapsack(n - 1, C - w[n - 1], w, v, arr);
      tmp2 := v[n - 1] + tmp2;
      result := Naive.Max(tmp1, tmp2);
    }
    arr[n, C] := Some(result);
  }

  /** Builds a fresh table and solves the whole instance: the same value
      as the plain recursion. */
  method MaxValue(n: nat, C: nat, w: seq<int>, v: seq<int>) returns (maxValue: int)
    requires n <= |w| && n <= |v| && Naive.NonNegative(w, n)
    ensures maxValue == Naive.Knapsack(n, C, w, v)
  {
    var arr := InitializeMemo(n, C);
    maxValue := Knapsack(n, C, w, v, arr);
  }
}
