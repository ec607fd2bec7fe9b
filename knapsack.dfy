/** The exact 0/1 knapsack solver: the bottom-up table fill and the
    backtracking walk that recovers the taken items, over arrays as the
    solver keeps them. */
module Knapsack {
  import opened KnapsackSpec

  /** What the solver reports: the value of the last table cell, the
      optimality flag it writes out, and one 0/1 flag per item. */
  datatype Solution = Solution(value: int, optimalFlag: int, taken: seq<int>)

  /** The items built from the (value, weight) pairs, each remembering its
      input position as its index. */
  function ItemsOf(pairs: seq<(int, int)>): (items: seq<Item>)
    ensures |items| == |pairs| && Indexed(items)
    ensures forall k :: 0 <= k < |pairs| ==> items[k].value == pairs[k].0 && items[k].weight == pairs[k].1
  {
    seq(|pairs|, k requires 0 <= k < |pairs| => Item(k, pairs[k].0, pairs[k].1))
  }

  /** Fills the (|items| + 1) x (capacity + 1) table row by row; row 0 and
      column 0 keep the zeros they start with. */
  method BuildTable(items: seq<Item>, capacity: nat) returns (table: array2<int>)
    requires WeightsNonNegative(items)
    ensures table.Length0 == |items| + 1 && table.Length1 == capacity + 1
    ensures forall c :: 0 <= c <= capacity ==> table[0, c] == 0
    ensures forall i :: 0 <= i <= |items| ==> table[i, 0] == 0
    ensures forall i, c :: 1 <= i <= |items| && 1 <= c <= capacity ==>
      table[i, c] == if items[i - 1].weight <= c
                     then Max(table[i - 1, c], table[i - 1, c - items[i - 1].weight] + items[i - 1].value)
                     else table[i - 1, c]
    ensures forall i, c :: 0 <= i <= |items| && 0 <= c <= capacity ==> table[i, c] == TableCell(items, i, c)
  {
    var n := |items|;
    table := new int[n + 1, capacity + 1]((_, _) => 0);
    for i := 1 to n + 1
      invariant forall r, c :: 0 <= r < i && 0 <= c <= capacity ==> table[r, c] == TableCell(items, r, c)
      invariant forall r, c :: i <= r <= n && 0 <= c <= capacity ==> table[r, c] == 0
    {
      FillRow(items, table, i);
    }
    forall i, c | 1 <= i <= n && 1 <= c <= capacity
      ensures table[i, c] == if items[i - 1].weight <= c
                             then Max(table[i - 1, c], table[i - 1, c - items[i - 1].weight] + items[i - 1].value)
                             else table[i - 1, c]
    {
      CellRecurrence(items, i, c);
    }
  }

  /** Fills row i from column 1 upwards out of row i - 1: a cell copies the
      one above it when item i - 1 does not fit, and otherwise takes the
      better of leaving the item out and taking it. */
  method FillRow(items: seq<Item>, table: array2<int>, i: nat)
    requires WeightsNonNegative(items)
    requires 1 <= i < table.Length0 == |items| + 1 && 1 <= table.Length1
    requires forall r, c :: 0 <= r < i && 0 <= c < table.Length1 ==> table[r, c] == TableCell(items, r, c)
    requires table[i, 0] == 0
    modifies table
    ensures forall c :: 0 <= c < table.Length1 ==> table[i, c] == TableCell(items, i, c)
    ensures forall r, c :: 0 <= r < table.Length0 && r != i && 0 <= c < table.Length1 ==> table[r, c] == old(table[r, c])
  {
    for activeCapacity := 1 to table.Length1
      invariant forall c :: 0 <= c < activeCapacity ==> table[i, c] == TableCell(items, i, c)
      invariant forall r, c :: 0 <= r < table.Length0 && r != i && 0 <= c < table.Length1 ==> table[r, c] == old(table[r, c])
    {
      var item := items[i - 1];
      CellRecurrence(items, i, activeCapacity);
      if item.weight <= activeCapacity {
        table[i, activeCapacity] := Max(table[i - 1, activeCapacity],
                                        table[i - 1, activeCapacity - item.weight] + item.value);
      } else {
        table[i, activeCapacity] := table[i - 1, activeCapacity];
      }
    }
  }

  /** Walks from cell (|items|, capacity) up to row 0, keeping the running
      value and the remaining capacity, skipping an item whenever the cell
      above holds the running value and taking it otherwise; it stops early
      once the running value is no longer positive. */
  method Backtrack(items: seq<Item>, capacity: nat, table: array2<int>) returns (taken: array<int>)
    requires Indexed(items) && WeightsNonNegative(items)
    requires table.Length0 == |items| + 1 && table.Length1 == capacity + 1
    requires forall i, c :: 0 <= i <= |items| && 0 <= c <= capacity ==> table[i, c] == TableCell(items, i, c)
    ensures taken.Length == |items| && taken[..] == Walk(items, |items|, capacity)
  {
    var n := |items|;
    var value := table[n, capacity];
    taken := new int[n](_ => 0);
    var activeCapacity := capacity;
    var i := n;
    ghost var whole := Walk(items, n, capacity);
    while i > 0
      invariant 0 <= i <= n && 0 <= activeCapacity <= capacity
      invariant value == table[i, activeCapacity]
      invariant forall k :: 0 <= k < i ==> taken[k] == 0
      invariant forall k :: i <= k < n ==> taken[k] == whole[k]
      invariant whole[..i] == Walk(items, i, activeCapacity)
    {
      if value <= 0 {
        break;
      }
      WalkUnfold(items, i, activeCapacity, whole);
      if value == table[i - 1, activeCapacity] {
        // item i - 1 is left out; its flag stays 0
      } else {
        taken[items[i - 1].index] := 1;
        value := value - items[i - 1].value;
        activeCapacity := activeCapacity - items[i - 1].weight;
      }
      i := i - 1;
    }
    // Either row 0 was reached or the running value stopped being positive.
    WalkStopsAtZero(items, i, activeCapacity, whole);
    assert taken[..] == whole;
  }

  /** The solver's entry point: builds the table, reads off the optimal value
      from its last cell and recovers the selection. The optimality flag is
      written as the literal 0. */
  method Solve(pairs: seq<(int, int)>, capacity: nat) returns (solution: Solution)
    requires forall k :: 0 <= k < |pairs| ==> pairs[k].1 >= 0
    ensures solution.value == TableCell(ItemsOf(pairs), |pairs|, capacity)
    ensures solution.taken == Walk(ItemsOf(pairs), |pairs|, capacity)
    ensures solution.optimalFlag == 0
    ensures |solution.taken| == |pairs| && Feasible(ItemsOf(pairs), solution.taken, capacity)
    ensures TotalValue(ItemsOf(pairs), solution.taken) == solution.value
    ensures WeightsPositive(ItemsOf(pairs)) ==>
      forall sel :: |sel| == |pairs| && Feasible(ItemsOf(pairs), sel, capacity) ==>
        TotalValue(ItemsOf(pairs), sel) <= solution.value
  {
    var items := ItemsOf(pairs);
    var table := BuildTable(items, capacity);
    var taken := Backtrack(items, capacity, table);
    solution := Solution(table[|items|, capacity], 0, taken[..]);
    WalkSound(items, |items|, capacity);
    if WeightsPositive(items) {
      TableCellIsOptimum(items, |items|, capacity);
    }
  }
}
