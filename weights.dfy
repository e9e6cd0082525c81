/** Counting facts about 0/1 grids used by the parity-check construction and
    the Tanner graph: row weights, column weights, occurrence counts, sums of
    counters and the pigeonhole arguments on them. */
module Weights {
  import opened Matrices

  /** Number of nonzero cells of a row (its weight). */
  function RowWeight(row: seq<Byte>): nat
  {
    if row == [] then 0
    else RowWeight(row[..|row| - 1]) + (if row[|row| - 1] != 0 then 1 else 0)
  }

  /** Number of rows whose cell in column `c` is nonzero. */
  function ColCount(rows: seq<seq<Byte>>, c: nat): nat
  {
    if rows == [] then 0
    else
      var last := rows[|rows| - 1];
      ColCount(rows[..|rows| - 1], c) + (if c < |last| && last[c] != 0 then 1 else 0)
  }

  /** Number of occurrences of `x` in `s`. */
  function Count(s: seq<nat>, x: nat): nat
  {
    if s == [] then 0 else Count(s[..|s| - 1], x) + (if s[|s| - 1] == x then 1 else 0)
  }

  function Sum(s: seq<nat>): nat
  {
    if s == [] then 0 else Sum(s[..|s| - 1]) + s[|s| - 1]
  }

  /** Sum of the number of set cells over all rows. */
  function CellCount(rows: seq<seq<Byte>>): nat
  {
    if rows == [] then 0 else CellCount(rows[..|rows| - 1]) + RowWeight(rows[|rows| - 1])
  }

  /** The rows of consecutive blocks, in order. */
  function Flatten(blocks: seq<seq<seq<Byte>>>): (rows: seq<seq<Byte>>)
  {
    if blocks == [] then [] else Flatten(blocks[..|blocks| - 1]) + blocks[|blocks| - 1]
  }

  lemma CountSnoc(s: seq<nat>, x: nat)
    ensures forall y :: Count(s + [x], y) == Count(s, y) + (if x == y then 1 else 0)
  {
    assert (s + [x])[..|s|] == s;
  }

  /** Incrementing one counter raises the sum by one. */
  lemma {:induction false} SumIncrement(s: seq<nat>, i: nat)
    requires i < |s|
    ensures Sum(s[i := s[i] + 1]) == Sum(s) + 1
  {
    var t := s[i := s[i] + 1];
    if i < |s| - 1 {
      assert t[..|t| - 1] == s[..|s| - 1][i := s[i] + 1];
      SumIncrement(s[..|s| - 1], i);
    } else {
      assert t[..|t| - 1] == s[..|s| - 1];
    }
  }

  /** Pigeonhole: counters whose sum is below `|s| * bound` leave some
      counter below `bound`. */
  lemma {:induction false} RoomExists(s: seq<nat>, bound: nat)
    requires Sum(s) < |s| * bound
    ensures exists i :: 0 <= i < |s| && s[i] < bound
  {
    var k := |s| - 1;
    if s[k] >= bound {
      assert |s| * bound == k * bound + bound;
      RoomExists(s[..k], bound);
      var i :| 0 <= i < k && s[..k][i] < bound;
      assert s[i] < bound;
    }
  }

  /** Counters that are all at most `bound` and sum to `|s| * bound` are all
      exactly `bound`. */
  lemma {:induction false} AllAtBound(s: seq<nat>, bound: nat)
    requires forall i :: 0 <= i < |s| ==> s[i] <= bound
    requires Sum(s) == |s| * bound
    ensures forall i :: 0 <= i < |s| ==> s[i] == bound
  {
    if s != [] {
      var k := |s| - 1;
      assert |s| * bound == k * bound + bound;
      SumAtMost(s[..k], bound);
      AllAtBound(s[..k], bound);
      forall i | 0 <= i < |s| ensures s[i] == bound {
        if i < k { assert s[..k][i] == s[i]; }
      }
    }
  }

  lemma {:induction false} SumAtMost(s: seq<nat>, bound: nat)
    requires forall i :: 0 <= i < |s| ==> s[i] <= bound
    ensures Sum(s) <= |s| * bound
  {
    if s != [] {
      var k := |s| - 1;
      assert |s| * bound == k * bound + bound;
      SumAtMost(s[..k], bound);
    }
  }

  /** A row that holds a 1 exactly where `sel` names row `i` has weight
      `Count(sel, i)`. */
  lemma {:induction false} RowWeightOfSelection(row: seq<Byte>, sel: seq<nat>, i: nat)
    requires |row| == |sel|
    requires forall c :: 0 <= c < |row| ==> (row[c] != 0 <==> sel[c] == i)
    ensures RowWeight(row) == Count(sel, i)
  {
    if row != [] {
      var k := |row| - 1;
      RowWeightOfSelection(row[..k], sel[..k], i);
    }
  }

  /** A column that is nonzero in exactly one row (`k`) has column count 1. */
  lemma {:induction false} ColCountSingle(rows: seq<seq<Byte>>, c: nat, k: nat)
    requires k < |rows|
    requires forall r :: 0 <= r < |rows| ==> c < |rows[r]| && (rows[r][c] != 0 <==> r == k)
    ensures ColCount(rows, c) == 1
  {
    var n := |rows| - 1;
    if k < n {
      ColCountSingle(rows[..n], c, k);
    } else {
      ColCountZero(rows[..n], c);
    }
  }

  lemma {:induction false} ColCountZero(rows: seq<seq<Byte>>, c: nat)
    requires forall r :: 0 <= r < |rows| ==> c < |rows[r]| && rows[r][c] == 0
    ensures ColCount(rows, c) == 0
  {
    if rows != [] {
      ColCountZero(rows[..|rows| - 1], c);
    }
  }

  lemma {:induction false} ColCountAppend(a: seq<seq<Byte>>, b: seq<seq<Byte>>, c: nat)
    ensures ColCount(a + b, c) == ColCount(a, c) + ColCount(b, c)
  {
    if b == [] {
      assert a + b == a;
    } else {
      var k := |b| - 1;
      assert (a + b)[..|a + b| - 1] == a + b[..k];
      ColCountAppend(a, b[..k], c);
    }
  }

  /** Blocks that each hold exactly one nonzero cell in column `c` give the
      stacked rows a column count equal to the number of blocks. */
  lemma {:induction false} ColCountOfBlocks(blocks: seq<seq<seq<Byte>>>, c: nat)
    requires forall b :: 0 <= b < |blocks| ==> ColCount(blocks[b], c) == 1
    ensures ColCount(Flatten(blocks), c) == |blocks|
  {
    if blocks != [] {
      var k := |blocks| - 1;
      ColCountOfBlocks(blocks[..k], c);
      ColCountAppend(Flatten(blocks[..k]), blocks[k], c);
    }
  }
}
