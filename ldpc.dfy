/** The LDPC coder's state (LDPC.h, LDPC.cpp): the generator matrix, kept
    transposed, the parity-check matrix, and the check-node side of the
    Tanner graph of the parity-check matrix; plus the encoder that maps a
    codeword's bits to the soft values +1 / -1 sent over the channel. */
module Ldpc {
  import opened Matrices
  import opened Weights

  predicate StrictlyIncreasing(s: seq<nat>)
  {
    forall i, j :: 0 <= i < j < |s| ==> s[i] < s[j]
  }

  /** The check node of one parity-check row: the columns (variable nodes)
      where the row is nonzero, in ascending order. */
  function NonzeroColumns(row: seq<Byte>): seq<nat>
  {
    if row == [] then []
    else
      var k := |row| - 1;
      NonzeroColumns(row[..k]) + (if row[k] != 0 then [k] else [])
  }

  /** The adjacency list of a row lists exactly its nonzero columns, each
      once, ascending, and there are as many as the row's weight. */
  lemma {:induction false} NonzeroColumnsSpec(row: seq<Byte>)
    ensures forall c :: 0 <= c < |row| ==> (c in NonzeroColumns(row) <==> row[c] != 0)
    ensures forall k :: 0 <= k < |NonzeroColumns(row)| ==> NonzeroColumns(row)[k] < |row|
    ensures StrictlyIncreasing(NonzeroColumns(row))
    ensures |NonzeroColumns(row)| == RowWeight(row)
  {
    if row != [] {
      var k := |row| - 1;
      NonzeroColumnsSpec(row[..k]);
    }
  }

  /** Two ascending lists with the same members are the same list: the
      adjacency list of a row is determined by the row alone. */
  lemma {:induction false} IncreasingUnique(a: seq<nat>, b: seq<nat>)
    requires StrictlyIncreasing(a) && StrictlyIncreasing(b)
    requires forall x :: x in a <==> x in b
    ensures a == b
  {
    if a != [] {
      assert a[0] in b;
    }
    if b != [] {
      assert b[0] in a;
    }
    if a != [] && b != [] {
      var a', b' := a[..|a| - 1], b[..|b| - 1];
      SameLast(a, b, a', b');
      IncreasingUnique(a', b');
      assert a == a' + [a[|a| - 1]];
      assert b == b' + [b[|b| - 1]];
    }
  }

  /** Ascending lists with the same members end in the same (largest)
      element, and agree on their members once it is dropped. */
  lemma SameLast(a: seq<nat>, b: seq<nat>, a': seq<nat>, b': seq<nat>)
    requires a != [] && b != [] && a' == a[..|a| - 1] && b' == b[..|b| - 1]
    requires StrictlyIncreasing(a) && StrictlyIncreasing(b)
    requires forall x :: x in a <==> x in b
    ensures a[|a| - 1] == b[|b| - 1]
    ensures StrictlyIncreasing(a') && StrictlyIncreasing(b')
    ensures forall z :: z in a' <==> z in b'
  {
    var x, y := a[|a| - 1], b[|b| - 1];
    assert x == y by {
      assert y in a;
      assert x in b;
    }
    assert a == a' + [x];
    assert b == b' + [y];
    forall z ensures z in a' <==> z in b'
    {
      if z in a' {
        assert z in b && z < x;
      }
      if z in b' {
        assert z in a && z < y;
      }
    }
  }

  /** Any ascending list of exactly the nonzero columns of a row is that
      row's adjacency list. */
  lemma NonzeroColumnsUnique(row: seq<Byte>, cols: seq<nat>)
    requires StrictlyIncreasing(cols)
    requires forall c: nat :: c in cols <==> c < |row| && row[c] != 0
    ensures cols == NonzeroColumns(row)
  {
    NonzeroColumnsSpec(row);
    IncreasingUnique(cols, NonzeroColumns(row));
  }

  /** Total number of edges stored in the check-node lists. */
  function EdgeCount(lists: seq<seq<nat>>): nat
  {
    if lists == [] then 0 else EdgeCount(lists[..|lists| - 1]) + |lists[|lists| - 1]|
  }

  /** The Tanner graph has one edge per set cell of the matrix. */
  lemma {:induction false} EdgeCountIsCellCount(rows: seq<seq<Byte>>, lists: seq<seq<nat>>)
    requires |lists| == |rows|
    requires forall r :: 0 <= r < |rows| ==> lists[r] == NonzeroColumns(rows[r])
    ensures EdgeCount(lists) == CellCount(rows)
  {
    if rows != [] {
      var k := |rows| - 1;
      EdgeCountIsCellCount(rows[..k], lists[..k]);
      NonzeroColumnsSpec(rows[k]);
    }
  }

  /** The soft value sent for a bit: bit 1 becomes -1, bit 0 becomes +1. */
  function SoftBit(b: Byte): int
  {
    if b != 0 then -1 else 1
  }

  /** The hard decision on soft values: a negative value reads as bit 1. */
  function HardDecision(soft: seq<int>): (bits: seq<Byte>)
    ensures |bits| == |soft|
  {
    seq(|soft|, i requires 0 <= i < |soft| => if soft[i] < 0 then 1 else 0)
  }

  /** `vector::resize`: keeps the first `n` entries and pads with empty lists. */
  function Resize(s: seq<seq<nat>>, n: nat): (r: seq<seq<nat>>)
    ensures |r| == n
  {
    seq(n, i requires 0 <= i < n => if i < |s| then s[i] else [])
  }

  class LdpcCoder {
    /** The generator matrix, stored transposed. */
    var g: Matrix
    /** The parity-check matrix. */
    var h: Matrix
    /** For each check node (row of `h`), the variable nodes it connects to. */
    var checkNodeEdges: seq<seq<nat>>

    /** Both matrices are well formed, and `checkNodeEdges` is the check-node
        adjacency of `h`. */
    ghost predicate Valid()
      reads this, g, h
    {
      && g.Valid() && h.Valid()
      && |checkNodeEdges| == h.height
      && forall row :: 0 <= row < h.height ==> checkNodeEdges[row] == NonzeroColumns(h.m[row])
    }

    /** A coder before `setMatrices`: both matrices empty, no check nodes. */
    constructor ()
      ensures Valid() && fresh(g) && fresh(h)
      ensures g.width == 0 && g.height == 0 && h.width == 0 && h.height == 0
      ensures checkNodeEdges == []
    {
      g := new Matrix(0, 0);
      h := new Matrix(0, 0);
      checkNodeEdges := [];
    }

    /** `setMatrices(g, h)`: stores a copy of `g`, transposed, and a copy of
        `h`, then rebuilds the check-node lists of `h`, discarding the old ones. */
    method SetMatrices(g: Matrix, h: Matrix)
      requires g.Valid() && h.Valid()
      modifies this
      ensures Valid() && fresh(this.g) && fresh(this.h)
      ensures this.g.width == g.height && this.g.height == g.width
      ensures this.g.m == Transposed(g.m, g.width)
      ensures this.h.width == h.width && this.h.height == h.height && this.h.m == h.m
      ensures |checkNodeEdges| == h.height
      ensures forall row, col :: 0 <= row < h.height ==>
        (col in checkNodeEdges[row] <==> 0 <= col < h.width && h.m[row][col] != 0)
      ensures forall row :: 0 <= row < h.height ==>
        StrictlyIncreasing(checkNodeEdges[row]) && |checkNodeEdges[row]| == RowWeight(h.m[row])
      ensures EdgeCount(checkNodeEdges) == CellCount(h.m)
    {
      var gt := new Matrix.Copy(g);
      gt.Transpose();
      var hc := new Matrix.Copy(h);
      this.g := gt;
      this.h := hc;
      BuildTannerGraph();
      assert this.h.m == h.m;
      forall row | 0 <= row < h.height
        ensures forall col :: col in checkNodeEdges[row] <==> 0 <= col < h.width && h.m[row][col] != 0
        ensures StrictlyIncreasing(checkNodeEdges[row]) && |checkNodeEdges[row]| == RowWeight(h.m[row])
      {
        assert checkNodeEdges[row] == NonzeroColumns(h.m[row]);
        NonzeroColumnsSpec(h.m[row]);
      }
    }

    /** The Tanner-graph part of `setMatrices`: the list of check node `row`
        is cleared and refilled with the columns where row `row` of `h` is
        nonzero, in ascending order; the lists are resized to one per row. */
    method BuildTannerGraph()
      requires g.Valid() && h.Valid()
      modifies this`checkNodeEdges
      ensures Valid()
      ensures EdgeCount(checkNodeEdges) == CellCount(h.m)
    {
      checkNodeEdges := Resize(checkNodeEdges, h.height);
      for row := 0 to h.height
        invariant |checkNodeEdges| == h.height
        invariant forall r :: 0 <= r < row ==> checkNodeEdges[r] == NonzeroColumns(h.m[r])
      {
        FillCheckNode(row);
      }
      EdgeCountIsCellCount(h.m, checkNodeEdges);
    }

    /** One pass of the outer loop of `setMatrices`: clears the list of check
        node `row` and appends, column by column, every column where that row
        of `h` is nonzero. */
    method FillCheckNode(row: nat)
      requires h.Valid() && row < h.height == |checkNodeEdges|
      modifies this`checkNodeEdges
      ensures checkNodeEdges == old(checkNodeEdges)[row := NonzeroColumns(h.m[row])]
    {
      var cells := h.m[row];
      assert |cells| == h.width;
      ghost var before := checkNodeEdges;
      checkNodeEdges := checkNodeEdges[row := []];
      for col := 0 to h.width
        invariant checkNodeEdges == before[row := NonzeroColumns(cells[..col])]
      {
        ghost var prefix := cells[..col + 1];
        assert prefix[..col] == cells[..col];
        ghost var adj := NonzeroColumns(prefix);
        assert adj == NonzeroColumns(cells[..col]) + (if cells[col] != 0 then [col] else []);
        assert checkNodeEdges[row] == NonzeroColumns(cells[..col]);
        if cells[col] != 0 {
          checkNodeEdges := checkNodeEdges[row := checkNodeEdges[row] + [col]];
        }
        assert checkNodeEdges[row] == adj;
        assert checkNodeEdges == before[row := adj];
      }
      assert cells[..h.width] == cells;
    }

    /** `encode(message)`: multiplies the message by the (transposed)
        generator over GF(2) and sends each product bit as a soft value,
        -1 for a set bit and +1 for a clear one. */
    method Encode(message: seq<Byte>) returns (res: seq<int>)
      requires Valid() && |message| == g.width
      ensures |res| == g.height
      ensures forall i :: 0 <= i < |res| ==>
        (res[i] == -1 <==> BinaryMult(g.m, message)[i] == 1) &&
        (res[i] == 1 <==> BinaryMult(g.m, message)[i] == 0)
      ensures HardDecision(res) == BinaryMult(g.m, message)
    {
      var prod := BinaryMult(g.m, message);
      res := seq(|prod|, _ => 0);
      for i := 0 to |prod|
        invariant |res| == |prod|
        invariant forall k :: 0 <= k < i ==> res[k] == SoftBit(prod[k])
      {
        if prod[i] != 0 {
          res := res[i := -1];
        } else {
          res := res[i := 1];
        }
      }
    }
  }
}
