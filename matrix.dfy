/** The dense matrix of byte cells used throughout the LDPC tools
    (Matrix.h): its shape invariant, the zero-filling constructor, the
    dimension reset, the text form written by `print`, and the two
    operations the rest of the code calls on it (transpose and the GF(2)
    product with a vector). */
module Matrices {

  /** A cell: the source stores cells as `unsigned char`. */
  type Byte = x: int | 0 <= x < 256

  datatype Option<T> = None | Some(value: T)

  /** `rows` has `height` rows of `width` cells each. */
  predicate Rectangular(rows: seq<seq<Byte>>, width: nat, height: nat)
  {
    |rows| == height && forall i :: 0 <= i < |rows| ==> |rows[i]| == width
  }

  /** The grid a fresh `Matrix(width, height)` holds: `height` rows, each
      resized to `width` cells and every cell set to 0. */
  method ZeroFill(width: nat, height: nat) returns (rows: seq<seq<Byte>>)
    ensures Rectangular(rows, width, height)
    ensures forall i, j :: 0 <= i < height && 0 <= j < width ==> rows[i][j] == 0
  {
    rows := seq(height, _ => []);
    for i := 0 to height
      invariant |rows| == height
      invariant forall k :: 0 <= k < i ==> |rows[k]| == width
      invariant forall k, j :: 0 <= k < i && 0 <= j < width ==> rows[k][j] == 0
    {
      var row: seq<Byte> := [];
      for j := 0 to width
        invariant |row| == j
        invariant forall l :: 0 <= l < j ==> row[l] == 0
      {
        row := row + [0];
      }
      rows := rows[i := row];
    }
  }

  /** The transpose of a `width`-wide grid: column `j` becomes row `j`. */
  function Transposed(rows: seq<seq<Byte>>, width: nat): (t: seq<seq<Byte>>)
    requires Rectangular(rows, width, |rows|)
    ensures Rectangular(t, |rows|, width)
  {
    seq(width, j requires 0 <= j < width =>
      seq(|rows|, i requires 0 <= i < |rows| => rows[i][j]))
  }

  /** Transposing twice gives back the original grid. */
  lemma TransposeInvolution(rows: seq<seq<Byte>>, width: nat)
    requires Rectangular(rows, width, |rows|)
    ensures Transposed(Transposed(rows, width), |rows|) == rows
  {
    var t := Transposed(Transposed(rows, width), |rows|);
    assert |t| == |rows|;
    forall i | 0 <= i < |rows|
      ensures t[i] == rows[i]
    {
      assert |t[i]| == |rows[i]|;
    }
  }

  /** GF(2) dot product of two vectors of equal length, before reduction. */
  function Dot(a: seq<Byte>, b: seq<Byte>): nat
    requires |a| == |b|
  {
    if a == [] then 0
    else Dot(a[..|a| - 1], b[..|b| - 1]) + (a[|a| - 1] as int) * (b[|b| - 1] as int)
  }

  /** The GF(2) product of a grid with a column vector: one 0/1 cell per row. */
  function BinaryMult(rows: seq<seq<Byte>>, v: seq<Byte>): seq<Byte>
    requires forall i :: 0 <= i < |rows| ==> |rows[i]| == |v|
  {
    seq(|rows|, i requires 0 <= i < |rows| => if Dot(rows[i], v) % 2 == 0 then 0 else 1)
  }

  // ----- text form --------------------------------------------------------

  predicate IsDigits(s: string)
  {
    forall k :: 0 <= k < |s| ==> '0' <= s[k] <= '9'
  }

  function DigitChar(d: nat): (ch: char)
    requires d < 10
    ensures '0' <= ch <= '9'
  {
    (('0' as int) + d) as char
  }

  /** The decimal rendering `out << (int)n` writes: most significant digit
      first, no sign, no leading zero. */
  function Decimal(n: nat): (s: string)
    ensures 1 <= |s| && IsDigits(s)
    ensures |s| > 1 ==> s[0] != '0'
  {
    if n < 10 then [DigitChar(n)] else Decimal(n / 10) + [DigitChar(n % 10)]
  }

  /** The number a string of decimal digits denotes. */
  function DecimalValue(s: string): nat
    requires IsDigits(s)
  {
    if s == [] then 0
    else 10 * DecimalValue(s[..|s| - 1]) + ((s[|s| - 1] as int) - ('0' as int))
  }

  lemma {:induction false} DecimalRoundTrip(n: nat)
    ensures DecimalValue(Decimal(n)) == n
  {
    if n >= 10 {
      DecimalRoundTrip(n / 10);
      var s := Decimal(n);
      assert s[..|s| - 1] == Decimal(n / 10);
    }
  }

  /** One printed row: every cell as its decimal value followed by a space. */
  function Line(row: seq<Byte>): (s: string)
    ensures '\n' !in s
  {
    if row == [] then [] else Decimal(row[0]) + " " + Line(row[1..])
  }

  /** The whole text `print` writes: every row's line ended by a newline. */
  function Text(rows: seq<seq<Byte>>): string
  {
    if rows == [] then [] else Line(rows[0]) + "\n" + Text(rows[1..])
  }

  lemma {:induction false} LineSnoc(row: seq<Byte>, x: Byte)
    ensures Line(row + [x]) == Line(row) + Decimal(x) + " "
  {
    if row != [] {
      assert (row + [x])[1..] == row[1..] + [x];
      LineSnoc(row[1..], x);
    } else {
      assert [] + [x] == [x];
    }
  }

  lemma {:induction false} TextSnoc(rows: seq<seq<Byte>>, row: seq<Byte>)
    ensures Text(rows + [row]) == Text(rows) + Line(row) + "\n"
  {
    if rows != [] {
      assert (rows + [row])[1..] == rows[1..] + [row];
      TextSnoc(rows[1..], row);
    } else {
      assert [] + [row] == [row];
    }
  }

  /** Number of occurrences of `ch` in `s`. */
  function Occurrences(s: string, ch: char): nat
  {
    if s == [] then 0 else (if s[0] == ch then 1 else 0) + Occurrences(s[1..], ch)
  }

  lemma {:induction false} OccurrencesAppend(a: string, b: string, ch: char)
    ensures Occurrences(a + b, ch) == Occurrences(a, ch) + Occurrences(b, ch)
  {
    if a != [] {
      assert (a + b)[1..] == a[1..] + b;
      OccurrencesAppend(a[1..], b, ch);
    } else {
      assert a + b == b;
    }
  }

  lemma {:induction false} OccurrencesAbsent(s: string, ch: char)
    requires ch !in s
    ensures Occurrences(s, ch) == 0
  {
    if s != [] {
      assert forall j :: 0 <= j < |s| - 1 ==> s[1..][j] == s[j + 1];
      OccurrencesAbsent(s[1..], ch);
    }
  }

  /** The printed text holds exactly one newline per row: `height` lines. */
  lemma {:induction false} TextLineCount(rows: seq<seq<Byte>>)
    ensures Occurrences(Text(rows), '\n') == |rows|
  {
    if rows != [] {
      TextLineCount(rows[1..]);
      OccurrencesAppend(Line(rows[0]), "\n" + Text(rows[1..]), '\n');
      OccurrencesAppend("\n", Text(rows[1..]), '\n');
      OccurrencesAbsent(Line(rows[0]), '\n');
      assert "\n"[1..] == [];
      assert Line(rows[0]) + "\n" + Text(rows[1..]) == Line(rows[0]) + ("\n" + Text(rows[1..]));
    }
  }

  /** Position of the first `ch` in `s`, or `|s|` when there is none. */
  function IndexOf(s: string, ch: char): (k: nat)
    ensures k <= |s|
    ensures forall j :: 0 <= j < k ==> s[j] != ch
    ensures k < |s| ==> s[k] == ch
  {
    if s == [] then 0 else if s[0] == ch then 0 else 1 + IndexOf(s[1..], ch)
  }

  /** Reads back one printed line: tokens of digits, each ended by a space,
      each denoting a cell value. */
  function ParseLine(s: string): Option<seq<Byte>>
    decreases |s|
  {
    if s == [] then Some([])
    else
      var k := IndexOf(s, ' ');
      if k == 0 || k == |s| || !IsDigits(s[..k]) || DecimalValue(s[..k]) >= 256 then None
      else
        match ParseLine(s[k + 1..])
        case None => None
        case Some(rest) => Some([DecimalValue(s[..k]) as Byte] + rest)
  }

  /** Reads back printed text: newline-ended lines, one row each. */
  function ParseText(t: string): Option<seq<seq<Byte>>>
    decreases |t|
  {
    if t == [] then Some([])
    else
      var k := IndexOf(t, '\n');
      if k == |t| then None
      else
        match (ParseLine(t[..k]), ParseText(t[k + 1..]))
        case (Some(row), Some(rows)) => Some([row] + rows)
        case _ => None
  }

  /** Splitting `a + [ch] + b` at its first `ch` gives back `a` and `b`
      when `a` holds no `ch`. */
  lemma SplitAtFirst(a: string, ch: char, b: string)
    requires ch !in a
    ensures IndexOf(a + [ch] + b, ch) == |a|
    ensures (a + [ch] + b)[..|a|] == a && (a + [ch] + b)[|a| + 1..] == b
  {
    var s := a + [ch] + b;
    assert s[|a|] == ch;
    assert forall j :: 0 <= j < |a| ==> s[j] == a[j];
  }

  lemma {:induction false} ParseLineOfLine(row: seq<Byte>)
    ensures ParseLine(Line(row)) == Some(row)
  {
    if row != [] {
      var d := Decimal(row[0]);
      assert ' ' !in d;
      SplitAtFirst(d, ' ', Line(row[1..]));
      assert Line(row) == d + [' '] + Line(row[1..]);
      DecimalRoundTrip(row[0]);
      ParseLineOfLine(row[1..]);
      assert [row[0]] + row[1..] == row;
    }
  }

  /** The printed text determines the matrix: reading it back row by row and
      cell by cell gives exactly the rows that were printed, in order. */
  lemma {:induction false} PrintRoundTrip(rows: seq<seq<Byte>>)
    ensures ParseText(Text(rows)) == Some(rows)
  {
    if rows != [] {
      SplitAtFirst(Line(rows[0]), '\n', Text(rows[1..]));
      assert Text(rows) == Line(rows[0]) + ['\n'] + Text(rows[1..]);
      ParseLineOfLine(rows[0]);
      PrintRoundTrip(rows[1..]);
      assert [rows[0]] + rows[1..] == rows;
    }
  }

  // ----- the matrix object --------------------------------------------------

  class Matrix {
    var width: nat
    var height: nat
    var m: seq<seq<Byte>>

    /** `m` has `height` rows of `width` cells. */
    ghost predicate Valid()
      reads this
    {
      Rectangular(m, width, height)
    }

    /** `Matrix(width, height)`: records the shape and zero-fills the grid. */
    constructor (width: nat, height: nat)
      ensures Valid() && this.width == width && this.height == height
      ensures forall i, j :: 0 <= i < height && 0 <= j < width ==> m[i][j] == 0
    {
      this.width := width;
      this.height := height;
      var rows := ZeroFill(width, height);
      m := rows;
    }

    /** The member-wise copy C++ makes when a `Matrix` is assigned by value. */
    constructor Copy(other: Matrix)
      ensures width == other.width && height == other.height && m == other.m
    {
      width := other.width;
      height := other.height;
      m := other.m;
    }

    /** Resets the shape; the old contents do not survive, every cell is 0. */
    method SetDim(width: nat, height: nat)
      modifies this
      ensures Valid() && this.width == width && this.height == height
      ensures forall i, j :: 0 <= i < height && 0 <= j < width ==> m[i][j] == 0
    {
      this.width := width;
      this.height := height;
      m := ZeroFill(width, height);
    }

    /** In-place transpose: the shape is swapped and cell (i, j) moves to (j, i). */
    method Transpose()
      requires Valid()
      modifies this
      ensures Valid() && width == old(height) && height == old(width)
      ensures m == Transposed(old(m), old(width))
      ensures forall i, j :: 0 <= i < height && 0 <= j < width ==> m[i][j] == old(m)[j][i]
    {
      m := Transposed(m, width);
      width, height := height, width;
    }

    /** `print`: writes the rows in order, each as its line of cells and a
        newline. Nothing of the matrix changes. */
    method Print() returns (out: string)
      requires Valid()
      ensures out == Text(m)
    {
      out := "";
      for i := 0 to height
        invariant out == Text(m[..i])
      {
        var row := m[i];
        var line := "";
        for j := 0 to width
          invariant line == Line(row[..j])
        {
          LineSnoc(row[..j], row[j]);
          assert row[..j + 1] == row[..j] + [row[j]];
          line := line + Decimal(row[j]) + " ";
        }
        assert row[..width] == row;
        TextSnoc(m[..i], row);
        assert m[..i + 1] == m[..i] + [row];
        out := out + line + "\n";
      }
      assert m[..height] == m;
    }
  }
}
