/** The message schedule as the repository stores it: twelve rows, which the generator keeps as a
    table of rows and the JavaScript code as one flat table of doubled entries. */
module Schedule {
  import opened Rfc7693

  /** Row r of the generator's table `sigma`. */
  function SigmaRow(r: nat): (row: seq<index16>)
    requires r < 12
    ensures |row| == 16
  {
    match r
    case 0 => [0, 1, 2, 3, 4, 5, 6, 7, 8, 9, 10, 11, 12, 13, 14, 15]
    case 1 => [14, 10, 4, 8, 9, 15, 13, 6, 1, 12, 0, 2, 11, 7, 5, 3]
    case 2 => [11, 8, 12, 0, 5, 2, 15, 13, 10, 14, 3, 6, 7, 1, 9, 4]
    case 3 => [7, 9, 3, 1, 13, 12, 11, 14, 2, 6, 5, 10, 4, 0, 15, 8]
    case 4 => [9, 0, 5, 7, 2, 4, 10, 15, 14, 1, 11, 12, 6, 8, 3, 13]
    case 5 => [2, 12, 6, 10, 0, 11, 8, 3, 4, 13, 7, 5, 15, 14, 1, 9]
    case 6 => [12, 5, 1, 15, 14, 13, 4, 10, 0, 7, 6, 3, 9, 2, 8, 11]
    case 7 => [13, 11, 7, 14, 12, 1, 3, 9, 5, 0, 15, 4, 8, 6, 2, 10]
    case 8 => [6, 15, 14, 9, 11, 3, 0, 8, 12, 2, 13, 7, 1, 4, 10, 5]
    case 9 => [10, 2, 8, 4, 7, 6, 1, 5, 15, 11, 9, 14, 3, 12, 13, 0]
    case 10 => [0, 1, 2, 3, 4, 5, 6, 7, 8, 9, 10, 11, 12, 13, 14, 15]
    case 11 => [14, 10, 4, 8, 9, 15, 13, 6, 1, 12, 0, 2, 11, 7, 5, 3]
  }

  /** The repository writes out rows 10 and 11; the RFC starts again with its first row. */
  lemma RowIsRfc(r: nat)
    requires r < 12
    ensures SigmaRow(r) == Sigma(r % 10)
  {
    if r >= 10 {
      assert r % 10 == r - 10;
    } else {
      assert r % 10 == r;
    }
  }

  // ----- The JavaScript code's own copy of the table, one flat list

  function Sigma8First(): seq<index16> {
    [0, 1, 2, 3, 4, 5, 6, 7, 8, 9, 10, 11, 12, 13, 14, 15]
    + [14, 10, 4, 8, 9, 15, 13, 6, 1, 12, 0, 2, 11, 7, 5, 3]
    + [11, 8, 12, 0, 5, 2, 15, 13, 10, 14, 3, 6, 7, 1, 9, 4]
    + [7, 9, 3, 1, 13, 12, 11, 14, 2, 6, 5, 10, 4, 0, 15, 8]
  }

  function Sigma8Second(): seq<index16> {
    [9, 0, 5, 7, 2, 4, 10, 15, 14, 1, 11, 12, 6, 8, 3, 13]
    + [2, 12, 6, 10, 0, 11, 8, 3, 4, 13, 7, 5, 15, 14, 1, 9]
    + [12, 5, 1, 15, 14, 13, 4, 10, 0, 7, 6, 3, 9, 2, 8, 11]
    + [13, 11, 7, 14, 12, 1, 3, 9, 5, 0, 15, 4, 8, 6, 2, 10]
  }

  function Sigma8Third(): seq<index16> {
    [6, 15, 14, 9, 11, 3, 0, 8, 12, 2, 13, 7, 1, 4, 10, 5]
    + [10, 2, 8, 4, 7, 6, 1, 5, 15, 11, 9, 14, 3, 12, 13, 0]
    + [0, 1, 2, 3, 4, 5, 6, 7, 8, 9, 10, 11, 12, 13, 14, 15]
    + [14, 10, 4, 8, 9, 15, 13, 6, 1, 12, 0, 2, 11, 7, 5, 3]
  }

  function SIGMA8(): seq<index16> {
    Sigma8First() + Sigma8Second() + Sigma8Third()
  }

  lemma FirstRows()
    ensures Sigma8First() == SigmaRow(0) + SigmaRow(1) + SigmaRow(2) + SigmaRow(3)
  {
  }

  lemma SecondRows()
    ensures Sigma8Second() == SigmaRow(4) + SigmaRow(5) + SigmaRow(6) + SigmaRow(7)
  {
  }

  lemma ThirdRows()
    ensures Sigma8Third() == SigmaRow(8) + SigmaRow(9) + SigmaRow(10) + SigmaRow(11)
  {
  }

  lemma PartAt(part: seq<index16>, base: nat, r: nat, j: nat)
    requires base <= 8 && r < 4 && j < 16
    requires part == SigmaRow(base) + SigmaRow(base + 1) + SigmaRow(base + 2) + SigmaRow(base + 3)
    ensures |part| == 64 && part[16 * r + j] == SigmaRow(base + r)[j]
  {
    hide SigmaRow;
  }

  /** The flat table holds the generator's rows one after another. */
  lemma FlatIsRows(r: nat, j: nat)
    requires r < 12 && j < 16
    ensures |SIGMA8()| == 192 && SIGMA8()[16 * r + j] == SigmaRow(r)[j]
  {
    hide SigmaRow, Sigma8First, Sigma8Second, Sigma8Third;
    FirstRows();
    SecondRows();
    ThirdRows();
    PartAt(Sigma8First(), 0, r % 4, j);
    PartAt(Sigma8Second(), 4, r % 4, j);
    PartAt(Sigma8Third(), 8, r % 4, j);
  }

  function Doubled(x: nat): nat {
    2 * x
  }

  /** `SIGMA82`: the flat table with every entry doubled, an offset into 32-bit cells. */
  function SIGMA82(): (table: seq<nat>)
    ensures |table| == 192
    ensures forall i :: 0 <= i < |table| ==> table[i] % 2 == 0 && table[i] < 32
  {
    hide SigmaRow, SIGMA8;
    FlatIsRows(0, 0);
    DoubleAll(SIGMA8())
  }

  /** `map(x => x * 2)` */
  function DoubleAll(table: seq<index16>): (r: seq<nat>)
    ensures |r| == |table|
    ensures forall i :: 0 <= i < |r| ==> r[i] == Doubled(table[i]) && r[i] % 2 == 0 && r[i] < 32
  {
    seq(|table|, i requires 0 <= i < |table| => Doubled(table[i]))
  }

  lemma TableAt(r: nat, j: nat)
    requires r < 12 && j < 16
    ensures SIGMA82()[16 * r + j] / 2 == Sigma(r % 10)[j]
  {
    hide SigmaRow, Sigma, SIGMA8, DoubleAll;
    RowIsRfc(r);
    FlatIsRows(r, j);
  }
}
