/**
 * The 4x4 sliding and merging puzzle ("2048").
 *
 * A move is identified by how many clockwise quarter turns are applied
 * before every row is slid toward index 0; the grid is then turned back.
 * A move that leaves the grid as it was changes nothing.  Otherwise the
 * move score is added, one tile is spawned on an empty cell, and the game
 * is over exactly when the grid is then full (merges still possible or not).
 */
module Puzzle2048 {

  type Row = seq<nat>
  type Grid = seq<Row>
  type Cell = (nat, nat)

  // ---------------------------------------------------------------------
  // Rows

  function Sum(s: Row): nat
  {
    if s == [] then 0 else s[0] + Sum(s[1..])
  }

  /** `row.filter(val => val !== 0)` */
  function Compress(s: Row): (r: Row)
    ensures |r| <= |s|
    ensures forall i :: 0 <= i < |r| ==> r[i] != 0
  {
    if s == [] then []
    else if s[0] == 0 then Compress(s[1..])
    else [s[0]] + Compress(s[1..])
  }

  /** The effect of the left-to-right merge scan on an array of tiles:
      an equal neighbour pair becomes the doubled tile followed by a hole,
      and scanning resumes after the hole. */
  function Merged(s: Row): (r: Row)
    ensures |r| == |s|
  {
    if |s| < 2 then s
    else if s[0] == s[1] then [2 * s[0], 0] + Merged(s[2..])
    else [s[0]] + Merged(s[1..])
  }

  /** The score the merge scan accumulates. */
  function MergeScore(s: Row): nat
  {
    if |s| < 2 then 0
    else if s[0] == s[1] then 2 * s[0] + MergeScore(s[2..])
    else MergeScore(s[1..])
  }

  function Zeros(n: nat): (r: Row)
    ensures |r| == n && forall i :: 0 <= i < n ==> r[i] == 0
  {
    seq(n, _ => 0)
  }

  /** `while (filteredRow.length < n) filteredRow.push(0)` */
  function Pad(s: Row, n: nat): (r: Row)
    ensures |s| <= n ==> |r| == n
    ensures |s| >= n ==> r == s
  {
    if |s| >= n then s else s + Zeros(n - |s|)
  }

  /** The row `slide` returns. */
  function SlidRow(row: Row): (r: Row)
    ensures |row| <= 4 ==> |r| == 4
  {
    Pad(Compress(Merged(Compress(row))), 4)
  }

  /** The `rowScore` that `slide` returns. */
  function RowScore(row: Row): nat
  {
    MergeScore(Compress(row))
  }

  /** Reference definition of one 2048 row move on the non-empty tiles:
      walk from the front, fuse an equal pair into one tile, never fuse
      a fused tile again. */
  function Pairs(t: Row): Row
  {
    if |t| < 2 then t
    else if t[0] == t[1] then [2 * t[0]] + Pairs(t[2..])
    else [t[0]] + Pairs(t[1..])
  }

  /** `slide`: compact, merge-scan in place, compact again, pad to 4. */
  method Slide(row: Row) returns (newRow: Row, rowScore: nat)
    ensures newRow == SlidRow(row) && rowScore == RowScore(row)
  {
    var filteredRow := Compress(row);
    filteredRow, rowScore := MergeScan(filteredRow);
    filteredRow := Compress(filteredRow);
    newRow := PadRow(filteredRow);
  }

  /** The `for` loop of `slide` over the compacted tiles: an equal pair
      doubles the left tile, adds it to the score and zeroes the right one. */
  method MergeScan(tiles: Row) returns (filteredRow: Row, rowScore: nat)
    requires forall j :: 0 <= j < |tiles| ==> tiles[j] != 0
    ensures filteredRow == Merged(tiles) && rowScore == MergeScore(tiles)
  {
    filteredRow := tiles;
    rowScore := 0;
    var i := 0;
    while i < |filteredRow| - 1
      invariant |filteredRow| == |tiles|
      invariant 0 <= i <= |tiles|
      invariant |tiles| > 0 ==> i <= |tiles| - 1
      invariant forall j :: i < j < |tiles| ==> filteredRow[j] == tiles[j]
      invariant filteredRow[..i] + Merged(filteredRow[i..]) == Merged(tiles)
      invariant rowScore + MergeScore(filteredRow[i..]) == MergeScore(tiles)
    {
      ghost var f := filteredRow;
      assert i + 2 < |f| ==> f[i + 2] == tiles[i + 2] != 0;
      if filteredRow[i] == filteredRow[i + 1] {
        filteredRow := filteredRow[i := 2 * filteredRow[i]];
        rowScore := rowScore + filteredRow[i];
        filteredRow := filteredRow[i + 1 := 0];
        MergeStep(f, i);
      } else {
        NoMergeStep(f, i);
      }
      i := i + 1;
    }
    ScanDone(filteredRow, i);
  }

  /** The `while` loop of `slide`: push zeros until the row has four cells. */
  method PadRow(compact: Row) returns (filteredRow: Row)
    ensures filteredRow == Pad(compact, 4)
  {
    filteredRow := compact;
    while |filteredRow| < 4
      invariant |compact| <= |filteredRow|
      invariant |compact| < 4 ==> |filteredRow| <= 4
      invariant |compact| >= 4 ==> filteredRow == compact
      invariant filteredRow == compact + Zeros(|filteredRow| - |compact|)
    {
      filteredRow := filteredRow + [0];
      assert filteredRow == compact + Zeros(|filteredRow| - |compact|);
    }
  }

  /** A scan step at index i that finds no equal neighbour. */
  lemma NoMergeStep(f: Row, i: nat)
    requires i + 1 < |f| && f[i] != f[i + 1]
    ensures f[..i + 1] + Merged(f[i + 1..]) == f[..i] + Merged(f[i..])
    ensures MergeScore(f[i + 1..]) == MergeScore(f[i..])
  {
    assert f[i..] == [f[i]] + f[i + 1..];
    assert f[..i + 1] == f[..i] + [f[i]];
  }

  /** Once fewer than two tiles are left to scan, the scan is over. */
  lemma ScanDone(f: Row, i: nat)
    requires i <= |f| && (|f| > 0 ==> i == |f| - 1) && (|f| == 0 ==> i == 0)
    ensures f[..i] + Merged(f[i..]) == f && MergeScore(f[i..]) == 0
  {
    assert f[..i] + f[i..] == f;
  }

  /** The hole a merge leaves takes no part in the rest of the scan. */
  lemma HoleSkipped(rest: Row)
    requires rest == [] || rest[0] != 0
    ensures Merged([0] + rest) == [0] + Merged(rest)
    ensures MergeScore([0] + rest) == MergeScore(rest)
  {
    if rest != [] {
      assert ([0] + rest)[1..] == rest;
    }
  }

  /** A scan that starts on an equal pair fuses it and leaves a hole. */
  lemma PairAtFront(t: Row)
    requires |t| >= 2 && t[0] == t[1] && (|t| == 2 || t[2] != 0)
    ensures Merged(t) == [2 * t[0]] + ([0] + Merged(t[2..]))
    ensures MergeScore(t) == 2 * t[0] + MergeScore(t[2..])
  {
  }

  /** One merge of the scan at index i, as the loop in Slide performs it. */
  lemma MergeStep(f: Row, i: nat)
    requires i + 1 < |f| && f[i] == f[i + 1] && f[i + 1] != 0
    requires i + 2 < |f| ==> f[i + 2] != 0
    ensures var g := f[i := 2 * f[i]][i + 1 := 0];
            && g[..i + 1] + Merged(g[i + 1..]) == f[..i] + Merged(f[i..])
            && MergeScore(g[i + 1..]) + 2 * f[i] == MergeScore(f[i..])
  {
    var g := f[i := 2 * f[i]][i + 1 := 0];
    var rest := f[i + 2..];
    var m := Merged(rest);
    assert Merged(f[i..]) == [2 * f[i]] + ([0] + m) && MergeScore(f[i..]) == 2 * f[i] + MergeScore(rest) by {
      assert f[i..][2..] == rest;
      PairAtFront(f[i..]);
    }
    assert Merged(g[i + 1..]) == [0] + m && MergeScore(g[i + 1..]) == MergeScore(rest) by {
      assert g[i + 1..] == [0] + rest;
      assert rest == [] || rest[0] == f[i + 2];
      HoleSkipped(rest);
    }
    assert g[..i + 1] == f[..i] + [2 * f[i]];
    assert (f[..i] + [2 * f[i]]) + ([0] + m) == f[..i] + ([2 * f[i]] + ([0] + m));
  }

  // ---------------------------------------------------------------------
  // Properties of a row move

  lemma {:induction false} CompressSum(s: Row)
    ensures Sum(Compress(s)) == Sum(s)
  {
    if s != [] {
      CompressSum(s[1..]);
      if s[0] != 0 {
        assert ([s[0]] + Compress(s[1..]))[1..] == Compress(s[1..]);
      }
    }
  }

  lemma SumAppend(a: Row, b: Row)
    ensures Sum(a + b) == Sum(a) + Sum(b)
  {
    if a != [] {
      assert (a + b)[1..] == a[1..] + b;
      SumAppend(a[1..], b);
    } else {
      assert a + b == b;
    }
  }

  lemma {:induction false} MergedSum(s: Row)
    ensures Sum(Merged(s)) == Sum(s)
  {
    if |s| >= 2 {
      if s[0] == s[1] {
        MergedSum(s[2..]);
        SumAppend([2 * s[0], 0], Merged(s[2..]));
        assert s == [s[0], s[1]] + s[2..];
        SumAppend([s[0], s[1]], s[2..]);
      } else {
        MergedSum(s[1..]);
        SumAppend([s[0]], Merged(s[1..]));
        assert s == [s[0]] + s[1..];
      }
    }
  }

  lemma ZerosSum(n: nat)
    ensures Sum(Zeros(n)) == 0
  {
    if n > 0 {
      assert Zeros(n)[1..] == Zeros(n - 1);
      ZerosSum(n - 1);
    }
  }

  /** A move keeps the total of every row: a merge doubles one tile and empties its partner. */
  lemma SlidePreservesSum(row: Row)
    ensures Sum(SlidRow(row)) == Sum(row)
  {
    var c := Compress(Merged(Compress(row)));
    CompressSum(row);
    MergedSum(Compress(row));
    CompressSum(Merged(Compress(row)));
    if |c| < 4 {
      SumAppend(c, Zeros(4 - |c|));
      ZerosSum(4 - |c|);
    }
  }

  lemma {:induction false} CompressCons(x: nat, s: Row)
    ensures Compress([x] + s) == if x == 0 then Compress(s) else [x] + Compress(s)
  {
    assert ([x] + s)[0] == x && ([x] + s)[1..] == s;
  }

  /** On non-empty tiles, the merge scan followed by compaction is exactly the reference move. */
  lemma {:induction false} CompactMergedIsPairs(t: Row)
    requires forall i :: 0 <= i < |t| ==> t[i] != 0
    ensures Compress(Merged(t)) == Pairs(t)
  {
    if |t| < 2 {
      if |t| == 1 {
        CompressCons(t[0], []);
        assert t == [t[0]] + [];
      }
    } else if t[0] == t[1] {
      CompactMergedIsPairs(t[2..]);
      CompressCons(2 * t[0], [0] + Merged(t[2..]));
      CompressCons(0, Merged(t[2..]));
      assert [2 * t[0], 0] + Merged(t[2..]) == [2 * t[0]] + ([0] + Merged(t[2..]));
    } else {
      CompactMergedIsPairs(t[1..]);
      CompressCons(t[0], Merged(t[1..]));
    }
  }

  lemma {:induction false} PairsNonZero(t: Row)
    requires forall i :: 0 <= i < |t| ==> t[i] != 0
    ensures |Pairs(t)| <= |t|
    ensures forall i :: 0 <= i < |Pairs(t)| ==> Pairs(t)[i] != 0
  {
    if |t| >= 2 {
      if t[0] == t[1] { PairsNonZero(t[2..]); } else { PairsNonZero(t[1..]); }
    }
  }

  /** `slide` is the reference move on the compacted row, padded with zeros to length 4. */
  lemma SlideIsReferenceMove(row: Row)
    ensures SlidRow(row) == Pad(Pairs(Compress(row)), 4)
  {
    CompactMergedIsPairs(Compress(row));
  }

  /** A slid row has length 4, all its tiles first and its holes last, and
      never more tiles than the row it came from. */
  lemma SlideShape(row: Row)
    requires |row| <= 4
    ensures |SlidRow(row)| == 4
    ensures forall i, j :: 0 <= i < j < 4 && SlidRow(row)[i] == 0 ==> SlidRow(row)[j] == 0
    ensures |Compress(SlidRow(row))| <= |Compress(row)|
  {
    var t := Compress(row);
    SlideIsReferenceMove(row);
    PairsNonZero(t);
    var p := Pairs(t);
    assert |p| <= 4;
    var s := SlidRow(row);
    assert s == p + Zeros(4 - |p|);
    forall i, j | 0 <= i < j < 4 && s[i] == 0 ensures s[j] == 0 {
      assert i >= |p|;
    }
    CompressNonZeros(p, Zeros(4 - |p|));
  }

  lemma {:induction false} CompressNonZeros(p: Row, z: Row)
    requires forall i :: 0 <= i < |p| ==> p[i] != 0
    requires forall i :: 0 <= i < |z| ==> z[i] == 0
    ensures Compress(p + z) == p
  {
    if p == [] {
      assert p + z == z;
      CompressZeros(z);
    } else {
      assert p + z == [p[0]] + (p[1..] + z);
      CompressCons(p[0], p[1..] + z);
      CompressNonZeros(p[1..], z);
    }
  }

  lemma {:induction false} CompressZeros(z: Row)
    requires forall i :: 0 <= i < |z| ==> z[i] == 0
    ensures Compress(z) == []
  {
    if z != [] { CompressZeros(z[1..]); }
  }

  /** The move scores nothing exactly when no pair was fused, i.e. when the
      move only compacts the row; otherwise the row loses tiles. */
  lemma {:induction false} ScoreZeroIffNoMerge(t: Row)
    requires forall i :: 0 <= i < |t| ==> t[i] != 0
    ensures MergeScore(t) == 0 <==> Pairs(t) == t
    ensures MergeScore(t) > 0 <==> |Pairs(t)| < |t|
  {
    if |t| >= 2 {
      if t[0] == t[1] {
        PairsNonZero(t[2..]);
        assert |Pairs(t)| < |t|;
      } else {
        ScoreZeroIffNoMerge(t[1..]);
        assert t == [t[0]] + t[1..];
      }
    }
  }

  /** Merges do not cascade: four equal tiles give two fused tiles. */
  lemma NoCascadeExamples()
    ensures SlidRow([2, 2, 2, 2]) == [4, 4, 0, 0] && RowScore([2, 2, 2, 2]) == 8
  {
    assert Compress([2, 2, 2, 2]) == [2, 2, 2, 2] by {
      assert [2, 2, 2, 2][1..] == [2, 2, 2];
      assert [2, 2, 2][1..] == [2, 2];
      assert [2, 2][1..] == [2];
    }
    assert Merged([2, 2, 2, 2]) == [4, 0, 4, 0] by {
      assert [2, 2, 2, 2][2..] == [2, 2];
      assert [2, 2][2..] == [];
    }
    assert MergeScore([2, 2, 2, 2]) == 8 by {
      assert [2, 2, 2, 2][2..] == [2, 2];
      assert [2, 2][2..] == [];
    }
    assert Compress([4, 0, 4, 0]) == [4, 4] by {
      assert [4, 0, 4, 0][1..] == [0, 4, 0];
      assert [0, 4, 0][1..] == [4, 0];
      assert [4, 0][1..] == [0];
      assert [0][1..] == [];
    }
  }

  /** A tile made by a merge does not merge again in the same slide. */
  lemma NoCascadeAfterMerge()
    ensures SlidRow([4, 4, 8, 0]) == [8, 8, 0, 0] && RowScore([4, 4, 8, 0]) == 8
  {
    assert Compress([4, 4, 8, 0]) == [4, 4, 8] by {
      assert [4, 4, 8, 0][1..] == [4, 8, 0];
      assert [4, 8, 0][1..] == [8, 0];
      assert [8, 0][1..] == [0];
      assert [0][1..] == [];
    }
    assert Merged([4, 4, 8]) == [8, 0, 8] by {
      assert [4, 4, 8][2..] == [8];
    }
    assert MergeScore([4, 4, 8]) == 8 by {
      assert [4, 4, 8][2..] == [8];
    }
    assert Compress([8, 0, 8]) == [8, 8] by {
      assert [8, 0, 8][1..] == [0, 8];
      assert [0, 8][1..] == [8];
      assert [8][1..] == [];
    }
  }

  // ---------------------------------------------------------------------
  // Tiles are powers of two

  /** A tile value: 2, 4, 8, … (no tile of 1 ever appears). */
  predicate IsPow2(v: nat)
  {
    v == 2 || (v >= 4 && v % 2 == 0 && IsPow2(v / 2))
  }

  predicate IsTile(v: nat)
  {
    v == 0 || IsPow2(v)
  }

  predicate AllTiles(s: Row)
  {
    forall i :: 0 <= i < |s| ==> IsTile(s[i])
  }

  lemma {:induction false} CompressTiles(s: Row)
    requires AllTiles(s)
    ensures AllTiles(Compress(s))
  {
    if s != [] { CompressTiles(s[1..]); }
  }

  lemma {:induction false} MergedTiles(s: Row)
    requires AllTiles(s)
    ensures AllTiles(Merged(s))
  {
    if |s| >= 2 {
      if s[0] == s[1] {
        MergedTiles(s[2..]);
        assert IsTile(2 * s[0]) by {
          if s[0] != 0 { assert (2 * s[0]) / 2 == s[0]; }
        }
      } else {
        MergedTiles(s[1..]);
      }
    }
  }

  /** A move keeps every cell empty or a power of two. */
  lemma SlideKeepsTiles(row: Row)
    requires AllTiles(row)
    ensures AllTiles(SlidRow(row))
  {
    CompressTiles(row);
    MergedTiles(Compress(row));
    CompressTiles(Merged(Compress(row)));
  }

  // ---------------------------------------------------------------------
  // Grids

  predicate IsGrid(g: Grid)
  {
    |g| == 4 && forall r :: 0 <= r < 4 ==> |g[r]| == 4
  }

  predicate GridTiles(g: Grid)
    requires IsGrid(g)
  {
    forall r :: 0 <= r < 4 ==> AllTiles(g[r])
  }

  predicate IsFull(g: Grid)
    requires IsGrid(g)
  {
    forall r, c :: 0 <= r < 4 && 0 <= c < 4 ==> g[r][c] != 0
  }

  /** A clockwise quarter turn: the cell (r, c) moves to (c, 3 - r). */
  function Rotated(g: Grid): (h: Grid)
    requires IsGrid(g)
    ensures IsGrid(h)
    ensures forall r, c :: 0 <= r < 4 && 0 <= c < 4 ==> h[c][3 - r] == g[r][c]
  {
    seq(4, i requires 0 <= i < 4 => seq(4, j requires 0 <= j < 4 => g[3 - j][i]))
  }

  function RotateN(g: Grid, n: nat): (h: Grid)
    requires IsGrid(g)
    ensures IsGrid(h)
  {
    if n == 0 then g else Rotated(RotateN(g, n - 1))
  }

  /** `rotateGrid`: fill a fresh zero grid with `newGrid[c][3 - r] = grid[r][c]`. */
  method RotateGrid(g: Grid) returns (h: Grid)
    requires IsGrid(g)
    ensures h == Rotated(g)
  {
    h := EmptyGrid();
    for r := 0 to 4
      invariant IsGrid(h)
      invariant forall i, j :: 0 <= i < 4 && 0 <= j < 4 ==>
                  h[i][j] == if 3 - j < r then g[3 - j][i] else 0
    {
      for c := 0 to 4
        invariant IsGrid(h)
        invariant forall i, j :: 0 <= i < 4 && 0 <= j < 4 ==>
                    h[i][j] == if 3 - j < r || (3 - j == r && i < c) then g[3 - j][i] else 0
      {
        h := h[c := h[c][3 - r := g[r][c]]];
      }
    }
    assert forall i :: 0 <= i < 4 ==> h[i] == Rotated(g)[i];
  }

  lemma RotatedTiles(g: Grid)
    requires IsGrid(g) && GridTiles(g)
    ensures GridTiles(Rotated(g))
  {
    var h := Rotated(g);
    forall r | 0 <= r < 4 ensures AllTiles(h[r]) {
      forall c | 0 <= c < 4 ensures IsTile(h[r][c]) {
        assert h[r][c] == g[3 - c][r];
      }
    }
  }

  lemma {:induction false} RotateNTiles(g: Grid, n: nat)
    requires IsGrid(g) && GridTiles(g)
    ensures GridTiles(RotateN(g, n))
  {
    if n > 0 {
      RotateNTiles(g, n - 1);
      RotatedTiles(RotateN(g, n - 1));
    }
  }

  /** Four quarter turns are the identity. */
  lemma FourTurnsIdentity(g: Grid)
    requires IsGrid(g)
    ensures RotateN(g, 4) == g
  {
    var g1 := Rotated(g);
    var g2 := Rotated(g1);
    var g3 := Rotated(g2);
    var g4 := Rotated(g3);
    assert RotateN(g, 1) == g1;
    assert RotateN(g, 2) == g2;
    assert RotateN(g, 3) == g3;
    assert RotateN(g, 4) == g4;
    forall i | 0 <= i < 4 ensures g4[i] == g[i] {
      forall j | 0 <= j < 4 ensures g4[i][j] == g[i][j] {
        assert g4[i][j] == g3[3 - j][i] == g2[3 - i][3 - j] == g1[j][3 - i] == g[i][j];
      }
    }
  }

  lemma {:induction false} RotateNAdd(g: Grid, a: nat, b: nat)
    requires IsGrid(g)
    ensures RotateN(RotateN(g, a), b) == RotateN(g, a + b)
  {
    if b > 0 { RotateNAdd(g, a, b - 1); }
  }

  /** `move` turns the grid k times and then (4 - k) % 4 more times: the
      original orientation is restored. */
  lemma RestoreOrientation(g: Grid, k: nat)
    requires IsGrid(g) && k < 4
    ensures RotateN(RotateN(g, k), (4 - k) % 4) == g
  {
    if k > 0 {
      assert (4 - k) % 4 == 4 - k;
      RotateNAdd(g, k, 4 - k);
      FourTurnsIdentity(g);
    }
  }

  function SlideGrid(g: Grid): (h: Grid)
    requires IsGrid(g)
    ensures IsGrid(h)
  {
    seq(4, r requires 0 <= r < 4 => SlidRow(g[r]))
  }

  lemma SlideGridTiles(g: Grid)
    requires IsGrid(g) && GridTiles(g)
    ensures GridTiles(SlideGrid(g))
  {
    forall r | 0 <= r < 4 ensures AllTiles(SlideGrid(g)[r]) { SlideKeepsTiles(g[r]); }
  }

  lemma SlideGridSum(g: Grid, r: nat)
    requires IsGrid(g) && r < 4
    ensures Sum(SlideGrid(g)[r]) == Sum(g[r])
  {
    SlidePreservesSum(g[r]);
  }

  function RowsScore(g: Grid, n: nat): nat
    requires IsGrid(g) && n <= 4
  {
    if n == 0 then 0 else RowsScore(g, n - 1) + RowScore(g[n - 1])
  }

  // ---------------------------------------------------------------------
  // Directions

  datatype Direction = Up | Down | Left | Right

  /** How many clockwise turns `move` applies before sliding. */
  function RotationCount(d: Direction): (k: nat)
    ensures k < 4
  {
    match d
    case Left => 0
    case Up => 1
    case Right => 2
    case Down => 3
  }

  datatype Key = ArrowUp | ArrowDown | ArrowLeft | ArrowRight

  /** The keyboard handler's mapping from arrow keys to `move` names. */
  function KeyDirection(k: Key): Direction
  {
    match k
    case ArrowUp => Left
    case ArrowDown => Right
    case ArrowLeft => Up
    case ArrowRight => Down
  }

  /** The grid after the slide of a move, turned back to the original orientation. */
  function Moved(g: Grid, d: Direction): (h: Grid)
    requires IsGrid(g)
    ensures IsGrid(h)
  {
    var k := RotationCount(d);
    RotateN(SlideGrid(RotateN(g, k)), (4 - k) % 4)
  }

  function MoveScore(g: Grid, d: Direction): nat
    requires IsGrid(g)
  {
    RowsScore(RotateN(g, RotationCount(d)), 4)
  }

  lemma MovedTiles(g: Grid, d: Direction)
    requires IsGrid(g) && GridTiles(g)
    ensures GridTiles(Moved(g, d))
  {
    var k := RotationCount(d);
    RotateNTiles(g, k);
    SlideGridTiles(RotateN(g, k));
    RotateNTiles(SlideGrid(RotateN(g, k)), (4 - k) % 4);
  }

  /** A move named `'LEFT'` slides every row toward column 0. */
  lemma LeftSlidesRows(g: Grid)
    requires IsGrid(g)
    ensures Moved(g, Left) == SlideGrid(g)
  {
  }

  function Column(g: Grid, c: nat): Row
    requires IsGrid(g) && c < 4
  {
    [g[0][c], g[1][c], g[2][c], g[3][c]]
  }

  function Reversed(s: Row): (r: Row)
    ensures |r| == |s| && forall i :: 0 <= i < |s| ==> r[i] == s[|s| - 1 - i]
  {
    seq(|s|, i requires 0 <= i < |s| => s[|s| - 1 - i])
  }

  /** The move named `'UP'` (triggered by ArrowLeft) slides every column
      toward the bottom row: the k-th cell from the bottom of column c is
      the k-th cell of the slid bottom-to-top column. */
  lemma UpSlidesColumnsDown(g: Grid, c: nat, k: nat)
    requires IsGrid(g) && c < 4 && k < 4
    ensures Moved(g, KeyDirection(ArrowLeft))[3 - k][c] == SlidRow(Reversed(Column(g, c)))[k]
  {
    var t := Rotated(g);
    assert t[c] == Reversed(Column(g, c));
    var s := SlideGrid(t);
    RotateSteps(g);
    RotateSteps(s);
    TurnedBack3(s, c, k);
  }

  /** The move named `'RIGHT'` (triggered by ArrowDown) slides every row
      toward column 3. */
  lemma RightSlidesRowsRight(g: Grid, r: nat, k: nat)
    requires IsGrid(g) && r < 4 && k < 4
    ensures Moved(g, KeyDirection(ArrowDown))[r][3 - k] == SlidRow(Reversed(g[r]))[k]
  {
    var t := Rotated(Rotated(g));
    RotateSteps(g);
    assert t[3 - r] == Reversed(g[r]);
    var s := SlideGrid(t);
    RotateSteps(s);
    var s1 := Rotated(s);
    assert Rotated(s1)[r][3 - k] == s1[k][r] == s[3 - r][k];
  }

  /** The move named `'DOWN'` (triggered by ArrowRight) slides every column
      toward row 0. */
  lemma DownSlidesColumnsUp(g: Grid, c: nat, k: nat)
    requires IsGrid(g) && c < 4 && k < 4
    ensures Moved(g, KeyDirection(ArrowRight))[k][c] == SlidRow(Column(g, c))[k]
  {
    var t1 := Rotated(g);
    var t2 := Rotated(t1);
    var t := Rotated(t2);
    RotateSteps(g);
    forall i | 0 <= i < 4 ensures t[3 - c][i] == g[i][c] {
      assert t[3 - c][i] == t2[3 - i][3 - c] == t1[c][3 - i] == g[i][c];
    }
    assert t[3 - c] == Column(g, c);
    var s := SlideGrid(t);
    RotateSteps(s);
    assert Rotated(s)[k][c] == s[3 - c][k];
  }

  lemma RotateSteps(g: Grid)
    requires IsGrid(g)
    ensures RotateN(g, 0) == g
    ensures RotateN(g, 1) == Rotated(g)
    ensures RotateN(g, 2) == Rotated(Rotated(g))
    ensures RotateN(g, 3) == Rotated(Rotated(Rotated(g)))
  {
    assert RotateN(g, 1) == Rotated(g);
    assert RotateN(g, 2) == Rotated(RotateN(g, 1));
    assert RotateN(g, 3) == Rotated(RotateN(g, 2));
  }

  lemma TurnedBack3(s: Grid, i: nat, j: nat)
    requires IsGrid(s) && i < 4 && j < 4
    ensures Rotated(Rotated(Rotated(s)))[3 - j][i] == s[i][j]
  {
    var s1 := Rotated(s);
    var s2 := Rotated(s1);
    assert Rotated(s2)[3 - j][i] == s2[3 - i][3 - j] == s1[j][3 - i] == s[i][j];
  }

  lemma GridEq(a: Grid, b: Grid)
    requires IsGrid(a) && IsGrid(b)
    requires forall r, c :: 0 <= r < 4 && 0 <= c < 4 ==> a[r][c] == b[r][c]
    ensures a == b
  {
    assert forall r :: 0 <= r < 4 ==> a[r] == b[r];
  }

  // ---------------------------------------------------------------------
  // Spawning a tile

  /** The empty cells among the first n cells in row-major order, in that order. */
  function EmptyPrefix(g: Grid, n: nat): seq<Cell>
    requires IsGrid(g) && n <= 16
  {
    if n == 0 then []
    else EmptyPrefix(g, n - 1) +
         (if g[(n - 1) / 4][(n - 1) % 4] == 0 then [((n - 1) / 4, (n - 1) % 4)] else [])
  }

  /** The `emptyCells` list that `addRandomTile` collects. */
  function EmptyCells(g: Grid): seq<Cell>
    requires IsGrid(g)
  {
    EmptyPrefix(g, 16)
  }

  /** The collected list holds exactly the empty cells, each once. */
  lemma {:induction false} EmptyPrefixExact(g: Grid, n: nat)
    requires IsGrid(g) && n <= 16
    ensures forall p :: p in EmptyPrefix(g, n) <==>
              p.0 < 4 && p.1 < 4 && 4 * p.0 + p.1 < n && g[p.0][p.1] == 0
    ensures forall i, j :: 0 <= i < j < |EmptyPrefix(g, n)| ==> EmptyPrefix(g, n)[i] != EmptyPrefix(g, n)[j]
  {
    if n > 0 {
      EmptyPrefixExact(g, n - 1);
      var p := ((n - 1) / 4, (n - 1) % 4);
      assert 4 * p.0 + p.1 == n - 1;
      forall q: Cell | q.0 < 4 && q.1 < 4 && 4 * q.0 + q.1 == n - 1 ensures q == p { }
    }
  }

  lemma EmptyCellsExact(g: Grid)
    requires IsGrid(g)
    ensures forall p :: p in EmptyCells(g) <==> p.0 < 4 && p.1 < 4 && g[p.0][p.1] == 0
    ensures IsFull(g) <==> EmptyCells(g) == []
  {
    EmptyPrefixExact(g, 16);
    if EmptyCells(g) != [] {
      assert EmptyCells(g)[0] in EmptyCells(g);
    }
    if !IsFull(g) {
      var r, c :| 0 <= r < 4 && 0 <= c < 4 && g[r][c] == 0;
      assert (r, c) in EmptyCells(g);
    }
  }

  /** The random index is below the number of empty cells whenever there is one. */
  predicate ValidPick(g: Grid, pick: nat)
    requires IsGrid(g)
  {
    EmptyCells(g) != [] ==> pick < |EmptyCells(g)|
  }

  function Spawned(g: Grid, pick: nat, four: bool): (h: Grid)
    requires IsGrid(g) && ValidPick(g, pick)
    ensures IsGrid(h)
  {
    if EmptyCells(g) == [] then g
    else
      var (r, c) := EmptyCells(g)[pick];
      EmptyCellsExact(g);
      g[r := g[r][c := if four then 4 else 2]]
  }

  /** `addRandomTile`: `pick` stands for the random index into the empty
      cells, `four` for the 10% draw of a 4 instead of a 2. */
  method AddRandomTile(g: Grid, pick: nat, four: bool) returns (h: Grid)
    requires IsGrid(g) && ValidPick(g, pick)
    ensures h == Spawned(g, pick, four)
    ensures IsFull(g) ==> h == g
    ensures !IsFull(g) ==>
              exists r, c :: 0 <= r < 4 && 0 <= c < 4 && g[r][c] == 0 && h[r][c] == (if four then 4 else 2) &&
                forall r', c' :: 0 <= r' < 4 && 0 <= c' < 4 && (r', c') != (r, c) ==> h[r'][c'] == g[r'][c']
  {
    var emptyCells: seq<Cell> := [];
    for r := 0 to 4
      invariant emptyCells == EmptyPrefix(g, 4 * r)
    {
      for c := 0 to 4
        invariant emptyCells == EmptyPrefix(g, 4 * r + c)
      {
        assert (4 * r + c) / 4 == r && (4 * r + c) % 4 == c;
        if g[r][c] == 0 {
          emptyCells := emptyCells + [(r, c)];
        }
      }
    }
    EmptyCellsExact(g);
    if |emptyCells| == 0 {
      return g;
    }
    var (r, c) := emptyCells[pick];
    h := g[r := g[r][c := if four then 4 else 2]];
    assert (r, c) in EmptyCells(g);
  }

  lemma SpawnedTiles(g: Grid, pick: nat, four: bool)
    requires IsGrid(g) && ValidPick(g, pick) && GridTiles(g)
    ensures GridTiles(Spawned(g, pick, four))
  {
    var h := Spawned(g, pick, four);
    assert IsPow2(4) by { assert 4 / 2 == 2; }
    forall r | 0 <= r < 4 ensures AllTiles(h[r]) {
      forall c | 0 <= c < 4 ensures IsTile(h[r][c]) { }
    }
  }

  /** The code declares the game over as soon as the grid is full after a
      spawn (`Game.Move` sets `gameOver` to `IsFull`), yet a full grid whose
      row starts with two equal tiles still changes under a left move. */
  lemma FullGridCanStillMove(g: Grid, r: nat)
    requires IsGrid(g) && IsFull(g) && r < 4
    requires g[r][0] == g[r][1]
    ensures Moved(g, Left) != g
  {
    var row := g[r];
    NonZeroCompress(row);
    var m := Merged(row);
    assert m[0] == 2 * row[0];
    assert m == [m[0]] + m[1..];
    assert Compress(m)[0] == 2 * row[0];
    LeftSlidesRows(g);
    assert Moved(g, Left)[r][0] == 2 * g[r][0] != g[r][0];
  }

  /** A row with no hole and no equal neighbours does not move. */
  lemma SlideUnmergeable(row: Row)
    requires |row| == 4
    requires forall i :: 0 <= i < 4 ==> row[i] != 0
    requires forall i :: 0 <= i < 3 ==> row[i] != row[i + 1]
    ensures SlidRow(row) == row
  {
    NonZeroCompress(row);
    NoEqualNeighbours(row);
  }

  lemma {:induction false} NoEqualNeighbours(s: Row)
    requires forall i :: 0 <= i < |s| - 1 ==> s[i] != s[i + 1]
    ensures Merged(s) == s
  {
    if |s| >= 2 {
      NoEqualNeighbours(s[1..]);
      assert s == [s[0]] + s[1..];
    }
  }

  lemma {:induction false} NonZeroCompress(s: Row)
    requires forall i :: 0 <= i < |s| ==> s[i] != 0
    ensures Compress(s) == s
  {
    if s != [] {
      NonZeroCompress(s[1..]);
      assert s == [s[0]] + s[1..];
    }
  }

  // ---------------------------------------------------------------------
  // The component state

  class Game {
    var grid: Grid
    var score: nat
    var gameOver: bool

    ghost predicate Valid()
      reads this
    {
      IsGrid(grid) && GridTiles(grid)
    }

    /** Mounting runs `initializeGame`; the picks are its two random tile draws. */
    constructor (pick1: nat, four1: bool, pick2: nat, four2: bool)
      requires pick1 < 16 && pick2 < 15
      ensures Valid()
      ensures grid == InitialGrid(pick1, four1, pick2, four2) && score == 0 && !gameOver
    {
      grid := EmptyGrid();
      score := 0;
      gameOver := false;
      new;
      InitializeGame(pick1, four1, pick2, four2);
    }

    /** `initializeGame`: an empty grid with two spawned tiles, score 0, not over. */
    method InitializeGame(pick1: nat, four1: bool, pick2: nat, four2: bool)
      requires pick1 < 16 && pick2 < 15
      modifies this
      ensures Valid()
      ensures grid == InitialGrid(pick1, four1, pick2, four2) && score == 0 && !gameOver
    {
      var initialGrid := SpawnTwo(pick1, four1, pick2, four2);
      grid := initialGrid;
      score := 0;
      gameOver := false;
    }

    /** `move`: a no-op once the game is over or when the slide changes no
        cell; otherwise the grid gets the spawned tile, the score the move
        score, and `gameOver` is set exactly when the new grid is full. */
    method Move(d: Direction, pick: nat, four: bool)
      requires Valid() && ValidPick(Moved(grid, d), pick)
      modifies this
      ensures Valid()
      ensures old(gameOver) || Moved(old(grid), d) == old(grid) ==>
                grid == old(grid) && score == old(score) && gameOver == old(gameOver)
      ensures !old(gameOver) && Moved(old(grid), d) != old(grid) ==>
                && grid == Spawned(Moved(old(grid), d), pick, four)
                && score == old(score) + MoveScore(old(grid), d)
                && gameOver == IsFull(grid)
    {
      if gameOver {
        return;
      }
      var current := grid;
      var finalGrid, totalMoveScore := SlideInDirection(current, d);
      if current != finalGrid {
        MovedTiles(current, d);
        SpawnedTiles(finalGrid, pick, four);
        var gridWithNewTile := AddRandomTile(finalGrid, pick, four);
        grid := gridWithNewTile;
        score := score + totalMoveScore;
        var isFull := CheckFull(gridWithNewTile);
        if isFull {
          gameOver := true;
        }
      }
    }
  }

  /** The grid part of `initializeGame`: two `addRandomTile` calls on the empty grid. */
  method SpawnTwo(pick1: nat, four1: bool, pick2: nat, four2: bool) returns (initialGrid: Grid)
    requires pick1 < 16 && pick2 < 15
    ensures initialGrid == InitialGrid(pick1, four1, pick2, four2)
    ensures IsGrid(initialGrid) && GridTiles(initialGrid)
  {
    initialGrid := EmptyGrid();
    InitialPicksValid(pick1, four1, pick2);
    initialGrid := AddRandomTile(initialGrid, pick1, four1);
    initialGrid := AddRandomTile(initialGrid, pick2, four2);
    InitialGridTiles(pick1, four1, pick2, four2);
  }

  /** The body of `move` up to the change check: turn `moveCount` times,
      slide every row while summing the row scores, turn back. */
  method SlideInDirection(current: Grid, d: Direction) returns (finalGrid: Grid, totalMoveScore: nat)
    requires IsGrid(current)
    ensures finalGrid == Moved(current, d) && totalMoveScore == MoveScore(current, d)
  {
    var tempGrid := current;
    var moveCount := RotationCount(d);
    for i := 0 to moveCount
      invariant tempGrid == RotateN(current, i)
    {
      tempGrid := RotateGrid(tempGrid);
    }
    var newGridAfterSlide;
    newGridAfterSlide, totalMoveScore := SlideRows(tempGrid);
    finalGrid := newGridAfterSlide;
    for i := 0 to (4 - moveCount) % 4
      invariant finalGrid == RotateN(newGridAfterSlide, i)
    {
      finalGrid := RotateGrid(finalGrid);
    }
  }

  /** The row loop of `move`: slide every row and add up the row scores. */
  method SlideRows(tempGrid: Grid) returns (newGridAfterSlide: Grid, totalMoveScore: nat)
    requires IsGrid(tempGrid)
    ensures newGridAfterSlide == SlideGrid(tempGrid) && totalMoveScore == RowsScore(tempGrid, 4)
  {
    totalMoveScore := 0;
    newGridAfterSlide := [];
    for r := 0 to 4
      invariant |newGridAfterSlide| == r
      invariant forall k :: 0 <= k < r ==> newGridAfterSlide[k] == SlidRow(tempGrid[k])
      invariant totalMoveScore == RowsScore(tempGrid, r)
    {
      var newRow, rowScore := Slide(tempGrid[r]);
      totalMoveScore := totalMoveScore + rowScore;
      newGridAfterSlide := newGridAfterSlide + [newRow];
    }
  }

  /** The game-over scan of `move`: is there no empty cell left? */
  method CheckFull(g: Grid) returns (isFull: bool)
    requires IsGrid(g)
    ensures isFull == IsFull(g)
  {
    isFull := true;
    for r := 0 to 4
      invariant isFull <==> forall r', c' :: 0 <= r' < r && 0 <= c' < 4 ==> g[r'][c'] != 0
    {
      for c := 0 to 4
        invariant isFull <==>
                    (forall r', c' :: 0 <= r' < r && 0 <= c' < 4 ==> g[r'][c'] != 0) &&
                    (forall c' :: 0 <= c' < c ==> g[r][c'] != 0)
      {
        if g[r][c] == 0 {
          isFull := false;
        }
      }
    }
  }

  function InitialGrid(pick1: nat, four1: bool, pick2: nat, four2: bool): (g: Grid)
    requires pick1 < 16 && pick2 < 15
    ensures IsGrid(g)
  {
    var empty := EmptyGrid();
    InitialPicksValid(pick1, four1, pick2);
    Spawned(Spawned(empty, pick1, four1), pick2, four2)
  }

  /** The all-zero grid `initializeGame` starts from (and `useState` holds before it). */
  function EmptyGrid(): (g: Grid)
    ensures IsGrid(g) && forall r, c :: 0 <= r < 4 && 0 <= c < 4 ==> g[r][c] == 0
  {
    seq(4, _ => seq(4, _ => 0))
  }

  /** On a fresh grid the first draw sees 16 empty cells and the second 15. */
  lemma InitialPicksValid(pick1: nat, four1: bool, pick2: nat)
    requires pick1 < 16 && pick2 < 15
    ensures var empty := EmptyGrid();
            && ValidPick(empty, pick1)
            && |EmptyCells(Spawned(empty, pick1, four1))| == 15
            && ValidPick(Spawned(empty, pick1, four1), pick2)
  {
    var empty := EmptyGrid();
    EmptyCountAll(empty, 16);
    var one := Spawned(empty, pick1, four1);
    var p := EmptyCells(empty)[pick1];
    EmptyCellsExact(empty);
    EmptyCountAllBut(one, p, 16);
  }

  lemma {:induction false} EmptyCountAll(g: Grid, n: nat)
    requires IsGrid(g) && n <= 16
    requires forall r, c :: 0 <= r < 4 && 0 <= c < 4 ==> g[r][c] == 0
    ensures |EmptyPrefix(g, n)| == n
  {
    if n > 0 { EmptyCountAll(g, n - 1); }
  }

  lemma {:induction false} EmptyCountAllBut(g: Grid, p: Cell, n: nat)
    requires IsGrid(g) && n <= 16 && p.0 < 4 && p.1 < 4
    requires forall r, c :: 0 <= r < 4 && 0 <= c < 4 ==> (g[r][c] == 0 <==> (r, c) != p)
    ensures |EmptyPrefix(g, n)| == if 4 * p.0 + p.1 < n then n - 1 else n
  {
    if n > 0 {
      EmptyCountAllBut(g, p, n - 1);
      assert 4 * ((n - 1) / 4) + (n - 1) % 4 == n - 1;
    }
  }

  lemma InitialGridTiles(pick1: nat, four1: bool, pick2: nat, four2: bool)
    requires pick1 < 16 && pick2 < 15
    ensures GridTiles(InitialGrid(pick1, four1, pick2, four2))
  {
    var empty := EmptyGrid();
    InitialPicksValid(pick1, four1, pick2);
    assert GridTiles(empty);
    SpawnedTiles(empty, pick1, four1);
    SpawnedTiles(Spawned(empty, pick1, four1), pick2, four2);
  }
}
