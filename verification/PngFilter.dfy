/** The scanline filters of PNG (PNG Second Edition, section 9). */
module PngFilter {
  import opened Bits
  import opened Options
  import opened Buffers

  // ---------------------------------------------------------------- the predictors

  function Abs(x: int): nat {
    if x < 0 then -x else x
  }

  /** The predictor as PNG, section 9.4, defines it. */
  function Paeth(a: byte, b: byte, c: byte): (r: byte) {
    var p := a as int + b as int - c as int;
    var pa, pb, pc := Abs(p - a as int), Abs(p - b as int), Abs(p - c as int);
    if pa <= pb && pa <= pc then a else if pb <= pc then b else c
  }

  /** paethPredictor: other differences, other comparisons, the same byte */
  function PaethPredictor(a: byte, b: byte, c: byte): (r: byte)
    ensures r == Paeth(a, b, c)
  {
    var pa, pb, pc := Abs(b as int - c as int), Abs(a as int - c as int),
        Abs(a as int + b as int - c as int - c as int);
    if pc < pa && pc < pb then c else if pb < pa then b else a
  }

  /** What is subtracted from a byte, given its neighbours to the left, above, and above to the left. */
  function Predict(t: nat, a: byte, b: byte, c: byte): (r: byte)
    requires t <= 4
  {
    if t == 0 then 0
    else if t == 1 then a
    else if t == 2 then b
    else if t == 3 then (a as nat + b as nat) / 2
    else Paeth(a, b, c)
  }

  /** The average is rounded down. */
  lemma AverageRoundsDown(a: byte, b: byte, c: byte)
    ensures 2 * Predict(3, a, b, c) as nat <= a as nat + b as nat < 2 * Predict(3, a, b, c) as nat + 2
  {
  }

  /** The neighbour that is nearest to a + b - c; of equally near ones the left one, then the one above. */
  lemma PaethIsNearest(a: byte, b: byte, c: byte)
    ensures var p := a as int + b as int - c as int;
            var near := (x: byte) => if x as int < p then p - x as int else x as int - p;
            && (near(a) <= near(b) && near(a) <= near(c) ==> PaethPredictor(a, b, c) == a)
            && (near(b) < near(a) && near(b) <= near(c) ==> PaethPredictor(a, b, c) == b)
            && (near(c) < near(a) && near(c) < near(b) ==> PaethPredictor(a, b, c) == c)
  {
  }

  function Left(row: seq<byte>, i: nat, bw: nat): byte
    requires i <= |row|
  {
    if 0 < bw <= i then row[i - bw] else 0
  }

  /** The row before the first one counts as zeros. */
  function Above(prior: seq<byte>, i: nat): byte {
    if i < |prior| then prior[i] else 0
  }

  function AboveLeft(prior: seq<byte>, i: nat, bw: nat): byte {
    if bw <= i then Above(prior, i - bw) else 0
  }

  function Plus(x: byte, y: byte): byte {
    (x as nat + y as nat) % 256
  }

  function Minus(x: byte, y: byte): byte {
    (x as int - y as int) % 256
  }

  /** Byte i of the filtered row. */
  function FilterByte(t: nat, bw: nat, prior: seq<byte>, raw: seq<byte>, i: nat): byte
    requires t <= 4 && i < |raw|
  {
    Minus(raw[i], Predict(t, Left(raw, i, bw), Above(prior, i), AboveLeft(prior, i, bw)))
  }

  /** A row after filtering. */
  function FilterRow(t: nat, bw: nat, prior: seq<byte>, raw: seq<byte>): (r: seq<byte>)
    requires t <= 4
    ensures |r| == |raw|
    ensures forall i | 0 <= i < |raw| :: r[i] == FilterByte(t, bw, prior, raw, i)
  {
    seq(|raw|, i requires 0 <= i < |raw| => FilterByte(t, bw, prior, raw, i))
  }

  /** The next byte of a row that is being reconstructed. */
  function UnfilterByte(t: nat, bw: nat, prior: seq<byte>, front: seq<byte>, x: byte): byte
    requires t <= 4
  {
    Plus(x, Predict(t, Left(front, |front|, bw), Above(prior, |front|), AboveLeft(prior, |front|, bw)))
  }

  /** The first n bytes of a reconstructed row. */
  function UnfilterRow(t: nat, bw: nat, prior: seq<byte>, filtered: seq<byte>, n: nat): (r: seq<byte>)
    requires t <= 4 && n <= |filtered|
    ensures |r| == n
  {
    if n == 0 then []
    else
      var front := UnfilterRow(t, bw, prior, filtered, n - 1);
      front + [UnfilterByte(t, bw, prior, front, filtered[n - 1])]
  }

  lemma PlusZero()
    ensures forall x: byte :: Plus(x, 0) == x
  {
  }

  lemma MinusPlus(x: byte, y: byte)
    ensures Plus(Minus(x, y), y) == x
  {
  }

  /** Unfiltering undoes filtering, whatever the filter type, the pixel size and the row before. */
  lemma {:induction false} RowInverse(t: nat, bw: nat, prior: seq<byte>, raw: seq<byte>, n: nat)
    requires t <= 4 && n <= |raw|
    ensures UnfilterRow(t, bw, prior, FilterRow(t, bw, prior, raw), n) == raw[..n]
  {
    hide FilterRow, Predict, Minus, Plus;
    if n > 0 {
      RowInverse(t, bw, prior, raw, n - 1);
      var i := n - 1;
      assert Left(raw[..i], i, bw) == Left(raw, i, bw);
      MinusPlus(raw[i], Predict(t, Left(raw, i, bw), Above(prior, i), AboveLeft(prior, i, bw)));
      assert raw[..n] == raw[..i] + [raw[i]];
    }
  }

  // ---------------------------------------------------------------- images

  /** The last row of the rows so far; above the first row there is none. */
  function LastRow(rows: seq<byte>, lb: nat): (r: seq<byte>) {
    if |rows| < lb then [] else rows[|rows| - lb..]
  }

  function FilteredRow(t: byte, bw: nat, prior: seq<byte>, raw: seq<byte>): (r: seq<byte>)
    requires t <= 4
    ensures |r| == 1 + |raw|
  {
    [t] + FilterRow(t, bw, prior, raw)
  }

  lemma {:induction false} RowBehind(lb: nat, y: nat)
    ensures Pos(1 + lb, y) == Pos(lb, y) + y
  {
    if y > 0 { RowBehind(lb, y - 1); }
  }

  /** The first n rows, each with its filter type in front. */
  function FilterRows(types: seq<byte>, bw: nat, lb: nat, image: seq<byte>, n: nat): (r: seq<byte>)
    requires n <= |types| && (forall y | 0 <= y < n :: types[y] <= 4) && Pos(lb, n) <= |image|
    ensures |r| == Pos(1 + lb, n)
  {
    if n == 0 then []
    else
      RowFits(lb, n - 1, n);
      var s := Pos(lb, n - 1);
      FilterRows(types, bw, lb, image, n - 1) + FilteredRow(types[n - 1], bw, LastRow(image[..s], lb), image[s..s + lb])
  }

  /** The first n rows reconstructed, unless one of them has a filter type that does not exist. */
  function UnfilterRows(bw: nat, lb: nat, data: seq<byte>, n: nat): (r: Option<seq<byte>>)
    requires Pos(1 + lb, n) <= |data|
    ensures r.Some? ==> |r.value| == Pos(lb, n)
  {
    if n == 0 then Some([])
    else
      RowFits(1 + lb, n - 1, n);
      var s := Pos(1 + lb, n - 1);
      var front := UnfilterRows(bw, lb, data, n - 1);
      if front == None || data[s] > 4 then None
      else Some(front.value + UnfilterRow(data[s], bw, LastRow(front.value, lb), data[s + 1..s + 1 + lb], lb))
  }

  /** Only the rows themselves matter. */
  lemma {:induction false} UnfilterPrefix(bw: nat, lb: nat, a: seq<byte>, b: seq<byte>, n: nat)
    requires Pos(1 + lb, n) <= |a|
    ensures Pos(1 + lb, n) <= |a + b| && UnfilterRows(bw, lb, a + b, n) == UnfilterRows(bw, lb, a, n)
  {
    hide UnfilterRow, LastRow, Pos;
    if n > 0 {
      RowFits(1 + lb, n - 1, n);
      UnfilterPrefix(bw, lb, a, b, n - 1);
      var s := Pos(1 + lb, n - 1);
      assert (a + b)[s + 1..s + 1 + lb] == a[s + 1..s + 1 + lb];
    }
  }

  /** One more row. */
  lemma UnfilterNext(bw: nat, lb: nat, front: seq<byte>, row: seq<byte>, n: nat, f: seq<byte>)
    requires n > 0 && |front| == Pos(1 + lb, n - 1) && |row| == 1 + lb && row[0] <= 4
    requires UnfilterRows(bw, lb, front, n - 1) == Some(f)
    ensures |front + row| == Pos(1 + lb, n)
    ensures UnfilterRows(bw, lb, front + row, n) == Some(f + UnfilterRow(row[0], bw, LastRow(f, lb), row[1..], lb))
  {
    hide UnfilterRow, LastRow;
    RowFits(1 + lb, n - 1, n);
    UnfilterPrefix(bw, lb, front, row, n - 1);
    var data := front + row;
    assert data[|front| + 1..|front| + 1 + lb] == row[1..];
  }

  /** Unfiltering a filtered image gives the image, whatever type was chosen for each row. */
  lemma {:induction false} ImageInverse(types: seq<byte>, bw: nat, lb: nat, image: seq<byte>, n: nat)
    requires n <= |types| && (forall y | 0 <= y < n :: types[y] <= 4) && Pos(lb, n) <= |image|
    ensures UnfilterRows(bw, lb, FilterRows(types, bw, lb, image, n), n) == Some(image[..Pos(lb, n)])
  {
    hide FilterRow, UnfilterRow, LastRow;
    if n > 0 {
      RowFits(lb, n - 1, n);
      var s := Pos(lb, n - 1);
      var prior, raw := LastRow(image[..s], lb), image[s..s + lb];
      ImageInverse(types, bw, lb, image, n - 1);
      UnfilterNext(bw, lb, FilterRows(types, bw, lb, image, n - 1), FilteredRow(types[n - 1], bw, prior, raw), n,
          image[..s]);
      RowInverse(types[n - 1], bw, prior, raw, lb);
      assert raw[..lb] == raw;
      assert image[..Pos(lb, n)] == image[..s] + raw;
    }
  }

  // ---------------------------------------------------------------- the bytes of scanlines

  /**
   * The five filter types for one byte: x in the image, with a to the left, b above and c above to the left, is
   * what byte f of a scanline of type t stands for.
   */
  predicate StandsFor(t: byte, f: byte, a: byte, b: byte, c: byte, x: byte) {
    && t <= 4
    && (t == 0 ==> x == f)
    && (t == 1 ==> x as nat == (f as nat + a as nat) % 256)
    && (t == 2 ==> x as nat == (f as nat + b as nat) % 256)
    && (t == 3 ==> x as nat == (f as nat + (a as nat + b as nat) / 2) % 256)
    && (t == 4 ==> x as nat == (f as nat + PaethPredictor(a, b, c) as nat) % 256)
  }

  /** Byte i of row y of the image; its neighbours outside of the image count as zeros. */
  predicate ByteStands(lines: seq<byte>, image: seq<byte>, bw: nat, lb: nat, y: nat, i: nat)
    requires i < lb
  {
    var p, q := Pos(lb, y) + i, Pos(1 + lb, y);
    && p < |image| && q + 1 + i < |lines|
    && StandsFor(lines[q], lines[q + 1 + i],
                 if bw <= i then image[p - bw] else 0,
                 if y > 0 then image[p - lb] else 0,
                 if y > 0 && bw <= i then image[p - lb - bw] else 0,
                 image[p])
  }

  /** The first h rows of the image, and scanlines that stand for them. */
  ghost predicate Stand(lines: seq<byte>, image: seq<byte>, bw: nat, lb: nat, h: nat) {
    forall y: nat, i: nat | y < h && i < lb :: ByteStands(lines, image, bw, lb, y, i)
  }

  /** The bytes of an unfiltered row are made one after the other. */
  lemma {:induction false} UnfilteredByte(t: nat, bw: nat, prior: seq<byte>, filtered: seq<byte>, n: nat, i: nat)
    requires t <= 4 && i < n <= |filtered|
    ensures var row := UnfilterRow(t, bw, prior, filtered, n);
            row[i] == UnfilterByte(t, bw, prior, row[..i], filtered[i])
    decreases n
  {
    hide UnfilterByte;
    var front := UnfilterRow(t, bw, prior, filtered, n - 1);
    var row := UnfilterRow(t, bw, prior, filtered, n);
    if i < n - 1 {
      UnfilteredByte(t, bw, prior, filtered, n - 1, i);
      assert row[..i] == front[..i];
    } else {
      assert row[..i] == front;
    }
  }

  lemma UnfilterStands(t: byte, bw: nat, prior: seq<byte>, front: seq<byte>, f: byte)
    requires t <= 4 && 0 < bw
    ensures var i := |front|;
            StandsFor(t, f, if bw <= i then front[i - bw] else 0, if i < |prior| then prior[i] else 0,
                      if bw <= i && i - bw < |prior| then prior[i - bw] else 0, UnfilterByte(t, bw, prior, front, f))
  {
    hide Paeth, PaethPredictor;
  }

  /** Byte i of the last of n rows. */
  lemma LastRowStands(bw: nat, lb: nat, data: seq<byte>, n: nat, i: nat)
    requires 0 < bw && i < lb && n > 0 && Pos(1 + lb, n) <= |data| && UnfilterRows(bw, lb, data, n).Some?
    ensures ByteStands(data, UnfilterRows(bw, lb, data, n).value, bw, lb, n - 1, i)
  {
    hide UnfilterByte, StandsFor, UnfilterRow, Pos, LastRow;
    RowFits(1 + lb, n - 1, n);
    RowFits(lb, n - 1, n);
    var s := Pos(1 + lb, n - 1);
    var front := UnfilterRows(bw, lb, data, n - 1).value;
    var prior, filtered := LastRow(front, lb), data[s + 1..s + 1 + lb];
    var row := UnfilterRow(data[s], bw, prior, filtered, lb);
    var image := UnfilterRows(bw, lb, data, n).value;
    UnfilteredByte(data[s], bw, prior, filtered, lb, i);
    UnfilterStands(data[s], bw, prior, row[..i], filtered[i]);
    RowNeighbours(front, row, prior, bw, lb, n - 1, i);
    assert image == front + row;
  }

  lemma RowNeighbours(front: seq<byte>, row: seq<byte>, prior: seq<byte>, bw: nat, lb: nat, y: nat, i: nat)
    requires 0 < bw && i < lb == |row| && |front| == Pos(lb, y) && prior == LastRow(front, lb)
    ensures var p, image := Pos(lb, y) + i, front + row;
            && image[p] == row[i]
            && (bw <= i ==> image[p - bw] == row[..i][i - bw])
            && (if y > 0 then p >= lb && i < |prior| && image[p - lb] == prior[i] else |prior| == 0)
            && (y > 0 && bw <= i ==> p - lb >= bw && i - bw < |prior| && image[p - lb - bw] == prior[i - bw])
  {
  }

  /** A longer image: the rows before have not changed. */
  lemma StillStands(lines: seq<byte>, image: seq<byte>, more: seq<byte>, bw: nat, lb: nat, y: nat, i: nat)
    requires i < lb && ByteStands(lines, image, bw, lb, y, i)
    ensures ByteStands(lines, image + more, bw, lb, y, i)
  {
    hide StandsFor;
  }

  /** Unfiltering, byte by byte: the image is what the scanlines stand for. */
  lemma {:induction false} UnfilteredStands(bw: nat, lb: nat, data: seq<byte>, n: nat)
    requires 0 < bw && Pos(1 + lb, n) <= |data| && UnfilterRows(bw, lb, data, n).Some?
    ensures Stand(data, UnfilterRows(bw, lb, data, n).value, bw, lb, n)
  {
    hide UnfilterRow, ByteStands, LastRow, Pos;
    if n > 0 {
      RowFits(1 + lb, n - 1, n);
      UnfilteredStands(bw, lb, data, n - 1);
      var image := UnfilterRows(bw, lb, data, n).value;
      forall y: nat, i: nat | y < n && i < lb ensures ByteStands(data, image, bw, lb, y, i) {
        if y == n - 1 {
          LastRowStands(bw, lb, data, n, i);
        } else {
          var s, front := Pos(1 + lb, n - 1), UnfilterRows(bw, lb, data, n - 1).value;
          assert ByteStands(data, front, bw, lb, y, i);
          var row := UnfilterRow(data[s], bw, LastRow(front, lb), data[s + 1..s + 1 + lb], lb);
          StillStands(data, front, row, bw, lb, y, i);
        }
      }
    }
  }

  /** Filtering, byte by byte: the scanlines stand for the image. */
  lemma FilteredStands(types: seq<byte>, bw: nat, lb: nat, image: seq<byte>, n: nat)
    requires n <= |types| && (forall y | 0 <= y < n :: types[y] <= 4) && Pos(lb, n) == |image| && 0 < bw
    ensures Stand(FilterRows(types, bw, lb, image, n), image, bw, lb, n)
  {
    hide Stand, FilterRows, UnfilterRows, Pos;
    ImageInverse(types, bw, lb, image, n);
    assert image[..Pos(lb, n)] == image;
    UnfilteredStands(bw, lb, FilterRows(types, bw, lb, image, n), n);
  }

  /** Each row begins with its type. */
  lemma {:induction false} TypesStand(types: seq<byte>, bw: nat, lb: nat, image: seq<byte>, n: nat, y: nat)
    requires y < n <= |types| && (forall k | 0 <= k < n :: types[k] <= 4) && Pos(lb, n) <= |image|
    ensures TypeIs(FilterRows(types, bw, lb, image, n), lb, y, types[y])
  {
    hide FilterRow, LastRow;
    RowFits(lb, n - 1, n);
    RowFits(1 + lb, y, n);
    if y < n - 1 { TypesStand(types, bw, lb, image, n - 1, y); }
  }

  /** Unfiltering fails exactly at a type that does not exist. */
  lemma {:induction false} UnfilterFails(bw: nat, lb: nat, data: seq<byte>, n: nat)
    requires Pos(1 + lb, n) <= |data|
    ensures UnfilterRows(bw, lb, data, n) == None <==> !TypesExist(data, lb, n)
  {
    hide UnfilterRow, LastRow, Pos;
    if n > 0 {
      RowFits(1 + lb, n - 1, n);
      UnfilterFails(bw, lb, data, n - 1);
      assert TypeExists(data, lb, n - 1) <==> data[Pos(1 + lb, n - 1)] <= 4;
    }
  }

  /** The type of row y is t. */
  predicate TypeIs(lines: seq<byte>, lb: nat, y: nat, t: byte) {
    Pos(1 + lb, y) < |lines| && lines[Pos(1 + lb, y)] == t
  }

  predicate TypeExists(lines: seq<byte>, lb: nat, y: nat) {
    Pos(1 + lb, y) < |lines| && lines[Pos(1 + lb, y)] <= 4
  }

  ghost predicate TypesExist(lines: seq<byte>, lb: nat, n: nat) {
    forall y: nat | y < n :: TypeExists(lines, lb, y)
  }

  /** What there is to say about the result of unfiltering. */
  /** The error number, and the image in the output. */
  ghost predicate Restored(out: seq<byte>, base: nat, data: seq<byte>, bw: nat, lb: nat, h: nat, error: nat) {
    && error == (if TypesExist(data, lb, h) then 0 else 36)
    && (error == 0 ==> base + Pos(lb, h) <= |out| && Stand(data, out[base..base + Pos(lb, h)], bw, lb, h))
  }

  lemma UnfilterResult(now: seq<byte>, was: seq<byte>, outBase: nat, bw: nat, lb: nat, data: seq<byte>, h: nat,
                       error: nat)
    requires 0 < bw && Pos(1 + lb, h) <= |data|
    requires error == if UnfilterRows(bw, lb, data, h).Some? then 0 else 36
    requires error == 0 ==> Placed(now, was, outBase, UnfilterRows(bw, lb, data, h).value)
    ensures Restored(now, outBase, data, bw, lb, h, error)
  {
    hide UnfilterRows, TypesExist, Stand, Pos, Placed;
    UnfilterFails(bw, lb, data, h);
    if UnfilterRows(bw, lb, data, h).Some? && Placed(now, was, outBase, UnfilterRows(bw, lb, data, h).value) {
      UnfilteredStands(bw, lb, data, h);
      PlacedAt(now, was, outBase, UnfilterRows(bw, lb, data, h).value);
    }
  }

  /** The scanlines in the output: their types, and what their bytes stand for. */
  ghost predicate StandAt(out: seq<byte>, base: nat, image: seq<byte>, bw: nat, lb: nat, h: nat, types: seq<byte>) {
    && base + Pos(1 + lb, h) <= |out| && h <= |types|
    && var lines := out[base..base + Pos(1 + lb, h)];
       Stand(lines, image, bw, lb, h) && forall y: nat | y < h :: TypeIs(lines, lb, y, types[y])
  }

  lemma FilterResult(now: seq<byte>, was: seq<byte>, outBase: nat, types: seq<byte>, bw: nat, lb: nat, image: seq<byte>,
                     h: nat)
    requires h <= |types| && (forall y | 0 <= y < h :: types[y] <= 4) && Pos(lb, h) == |image| && 0 < bw
    requires Placed(now, was, outBase, FilterRows(types, bw, lb, image, h))
    ensures StandAt(now, outBase, image, bw, lb, h, types)
  {
    hide FilterRows, Stand, Pos, Placed;
    FilteredStands(types, bw, lb, image, h);
    forall y: nat | y < h ensures TypeIs(FilterRows(types, bw, lb, image, h), lb, y, types[y]) {
      TypesStand(types, bw, lb, image, h, y);
    }
    PlacedAt(now, was, outBase, FilterRows(types, bw, lb, image, h));
  }

  // ---------------------------------------------------------------- unfilterScanline

  /** The row before the one at hand: a null pointer, or an index into the reconstructed image. */
  function PriorRow(precon: Option<nat>, image: seq<byte>, length: nat): (r: seq<byte>)
    requires precon.Some? ==> precon.value + length <= |image|
    ensures |r| == if precon == None then 0 else length
  {
    if precon == None then [] else image[precon.value..precon.value + length]
  }

  /**
   * One row being unfiltered: the buffer as it was, where the result goes (r) and the input stands (s),
   * the filter type, the pixel size, where the row before stands, and the input row.
   */
  datatype Job = Job(was: seq<byte>, r: nat, s: nat, t: byte, bw: nat, precon: Option<nat>, line: seq<byte>) {
    ghost predicate Valid() {
      && t <= 4 && 0 < bw <= |line| && r + |line| <= |was|
      && (precon.Some? ==> precon.value + |line| <= r)
    }

    ghost function Prior(): seq<byte>
      requires Valid()
    {
      PriorRow(precon, was, |line|)
    }

    /** The first i bytes of the result. */
    ghost function Result(i: nat): (u: seq<byte>)
      requires Valid() && i <= |line|
      ensures |u| == i
    {
      UnfilterRow(t, bw, Prior(), line, i)
    }

    ghost function Next(i: nat): byte
      requires Valid() && i < |line|
    {
      UnfilterByte(t, bw, Prior(), Result(i), line[i])
    }

    /** i bytes are done; the rest of the input is still there. */
    ghost predicate Underway(recon: seq<byte>, scan: seq<byte>, i: nat)
      requires Valid()
    {
      && i <= |line| && s + |line| <= |scan|
      && Placed(recon, was, r, Result(i))
      && forall j | i <= j < |line| :: scan[s + j] == line[j]
    }

    lemma Start(scan: seq<byte>)
      requires Valid() && s + |line| <= |scan| && scan[s..s + |line|] == line
      ensures Underway(was, scan, 0)
    {
      forall j | 0 <= j < |line| ensures scan[s + j] == line[j] {
        assert scan[s..s + |line|][j] == scan[s + j];
      }
    }

    /** The neighbours that the next byte is predicted from. */
    ghost function LeftByte(recon: seq<byte>, i: nat): byte
      requires r + i <= |recon|
    {
      if 0 < bw <= i then recon[r + i - bw] else 0
    }

    ghost function AboveByte(recon: seq<byte>, i: nat): byte
      requires r + i <= |recon| && (precon.Some? ==> precon.value < r)
    {
      if precon == None then 0 else recon[precon.value + i]
    }

    lemma Neighbours(recon: seq<byte>, scan: seq<byte>, i: nat)
      requires Valid() && Underway(recon, scan, i) && i < |line|
      ensures |recon| == |was| && scan[s + i] == line[i]
      ensures Next(i) == Plus(line[i], Predict(t, LeftByte(recon, i), AboveByte(recon, i),
                                               if bw <= i then AboveByte(recon, i - bw) else 0))
    {
      hide UnfilterRow, Predict, Plus, Placed, Left, Above, AboveLeft, LeftByte, AboveByte;
      PlacedAt(recon, was, r, Result(i));
      LeftIs(recon, i);
      AboveIs(recon, i);
      if bw <= i { AboveIs(recon, i - bw); }
      AboveLeftIs(i);
    }

    lemma LeftIs(recon: seq<byte>, i: nat)
      requires Valid() && i < |line| && r + i <= |recon| && recon[r..r + i] == Result(i)
      ensures Left(Result(i), i, bw) == LeftByte(recon, i)
    {
      hide UnfilterRow;
      if 0 < bw <= i { assert recon[r..r + i][i - bw] == recon[r + i - bw]; }
    }

    lemma AboveIs(recon: seq<byte>, i: nat)
      requires Valid() && i < |line| && |recon| == |was| && forall k | 0 <= k < r :: recon[k] == was[k]
      ensures Above(Prior(), i) == AboveByte(recon, i)
    {
    }

    lemma AboveLeftIs(i: nat)
      requires Valid()
      ensures AboveLeft(Prior(), i, bw) == if bw <= i then Above(Prior(), i - bw) else 0
    {
    }

    /** Writing the next byte, in a buffer that may be the one of the input. */
    lemma Advance(recon: seq<byte>, scan: seq<byte>, i: nat, recon': seq<byte>, scan': seq<byte>)
      requires Valid() && Underway(recon, scan, i) && i < |line| && |recon| == |was|
      requires recon' == recon[r + i := Next(i)]
      requires scan' == scan || (scan == recon && scan' == recon' && r <= s)
      ensures Underway(recon', scan', i + 1)
    {
      hide UnfilterByte, Placed;
      PlacedStep(recon, was, r, Result(i), Next(i));
    }
  }

  /** Room for the row, and the row before out of the way; the input may overlap, but not lie behind the output. */
  ghost predicate RowReady(recon: array<byte>, r: nat, scan: array<byte>, s: nat, precon: Option<nat>, bw: nat,
                           length: nat)
    reads recon, scan
  {
    && r + length <= recon.Length && s + length <= scan.Length && 0 < bw <= length
    && (recon == scan ==> r <= s)
    && (precon.Some? ==> precon.value + length <= r)
  }

  /** The next byte of the row, in a buffer that may be the one of the input. */
  method Put(recon: array<byte>, r: nat, scan: array<byte>, i: nat, x: byte, ghost job: Job)
    requires job.Valid() && i < |job.line| && r == job.r && recon.Length == |job.was| && (recon == scan ==> r <= job.s)
    requires job.Underway(recon[..], scan[..], i) && x == job.Next(i)
    modifies recon
    ensures job.Underway(recon[..], scan[..], i + 1)
  {
    hide Job.Next, Job.Underway;
    ghost var was, from := recon[..], scan[..];
    recon[r + i] := x;
    job.Advance(was, from, i, recon[..], scan[..]);
  }

  /** Filter type 0 */
  method UnfilterNone(recon: array<byte>, r: nat, scan: array<byte>, s: nat, bw: nat, length: nat, ghost job: Job)
    requires RowReady(recon, r, scan, s, job.precon, bw, length)
    requires job == Job(recon[..], r, s, 0, bw, job.precon, scan[s..s + length])
    modifies recon
    ensures job.Underway(recon[..], scan[..], length)
  {
    hide UnfilterRow, Job.Next, Job.Underway, Paeth, Plus;
    PlusZero();
    job.Start(scan[..]);
    for i := 0 to length
      invariant job.Underway(recon[..], scan[..], i)
    {
      job.Neighbours(recon[..], scan[..], i);
      Put(recon, r, scan, i, scan[s + i], job);
    }
  }

  /** Filter type 1 */
  method UnfilterSub(recon: array<byte>, r: nat, scan: array<byte>, s: nat, bw: nat, length: nat, ghost job: Job)
    requires RowReady(recon, r, scan, s, job.precon, bw, length)
    requires job == Job(recon[..], r, s, 1, bw, job.precon, scan[s..s + length])
    modifies recon
    ensures job.Underway(recon[..], scan[..], length)
  {
    hide UnfilterRow, Job.Next, Job.Underway, Paeth, Plus;
    PlusZero();
    job.Start(scan[..]);
    for i := 0 to bw
      invariant job.Underway(recon[..], scan[..], i)
    {
      job.Neighbours(recon[..], scan[..], i);
      Put(recon, r, scan, i, scan[s + i], job);
    }
    for i := bw to length
      invariant job.Underway(recon[..], scan[..], i)
    {
      job.Neighbours(recon[..], scan[..], i);
      Put(recon, r, scan, i, Plus(scan[s + i], recon[r + i - bw]), job);
    }
  }

  /** Filter type 2 */
  method UnfilterUp(recon: array<byte>, r: nat, scan: array<byte>, s: nat, precon: Option<nat>, bw: nat, length: nat,
                    ghost job: Job)
    requires RowReady(recon, r, scan, s, precon, bw, length)
    requires job == Job(recon[..], r, s, 2, bw, precon, scan[s..s + length])
    modifies recon
    ensures job.Underway(recon[..], scan[..], length)
  {
    hide UnfilterRow, Job.Next, Job.Underway, Paeth, Plus;
    PlusZero();
    job.Start(scan[..]);
    if precon.Some? {
      for i := 0 to length
        invariant job.Underway(recon[..], scan[..], i)
      {
        job.Neighbours(recon[..], scan[..], i);
        Put(recon, r, scan, i, Plus(scan[s + i], recon[precon.value + i]), job);
      }
    } else {
      for i := 0 to length
        invariant job.Underway(recon[..], scan[..], i)
      {
        job.Neighbours(recon[..], scan[..], i);
        Put(recon, r, scan, i, scan[s + i], job);
      }
    }
  }

  /** Filter type 3 below another row */
  method UnfilterAverage(recon: array<byte>, r: nat, scan: array<byte>, s: nat, precon: nat, bw: nat, length: nat,
                         ghost job: Job)
    requires RowReady(recon, r, scan, s, Some(precon), bw, length)
    requires job == Job(recon[..], r, s, 3, bw, Some(precon), scan[s..s + length])
    modifies recon
    ensures job.Underway(recon[..], scan[..], length)
  {
    hide UnfilterRow, Job.Next, Job.Underway, Paeth, Plus;
    PlusZero();
    job.Start(scan[..]);
    for i := 0 to bw
      invariant job.Underway(recon[..], scan[..], i)
    {
      job.Neighbours(recon[..], scan[..], i);
      Put(recon, r, scan, i, Plus(scan[s + i], recon[precon + i] / 2), job);
    }
    for i := bw to length
      invariant job.Underway(recon[..], scan[..], i)
    {
      job.Neighbours(recon[..], scan[..], i);
      Put(recon, r, scan, i, Plus(scan[s + i], (recon[r + i - bw] as nat + recon[precon + i] as nat) / 2), job);
    }
  }

  /** Filter type 3 in the first row */
  method UnfilterAverageFirst(recon: array<byte>, r: nat, scan: array<byte>, s: nat, bw: nat, length: nat,
                              ghost job: Job)
    requires RowReady(recon, r, scan, s, None, bw, length)
    requires job == Job(recon[..], r, s, 3, bw, None, scan[s..s + length])
    modifies recon
    ensures job.Underway(recon[..], scan[..], length)
  {
    hide UnfilterRow, Job.Next, Job.Underway, Paeth, Plus;
    PlusZero();
    job.Start(scan[..]);
    for i := 0 to bw
      invariant job.Underway(recon[..], scan[..], i)
    {
      job.Neighbours(recon[..], scan[..], i);
      Put(recon, r, scan, i, scan[s + i], job);
    }
    for i := bw to length
      invariant job.Underway(recon[..], scan[..], i)
    {
      job.Neighbours(recon[..], scan[..], i);
      Put(recon, r, scan, i, Plus(scan[s + i], recon[r + i - bw] / 2), job);
    }
  }

  /** Filter type 4; the predictor is called only where it does not come down to one neighbour. */
  method UnfilterPaeth(recon: array<byte>, r: nat, scan: array<byte>, s: nat, precon: nat, bw: nat, length: nat,
                       ghost job: Job)
    requires RowReady(recon, r, scan, s, Some(precon), bw, length)
    requires job == Job(recon[..], r, s, 4, bw, Some(precon), scan[s..s + length])
    modifies recon
    ensures job.Underway(recon[..], scan[..], length)
  {
    hide UnfilterRow, Job.Next, Job.Underway, Paeth, Plus;
    PlusZero();
    job.Start(scan[..]);
    PaethEdge();
    for i := 0 to bw
      invariant job.Underway(recon[..], scan[..], i)
    {
      job.Neighbours(recon[..], scan[..], i);
      Put(recon, r, scan, i, Plus(scan[s + i], recon[precon + i]), job);
    }
    for i := bw to length
      invariant job.Underway(recon[..], scan[..], i)
    {
      job.Neighbours(recon[..], scan[..], i);
      var predicted := PaethPredictor(recon[r + i - bw], recon[precon + i], recon[precon + i - bw]);
      Put(recon, r, scan, i, Plus(scan[s + i], predicted), job);
    }
  }

  /** Filter type 4 in the first row */
  method UnfilterPaethFirst(recon: array<byte>, r: nat, scan: array<byte>, s: nat, bw: nat, length: nat, ghost job: Job)
    requires RowReady(recon, r, scan, s, None, bw, length)
    requires job == Job(recon[..], r, s, 4, bw, None, scan[s..s + length])
    modifies recon
    ensures job.Underway(recon[..], scan[..], length)
  {
    hide UnfilterRow, Job.Next, Job.Underway, Paeth, Plus;
    PlusZero();
    job.Start(scan[..]);
    PaethEdge();
    for i := 0 to bw
      invariant job.Underway(recon[..], scan[..], i)
    {
      job.Neighbours(recon[..], scan[..], i);
      Put(recon, r, scan, i, scan[s + i], job);
    }
    for i := bw to length
      invariant job.Underway(recon[..], scan[..], i)
    {
      job.Neighbours(recon[..], scan[..], i);
      Put(recon, r, scan, i, Plus(scan[s + i], recon[r + i - bw]), job);
    }
  }

  lemma PaethEdge()
    ensures forall x: byte :: Paeth(0, x, 0) == x && Paeth(x, 0, 0) == x
  {
  }

  /** unfilterScanline */
  method UnfilterScanline(recon: array<byte>, r: nat, scan: array<byte>, s: nat, precon: Option<nat>, bw: nat, t: byte,
                          length: nat)
    returns (error: nat)
    requires RowReady(recon, r, scan, s, precon, bw, length)
    modifies recon
    ensures error == if t <= 4 then 0 else 36
    ensures t > 4 ==> recon[..] == old(recon[..])
    ensures t <= 4 ==> Placed(recon[..], old(recon[..]), r,
              UnfilterRow(t, bw, PriorRow(precon, old(recon[..]), length), old(scan[s..s + length]), length))
  {
    hide Placed, UnfilterRow;
    if t > 4 { return 36; }
    ghost var job := Job(recon[..], r, s, t, bw, precon, scan[s..s + length]);
    match t {
      case 0 => UnfilterNone(recon, r, scan, s, bw, length, job);
      case 1 => UnfilterSub(recon, r, scan, s, bw, length, job);
      case 2 => UnfilterUp(recon, r, scan, s, precon, bw, length, job);
      case 3 =>
        if precon.Some? {
          UnfilterAverage(recon, r, scan, s, precon.value, bw, length, job);
        } else {
          UnfilterAverageFirst(recon, r, scan, s, bw, length, job);
        }
      case _ =>
        if precon.Some? {
          UnfilterPaeth(recon, r, scan, s, precon.value, bw, length, job);
        } else {
          UnfilterPaethFirst(recon, r, scan, s, bw, length, job);
        }
    }
    return 0;
  }

  // ---------------------------------------------------------------- unfilter

  function ByteWidth(bpp: nat): nat {
    (bpp + 7) / 8
  }

  function LineBytes(w: nat, bpp: nat): nat {
    (w * bpp + 7) / 8
  }

  lemma PixelFits(w: nat, bpp: nat)
    requires bpp > 0
    ensures w > 0 ==> 0 < ByteWidth(bpp) <= LineBytes(w, bpp)
    ensures w == 0 ==> LineBytes(w, bpp) == 0
  {
    if w > 0 { MulMono(1, w, bpp); }
  }

  /**
   * Where unfilter stands after y rows, at position o of the output and s of the input: they are
   * reconstructed, and the rest of the input is still there.
   */
  ghost predicate Unfiltering(now: seq<byte>, input: seq<byte>, was: seq<byte>, outBase: nat, inBase: nat, bw: nat,
                              lb: nat, data: seq<byte>, y: nat, o: nat, s: nat, prevline: Option<nat>) {
    && o == Pos(lb, y) && s == Pos(1 + lb, y) && s <= |data|
    && UnfilterRows(bw, lb, data, y).Some?
    && Placed(now, was, outBase, UnfilterRows(bw, lb, data, y).value)
    && (if y == 0 then prevline == None else o >= lb && prevline == Some(outBase + o - lb))
    && inBase + |data| <= |input|
    && forall j | s <= j < |data| :: input[inBase + j] == data[j]
  }

  lemma UnfilteringStart(was: seq<byte>, input: seq<byte>, outBase: nat, inBase: nat, bw: nat, lb: nat, data: seq<byte>)
    requires outBase <= |was| && inBase + |data| <= |input| && data == input[inBase..inBase + |data|]
    ensures Unfiltering(was, input, was, outBase, inBase, bw, lb, data, 0, 0, 0, None)
  {
    PlacedStart(was, outBase);
  }

  /** What the next round finds: the input row, ... */
  lemma UnfilteringInput(now: seq<byte>, input: seq<byte>, was: seq<byte>, outBase: nat, inBase: nat, bw: nat, lb: nat,
                         data: seq<byte>, y: nat, o: nat, s: nat, prevline: Option<nat>)
    requires Unfiltering(now, input, was, outBase, inBase, bw, lb, data, y, o, s, prevline) && s + 1 + lb <= |data|
    ensures inBase + s + 1 + lb <= |input| && input[inBase + s] == data[s]
    ensures input[inBase + s + 1..inBase + s + 1 + lb] == data[s + 1..s + 1 + lb]
  {
    hide Placed, Pos, UnfilterRows;
    assert input[inBase + s] == data[s];
    var a, b := input[inBase + s + 1..inBase + s + 1 + lb], data[s + 1..s + 1 + lb];
    forall i | 0 <= i < lb ensures a[i] == b[i] {
      assert input[inBase + (s + 1 + i)] == data[s + 1 + i];
    }
  }

  /** ... and the row before in the output. */
  lemma UnfilteringNow(now: seq<byte>, input: seq<byte>, was: seq<byte>, outBase: nat, inBase: nat, bw: nat, lb: nat,
                       data: seq<byte>, y: nat, o: nat, s: nat, prevline: Option<nat>)
    requires Unfiltering(now, input, was, outBase, inBase, bw, lb, data, y, o, s, prevline)
    ensures |now| == |was| && (prevline.Some? ==> prevline.value + lb == outBase + o <= |now|)
    ensures UnfilterRows(bw, lb, data, y).Some?
    ensures lb > 0 ==> PriorRow(prevline, now, lb) == LastRow(UnfilterRows(bw, lb, data, y).value, lb)
  {
    hide Placed, Pos, UnfilterRow, LastRow, PriorRow;
    var rows := UnfilterRows(bw, lb, data, y).value;
    PlacedAt(now, was, outBase, rows);
    PriorIsLast(now, rows, outBase, lb, prevline);
  }

  lemma PriorIsLast(now: seq<byte>, rows: seq<byte>, outBase: nat, lb: nat, prevline: Option<nat>)
    requires outBase + |rows| <= |now| && rows == now[outBase..outBase + |rows|]
    requires if prevline == None then rows == [] else |rows| >= lb && prevline.value == outBase + |rows| - lb
    ensures lb > 0 ==> PriorRow(prevline, now, lb) == LastRow(rows, lb)
  {
    if prevline.Some? { SliceInSlice(now, outBase, |rows|, |rows| - lb, lb); }
  }

  lemma UnfilteringNext(now: seq<byte>, mid: seq<byte>, input': seq<byte>, input: seq<byte>, was: seq<byte>,
                        outBase: nat, inBase: nat, bw: nat, lb: nat, data: seq<byte>, y: nat, o: nat, s: nat,
                        prevline: Option<nat>)
    requires Unfiltering(mid, input, was, outBase, inBase, bw, lb, data, y, o, s, prevline)
    requires s + 1 + lb <= |data| && data[s] <= 4 && UnfilterRows(bw, lb, data, y).Some?
    requires Placed(now, mid, outBase + o, UnfilterRow(data[s], bw, LastRow(UnfilterRows(bw, lb, data, y).value, lb),
                                                       data[s + 1..s + 1 + lb], lb))
    requires input' == input || (input == mid && input' == now && outBase + o <= inBase + s)
    ensures Unfiltering(now, input', was, outBase, inBase, bw, lb, data, y + 1, o + lb, s + 1 + lb, Some(outBase + o))
  {
    hide UnfilterRow, Placed, LastRow, UnfilterRows, Pos;
    var rows := UnfilterRows(bw, lb, data, y).value;
    var u := UnfilterRow(data[s], bw, LastRow(rows, lb), data[s + 1..s + 1 + lb], lb);
    PlacedAt(now, mid, outBase + o, u);
    PlacedMore(now, mid, was, outBase, rows, u);
    OneMoreUnfiltered(bw, lb, data, y, s);
  }

  lemma OneMoreUnfiltered(bw: nat, lb: nat, data: seq<byte>, y: nat, s: nat)
    requires s == Pos(1 + lb, y) && s + 1 + lb <= |data| && data[s] <= 4 && UnfilterRows(bw, lb, data, y).Some?
    ensures Pos(lb, y + 1) == Pos(lb, y) + lb && Pos(1 + lb, y + 1) == s + 1 + lb
    ensures var rows := UnfilterRows(bw, lb, data, y).value;
            UnfilterRows(bw, lb, data, y + 1)
            == Some(rows + UnfilterRow(data[s], bw, LastRow(rows, lb), data[s + 1..s + 1 + lb], lb))
  {
    hide UnfilterRow, LastRow;
  }

  lemma UnfilteringEnd(now: seq<byte>, input: seq<byte>, was: seq<byte>, outBase: nat, inBase: nat, bw: nat, lb: nat,
                       data: seq<byte>, h: nat, o: nat, s: nat, prevline: Option<nat>)
    requires Unfiltering(now, input, was, outBase, inBase, bw, lb, data, h, o, s, prevline) && s == |data|
    ensures Pos(1 + lb, h) == |data| && UnfilterRows(bw, lb, data, h).Some?
    ensures Placed(now, was, outBase, UnfilterRows(bw, lb, data, h).value)
  {
  }

  lemma {:induction false} StopsHere(bw: nat, lb: nat, data: seq<byte>, y: nat, h: nat, s: nat)
    requires y < h && Pos(1 + lb, h) <= |data| && s == Pos(1 + lb, y) && s < |data| && data[s] > 4
    ensures UnfilterRows(bw, lb, data, h) == None
  {
    hide UnfilterRow, LastRow;
    RowFits(1 + lb, h - 1, h);
    if y < h - 1 { StopsHere(bw, lb, data, y, h - 1, s); }
  }

  /** The positions of row y. */
  lemma Positions(lb: nat, y: nat, h: nat)
    requires y < h
    ensures lb * y == Pos(lb, y) && (1 + lb) * y == Pos(1 + lb, y) == Pos(lb, y) + y
    ensures Pos(lb, y + 1) == Pos(lb, y) + lb <= Pos(lb, h)
    ensures Pos(1 + lb, y + 1) == Pos(1 + lb, y) + 1 + lb <= Pos(1 + lb, h)
  {
    PosIs(lb, y);
    PosIs(1 + lb, y);
    RowBehind(lb, y);
    RowFits(lb, y, h);
    RowFits(1 + lb, y, h);
  }

  /** The filter types whose loops start with a whole pixel, even if the row is empty. */
  predicate NeedsPixel(t: byte) {
    t == 1 || t == 3 || t == 4
  }

  /** An image of width 0, which consists of filter types only, has such a type in row y, and all rows before exist. */
  predicate Reaches(data: seq<byte>, y: nat)
    requires y < |data|
  {
    NeedsPixel(data[y]) && forall k | 0 <= k < y :: data[k] <= 4
  }

  ghost predicate PixelMissing(data: seq<byte>) {
    exists y: nat :: y < |data| && Reaches(data, y)
  }

  /** With rows of no bytes, the type of row y stands at y. */
  lemma EmptyRows(h: nat)
    ensures Pos(1 + 0, h) == h
  {
    PosIs(1, h);
  }

  /** One round of the loop of unfilter. */
  method UnfilterLine(out: array<byte>, outindex: nat, input: array<byte>, inindex: nat, w: nat, bw: nat, lb: nat,
                      prevline: Option<nat>, ghost was: seq<byte>, ghost outBase: nat, ghost inBase: nat,
                      ghost data: seq<byte>, ghost y: nat, ghost o: nat, ghost s: nat)
    returns (defined: bool, error: nat)
    requires (if w > 0 then 0 < bw <= lb else lb == 0) && (out == input ==> outBase <= inBase)
    requires outindex == outBase + o && inindex == inBase + s && outindex + lb <= out.Length && s + 1 + lb <= |data|
    requires o <= s && Unfiltering(out[..], input[..], was, outBase, inBase, bw, lb, data, y, o, s, prevline)
    modifies out
    ensures defined <==> w > 0 || !NeedsPixel(data[s])
    ensures error == if !defined || data[s] <= 4 then 0 else 36
    ensures defined && error == 0 ==>
              Unfiltering(out[..], input[..], was, outBase, inBase, bw, lb, data, y + 1, o + lb, s + 1 + lb,
                          Some(outindex))
  {
    hide Placed, UnfilterRow, UnfilterRows, Unfiltering, Pos, LastRow, PriorRow, NeedsPixel;
    ghost var mid, from := out[..], input[..];
    UnfilteringInput(mid, from, was, outBase, inBase, bw, lb, data, y, o, s, prevline);
    UnfilteringNow(mid, from, was, outBase, inBase, bw, lb, data, y, o, s, prevline);
    assert from[inindex + 1..inindex + 1 + lb] == input[inindex + 1..inindex + 1 + lb];
    if w == 0 && NeedsPixel(input[inindex]) { return false, 0; }
    defined := true;
    if w == 0 {
      error := if input[inindex] <= 4 then 0 else 36;
      PlacedStart(mid, outBase + o);
    } else {
      error := UnfilterScanline(out, outindex, input, inindex + 1, prevline, bw, input[inindex], lb);
    }
    if error != 0 { return; }
    UnfilteringNext(out[..], mid, input[..], from, was, outBase, inBase, bw, lb, data, y, o, s, prevline);
  }

  /**
   * unfilter. The two buffers may be one, with the output in front of the input or at the same place:
   * the result is what it would be with two. The model stops, with `defined` unset, where the source would
   * write the first pixel of a row that has none.
   */
  method Unfilter(out: array<byte>, outBase: nat, input: array<byte>, inBase: nat, w: nat, h: nat, bpp: nat)
    returns (defined: bool, error: nat)
    requires bpp > 0
    requires outBase + Pos(LineBytes(w, bpp), h) <= out.Length && inBase + Pos(1 + LineBytes(w, bpp), h) <= input.Length
    requires out == input ==> outBase <= inBase
    modifies out
    ensures h == 0 ==> defined
    ensures defined <==> w > 0 || !PixelMissing(old(input[inBase..inBase + Pos(1 + LineBytes(w, bpp), h)]))
    ensures var bw, lb := ByteWidth(bpp), LineBytes(w, bpp);
            var data := old(input[inBase..inBase + Pos(1 + lb, h)]);
            defined ==>
              if UnfilterRows(bw, lb, data, h).Some? then
                error == 0 && Placed(out[..], old(out[..]), outBase, UnfilterRows(bw, lb, data, h).value)
              else
                error == 36
    ensures var bw, lb := ByteWidth(bpp), LineBytes(w, bpp);
            defined ==> Restored(out[..], outBase, old(input[inBase..inBase + Pos(1 + lb, h)]), bw, lb, h, error)
  {
    hide LineBytes, ByteWidth, Placed, UnfilterRow, UnfilterRows, Unfiltering, Pos, LastRow, PriorRow, Restored,
         NeedsPixel, RowBefore;
    SomeWidth(bpp);
    var bw, lb := ByteWidth(bpp), LineBytes(w, bpp);
    ghost var was, data := out[..], input[inBase..inBase + Pos(1 + lb, h)];
    var prevline: Option<nat> := None;
    ghost var o: nat, s: nat := 0, 0;
    defined, error := true, 0;
    PixelFits(w, bpp);
    EmptyRows(h);
    UnfilteringStart(was, input[..], outBase, inBase, bw, lb, data);
    for y := 0 to h
      invariant o == Pos(lb, y) && s == Pos(1 + lb, y)
      invariant Unfiltering(out[..], input[..], was, outBase, inBase, bw, lb, data, y, o, s, prevline)
      invariant w == 0 ==> forall k | 0 <= k < y :: data[k] <= 4 && !NeedsPixel(data[k])
    {
      PixelFits(w, bpp);
      Positions(lb, y, h);
      var outindex, inindex := outBase + lb * y, inBase + (1 + lb) * y;
      defined, error :=
        UnfilterLine(out, outindex, input, inindex, w, bw, lb, prevline, was, outBase, inBase, data, y, o, s);
      if !defined {
        assert Reaches(data, y);
        return;
      }
      if error != 0 {
        StopsHere(bw, lb, data, y, h, s);
        UnfilterResult(out[..], was, outBase, bw, lb, data, h, error);
        return;
      }
      prevline := Some(outindex);
      o, s := o + lb, s + 1 + lb;
    }
    UnfilteringEnd(out[..], input[..], was, outBase, inBase, bw, lb, data, h, o, s, prevline);
    UnfilterResult(out[..], was, outBase, bw, lb, data, h, error);
  }

  lemma SomeWidth(bpp: nat)
    ensures bpp > 0 ==> ByteWidth(bpp) > 0
  {
  }

  // ---------------------------------------------------------------- filterScanline

  ghost predicate FilterReady(out: array<byte>, o: nat, data: array<byte>, s: nat, prevline: Option<nat>, length: nat,
                              bw: nat) {
    && out != data && o + length <= out.Length && s + length <= data.Length && 0 < bw <= length
    && (prevline.Some? ==> prevline.value + length <= data.Length)
  }

  /** The filtered form of the row at position s of the image. */
  ghost function FilteredLine(t: byte, image: seq<byte>, s: nat, prevline: Option<nat>, length: nat,
                              bw: nat): (r: seq<byte>)
    requires t <= 4 && s + length <= |image| && (prevline.Some? ==> prevline.value + length <= |image|)
    ensures |r| == length
  {
    FilterRow(t, bw, PriorRow(prevline, image, length), image[s..s + length])
  }

  lemma FilteredLineAt(t: byte, image: seq<byte>, s: nat, prevline: Option<nat>, length: nat, bw: nat)
    requires t <= 4 && s + length <= |image| && (prevline.Some? ==> prevline.value + length <= |image|) && bw > 0
    ensures forall i | 0 <= i < length :: FilteredLine(t, image, s, prevline, length, bw)[i]
              == Minus(image[s + i], Predict(t, if bw <= i then image[s + i - bw] else 0,
                                             if prevline.Some? then image[prevline.value + i] else 0,
                                             if prevline.Some? && bw <= i then image[prevline.value + i - bw] else 0))
  {
    hide Predict, Minus;
  }

  lemma MinusZero()
    ensures forall x: byte :: Minus(x, 0) == x
  {
  }

  lemma RowNext(now: seq<byte>, was: seq<byte>, o: nat, row: seq<byte>, i: nat)
    requires i < |row| && o + |row| <= |was| && Placed(now, was, o, row[..i])
    ensures |now| == |was| && Placed(now[o + i := row[i]], was, o, row[..i + 1])
  {
    assert row[..i + 1] == row[..i] + [row[i]];
    PlacedStep(now, was, o, row[..i], row[i]);
  }

  /** Filter type 0 */
  method FilterNone(out: array<byte>, o: nat, data: array<byte>, s: nat, ghost prevline: Option<nat>, length: nat,
                    bw: nat)
    requires FilterReady(out, o, data, s, prevline, length, bw)
    modifies out
    ensures Placed(out[..], old(out[..]), o, FilteredLine(0, data[..], s, prevline, length, bw))
  {
    hide Placed, FilterRow, Paeth, Minus, FilteredLine;
    ghost var was, row := out[..], FilteredLine(0, data[..], s, prevline, length, bw);
    FilteredLineAt(0, data[..], s, prevline, length, bw);
    PlacedStart(was, o);
    MinusZero();
    assert row[..0] == [];
    for i := 0 to length
      invariant Placed(out[..], was, o, row[..i])
    {
      RowNext(out[..], was, o, row, i);
      out[o + i] := data[s + i];
    }
    assert row[..length] == row;
  }

  /** Filter type 1 */
  method FilterSub(out: array<byte>, o: nat, data: array<byte>, s: nat, ghost prevline: Option<nat>, length: nat,
                   bw: nat)
    requires FilterReady(out, o, data, s, prevline, length, bw)
    modifies out
    ensures Placed(out[..], old(out[..]), o, FilteredLine(1, data[..], s, prevline, length, bw))
  {
    hide Placed, FilterRow, Paeth, Minus, FilteredLine;
    ghost var was, row := out[..], FilteredLine(1, data[..], s, prevline, length, bw);
    FilteredLineAt(1, data[..], s, prevline, length, bw);
    PlacedStart(was, o);
    MinusZero();
    assert row[..0] == [];
    for i := 0 to bw
      invariant Placed(out[..], was, o, row[..i])
    {
      RowNext(out[..], was, o, row, i);
      out[o + i] := data[s + i];
    }
    for i := bw to length
      invariant Placed(out[..], was, o, row[..i])
    {
      RowNext(out[..], was, o, row, i);
      out[o + i] := Minus(data[s + i], data[s + i - bw]);
    }
    assert row[..length] == row;
  }

  /** Filter type 2 */
  method FilterUp(out: array<byte>, o: nat, data: array<byte>, s: nat, prevline: Option<nat>, length: nat, bw: nat)
    requires FilterReady(out, o, data, s, prevline, length, bw)
    modifies out
    ensures Placed(out[..], old(out[..]), o, FilteredLine(2, data[..], s, prevline, length, bw))
  {
    hide Placed, FilterRow, Paeth, Minus, FilteredLine;
    ghost var was, row := out[..], FilteredLine(2, data[..], s, prevline, length, bw);
    FilteredLineAt(2, data[..], s, prevline, length, bw);
    PlacedStart(was, o);
    MinusZero();
    assert row[..0] == [];
    if prevline.Some? {
      for i := 0 to length
        invariant Placed(out[..], was, o, row[..i])
      {
        RowNext(out[..], was, o, row, i);
        out[o + i] := Minus(data[s + i], data[prevline.value + i]);
      }
    } else {
      for i := 0 to length
        invariant Placed(out[..], was, o, row[..i])
      {
        RowNext(out[..], was, o, row, i);
        out[o + i] := data[s + i];
      }
    }
    assert row[..length] == row;
  }

  /** Filter type 3 below another row */
  method FilterAverage(out: array<byte>, o: nat, data: array<byte>, s: nat, prevline: nat, length: nat, bw: nat)
    requires FilterReady(out, o, data, s, Some(prevline), length, bw)
    modifies out
    ensures Placed(out[..], old(out[..]), o, FilteredLine(3, data[..], s, Some(prevline), length, bw))
  {
    hide Placed, FilterRow, Paeth, Minus, FilteredLine;
    ghost var was, row := out[..], FilteredLine(3, data[..], s, Some(prevline), length, bw);
    FilteredLineAt(3, data[..], s, Some(prevline), length, bw);
    PlacedStart(was, o);
    MinusZero();
    assert row[..0] == [];
    for i := 0 to bw
      invariant Placed(out[..], was, o, row[..i])
    {
      RowNext(out[..], was, o, row, i);
      out[o + i] := Minus(data[s + i], data[prevline + i] / 2);
    }
    for i := bw to length
      invariant Placed(out[..], was, o, row[..i])
    {
      RowNext(out[..], was, o, row, i);
      out[o + i] := Minus(data[s + i], (data[s + i - bw] as nat + data[prevline + i] as nat) / 2);
    }
    assert row[..length] == row;
  }

  /** Filter type 3 in the first row */
  method FilterAverageFirst(out: array<byte>, o: nat, data: array<byte>, s: nat, length: nat, bw: nat)
    requires FilterReady(out, o, data, s, None, length, bw)
    modifies out
    ensures Placed(out[..], old(out[..]), o, FilteredLine(3, data[..], s, None, length, bw))
  {
    hide Placed, FilterRow, Paeth, Minus, FilteredLine;
    ghost var was, row := out[..], FilteredLine(3, data[..], s, None, length, bw);
    FilteredLineAt(3, data[..], s, None, length, bw);
    PlacedStart(was, o);
    MinusZero();
    assert row[..0] == [];
    for i := 0 to bw
      invariant Placed(out[..], was, o, row[..i])
    {
      RowNext(out[..], was, o, row, i);
      out[o + i] := data[s + i];
    }
    for i := bw to length
      invariant Placed(out[..], was, o, row[..i])
    {
      RowNext(out[..], was, o, row, i);
      out[o + i] := Minus(data[s + i], data[s + i - bw] / 2);
    }
    assert row[..length] == row;
  }

  /** Filter type 4 */
  method FilterPaeth(out: array<byte>, o: nat, data: array<byte>, s: nat, prevline: nat, length: nat, bw: nat)
    requires FilterReady(out, o, data, s, Some(prevline), length, bw)
    modifies out
    ensures Placed(out[..], old(out[..]), o, FilteredLine(4, data[..], s, Some(prevline), length, bw))
  {
    hide Placed, FilterRow, Paeth, Minus, FilteredLine;
    ghost var was, row := out[..], FilteredLine(4, data[..], s, Some(prevline), length, bw);
    FilteredLineAt(4, data[..], s, Some(prevline), length, bw);
    PlacedStart(was, o);
    MinusZero();
    assert row[..0] == [];
    PaethEdge();
    for i := 0 to bw
      invariant Placed(out[..], was, o, row[..i])
    {
      RowNext(out[..], was, o, row, i);
      out[o + i] := Minus(data[s + i], data[prevline + i]);
    }
    for i := bw to length
      invariant Placed(out[..], was, o, row[..i])
    {
      RowNext(out[..], was, o, row, i);
      out[o + i] := Minus(data[s + i], PaethPredictor(data[s + i - bw], data[prevline + i], data[prevline + i - bw]));
    }
    assert row[..length] == row;
  }

  /** Filter type 4 in the first row */
  method FilterPaethFirst(out: array<byte>, o: nat, data: array<byte>, s: nat, length: nat, bw: nat)
    requires FilterReady(out, o, data, s, None, length, bw)
    modifies out
    ensures Placed(out[..], old(out[..]), o, FilteredLine(4, data[..], s, None, length, bw))
  {
    hide Placed, FilterRow, Paeth, Minus, FilteredLine;
    ghost var was, row := out[..], FilteredLine(4, data[..], s, None, length, bw);
    FilteredLineAt(4, data[..], s, None, length, bw);
    PlacedStart(was, o);
    MinusZero();
    assert row[..0] == [];
    PaethEdge();
    for i := 0 to bw
      invariant Placed(out[..], was, o, row[..i])
    {
      RowNext(out[..], was, o, row, i);
      out[o + i] := data[s + i];
    }
    for i := bw to length
      invariant Placed(out[..], was, o, row[..i])
    {
      RowNext(out[..], was, o, row, i);
      out[o + i] := Minus(data[s + i], data[s + i - bw]);
    }
    assert row[..length] == row;
  }

  /** filterScanline */
  method FilterScanline(out: array<byte>, o: nat, data: array<byte>, s: nat, prevline: Option<nat>, length: nat,
                        bw: nat, t: byte)
    requires FilterReady(out, o, data, s, prevline, length, bw)
    modifies out
    ensures t > 4 ==> out[..] == old(out[..])
    ensures t <= 4 ==> Placed(out[..], old(out[..]), o, FilteredLine(t, data[..], s, prevline, length, bw))
  {
    hide Placed, FilterRow;
    match t {
      case 0 => FilterNone(out, o, data, s, prevline, length, bw);
      case 1 => FilterSub(out, o, data, s, prevline, length, bw);
      case 2 => FilterUp(out, o, data, s, prevline, length, bw);
      case 3 =>
        if prevline.Some? {
          FilterAverage(out, o, data, s, prevline.value, length, bw);
        } else {
          FilterAverageFirst(out, o, data, s, length, bw);
        }
      case 4 =>
        if prevline.Some? {
          FilterPaeth(out, o, data, s, prevline.value, length, bw);
        } else {
          FilterPaethFirst(out, o, data, s, length, bw);
        }
      case _ =>
    }
  }

  /** The row before row y, as the filter finds it. */
  function RowBefore(base: nat, lb: nat, y: nat): Option<nat> {
    if y == 0 then None else Some(base + Pos(lb, y - 1))
  }

  lemma RowsFilteredNext(now: seq<byte>, mid: seq<byte>, was: seq<byte>, outBase: nat, types: seq<byte>, bw: nat,
                         lb: nat, data: seq<byte>, inBase: nat, size: nat, y: nat)
    requires y < |types| && (forall k | 0 <= k <= y :: types[k] <= 4) && Pos(lb, y + 1) <= size
    requires inBase + size <= |data|
    requires Pos(lb, y + 1) == Pos(lb, y) + lb && Pos(1 + lb, y + 1) == Pos(1 + lb, y) + 1 + lb
    requires y > 0 ==> Pos(lb, y) == Pos(lb, y - 1) + lb
    requires outBase + Pos(1 + lb, y) < |was| == |mid|
    requires Placed(mid, was, outBase, FilterRows(types, bw, lb, data[inBase..inBase + size], y))
    requires Placed(now, mid[outBase + Pos(1 + lb, y) := types[y]], outBase + Pos(1 + lb, y) + 1,
                    FilteredLine(types[y], data, inBase + Pos(lb, y), RowBefore(inBase, lb, y), lb, bw))
    ensures Placed(now, was, outBase, FilterRows(types, bw, lb, data[inBase..inBase + size], y + 1))
  {
    hide Placed, FilterRow, Pos, FilterRows, LastRow, PriorRow;
    var image, o, t := data[inBase..inBase + size], Pos(lb, y), types[y];
    var front, line := FilterRows(types, bw, lb, image, y),
        FilteredLine(t, data, inBase + o, RowBefore(inBase, lb, y), lb, bw);
    PlacedStep(mid, was, outBase, front, t);
    PlacedMore(now, mid[outBase + |front| := t], was, outBase, front + [t], line);
    SliceInSlice(data, inBase, size, o, lb);
    LastRowIs(data, inBase, size, lb, y);
    OneMoreRow(types, bw, lb, image, y);
  }

  lemma OneMoreRow(types: seq<byte>, bw: nat, lb: nat, image: seq<byte>, y: nat)
    requires y < |types| && (forall k | 0 <= k <= y :: types[k] <= 4) && Pos(lb, y) + lb == Pos(lb, y + 1) <= |image|
    ensures FilterRows(types, bw, lb, image, y + 1)
            == FilterRows(types, bw, lb, image, y) + [types[y]]
               + FilterRow(types[y], bw, LastRow(image[..Pos(lb, y)], lb), image[Pos(lb, y)..Pos(lb, y) + lb])
  {
    hide FilterRow, Pos, LastRow;
    var s := Pos(lb, y);
    var row := FilteredRow(types[y], bw, LastRow(image[..s], lb), image[s..s + lb]);
    assert FilterRows(types, bw, lb, image, y + 1) == FilterRows(types, bw, lb, image, y) + row;
  }

  lemma LastOfFront(image: seq<byte>, o: nat, lb: nat)
    requires lb <= o <= |image|
    ensures LastRow(image[..o], lb) == image[o - lb..o]
  {
  }

  lemma LastRowIs(data: seq<byte>, inBase: nat, size: nat, lb: nat, y: nat)
    requires Pos(lb, y) + lb <= size && inBase + size <= |data| && (y > 0 ==> Pos(lb, y) == Pos(lb, y - 1) + lb)
    ensures PriorRow(RowBefore(inBase, lb, y), data, lb) == LastRow(data[inBase..inBase + size][..Pos(lb, y)], lb)
  {
    hide Pos;
    if y > 0 {
      var image, o := data[inBase..inBase + size], Pos(lb, y);
      SliceInSlice(data, inBase, size, o - lb, lb);
      LastOfFront(image, o, lb);
    } else {
      PosIs(lb, 0);
    }
  }

  /** One round of the loop of filter. */
  method FilterLine(out: array<byte>, outindex: nat, data: array<byte>, inindex: nat, w: nat, lb: nat, bw: nat,
                    prevline: Option<nat>, types: seq<byte>, y: nat, ghost was: seq<byte>, ghost outBase: nat,
                    ghost inBase: nat, ghost size: nat) returns (defined: bool)
    requires out != data && (if w > 0 then 0 < bw <= lb else lb == 0)
    requires y < |types| && (forall k | 0 <= k <= y :: types[k] <= 4) && Pos(lb, y + 1) <= size
    requires outindex == outBase + Pos(1 + lb, y) && outindex + 1 + lb <= out.Length
    requires inindex == inBase + Pos(lb, y) && inBase + size <= data.Length && prevline == RowBefore(inBase, lb, y)
    requires Pos(lb, y + 1) == Pos(lb, y) + lb && Pos(1 + lb, y + 1) == Pos(1 + lb, y) + 1 + lb
    requires y > 0 ==> Pos(lb, y) == Pos(lb, y - 1) + lb
    requires Placed(out[..], was, outBase, FilterRows(types, bw, lb, data[inBase..inBase + size], y))
    modifies out
    ensures defined <==> w > 0 || !NeedsPixel(types[y])
    ensures defined ==> Placed(out[..], was, outBase, FilterRows(types, bw, lb, data[inBase..inBase + size], y + 1))
  {
    hide Placed, FilteredLine, FilterRows, NeedsPixel, Pos;
    ghost var mid := out[..];
    PlacedAt(mid, was, outBase, FilterRows(types, bw, lb, data[inBase..inBase + size], y));
    out[outindex] := types[y];
    if w == 0 && NeedsPixel(types[y]) { return false; }
    if w == 0 {
      NothingFiltered(types[y], data[..], inindex, prevline, bw);
      PlacedStart(out[..], outindex + 1);
    } else {
      FilterScanline(out, outindex + 1, data, inindex, prevline, lb, bw, types[y]);
    }
    RowsFilteredNext(out[..], mid, was, outBase, types, bw, lb, data[..], inBase, size, y);
    return true;
  }

  lemma NothingFiltered(t: byte, image: seq<byte>, s: nat, prevline: Option<nat>, bw: nat)
    requires t <= 4 && s <= |image| && (prevline.Some? ==> prevline.value <= |image|)
    ensures FilteredLine(t, image, s, prevline, 0, bw) == []
  {
  }

  /**
   * filter, for the types that were asked for or that one of the heuristics settles on. The model stops, with
   * `defined` unset, where the source would write the first pixel of a row that has none.
   */
  method Filter(out: array<byte>, outBase: nat, data: array<byte>, inBase: nat, w: nat, h: nat, bpp: nat,
                types: seq<byte>) returns (defined: bool)
    requires bpp > 0 && out != data && h <= |types| && forall y | 0 <= y < h :: types[y] <= 4
    requires outBase + Pos(1 + LineBytes(w, bpp), h) <= out.Length && inBase + Pos(LineBytes(w, bpp), h) <= data.Length
    modifies out
    ensures defined <==> w > 0 || forall y | 0 <= y < h :: !NeedsPixel(types[y])
    ensures var lb := LineBytes(w, bpp);
            defined ==> Placed(out[..], old(out[..]), outBase,
                               FilterRows(types, ByteWidth(bpp), lb, data[inBase..inBase + Pos(lb, h)], h))
    ensures var lb := LineBytes(w, bpp);
            defined ==> StandAt(out[..], outBase, data[inBase..inBase + Pos(lb, h)], ByteWidth(bpp), lb, h, types)
  {
    hide LineBytes, ByteWidth, Placed, FilterRow, FilteredLine, FilterRows, Pos, StandAt, NeedsPixel;
    SomeWidth(bpp);
    var bw, lb := ByteWidth(bpp), LineBytes(w, bpp);
    ghost var was, size := out[..], Pos(lb, h);
    var prevline: Option<nat> := None;
    RowsFilteredStart(was, outBase, types, bw, lb, data[inBase..inBase + size]);
    defined := true;
    for y := 0 to h
      invariant defined && (w == 0 ==> forall k | 0 <= k < y :: !NeedsPixel(types[k]))
      invariant Pos(lb, y) <= size && prevline == RowBefore(inBase, lb, y)
      invariant Placed(out[..], was, outBase, FilterRows(types, bw, lb, data[inBase..inBase + size], y))
    {
      PixelFits(w, bpp);
      Positions(lb, y, h);
      if y > 0 { Positions(lb, y - 1, h); }
      var outindex, inindex := outBase + (1 + lb) * y, inBase + lb * y;
      defined := FilterLine(out, outindex, data, inindex, w, lb, bw, prevline, types, y, was, outBase, inBase, size);
      if !defined { return; }
      prevline := Some(inindex);
    }
    FilterResult(out[..], was, outBase, types, bw, lb, data[inBase..inBase + size], h);
  }

  lemma RowsFilteredStart(was: seq<byte>, outBase: nat, types: seq<byte>, bw: nat, lb: nat, image: seq<byte>)
    requires outBase <= |was|
    ensures Placed(was, was, outBase, FilterRows(types, bw, lb, image, 0)) && Pos(lb, 0) == 0
  {
  }

  lemma TwoRowsFit()
    ensures LineBytes(1, 8) == 1 == ByteWidth(8) && Pos(1, 2) == 2 && Pos(1 + 1, 2) == 4
    ensures TypesExist([0, 1, 3, 5], 1, 2)
  {
    PosIs(1, 2);
    PosIs(2, 2);
    PosIs(2, 1);
  }

  lemma TwoRowsStand(out: seq<byte>, error: nat)
    requires |out| == 2 && Restored(out, 0, [0, 1, 3, 5], 1, 1, 2, error)
    ensures out == [1, 5] && error == 0
  {
    TwoRowsFit();
    hide TypesExist;
    assert out[0..2] == out;
    PosIs(1, 1);
    PosIs(2, 1);
    assert ByteStands([0, 1, 3, 5], out, 1, 1, 0, 0);
    assert ByteStands([0, 1, 3, 5], out, 1, 1, 1, 0);
  }

  /** Two scanlines with the average of 0 and 1, which is 0. */
  method TwoRows() returns (out: array<byte>, error: nat)
    ensures out[..] == [1, 5] && error == 0
  {
    hide *;
    var input := new byte[4][0, 1, 3, 5];
    out := new byte[2][0, 0];
    TwoRowsFit();
    var defined;
    defined, error := Unfilter(out, 0, input, 0, 1, 2, 8);
    assert input[0..4] == [0, 1, 3, 5] && out[0..2] == out[..];
    TwoRowsStand(out[..], error);
  }
}
