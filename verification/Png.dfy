/** PNG row filters (the decode loop of scripts/check-brand-assets.js, section 9.2 of the W3C PNG
    specification): decoding in place undoes filtering. */
module Png {
  type Byte = b: int | 0 <= b < 256 witness 0

  type Row = seq<Byte>

  function Abs(i: int): nat { if i < 0 then -i else i }

  function Paeth(left: int, above: int, upperLeft: int): int {
    var estimate := left + above - upperLeft;
    var dl, da, du := Abs(estimate - left), Abs(estimate - above), Abs(estimate - upperLeft);
    if dl <= da && dl <= du then left else if da <= du then above else upperLeft
  }

  /** The Paeth predictor is the neighbour nearest the estimate, ties going to left, then above. */
  lemma PaethIsNearest(left: int, above: int, upperLeft: int)
    ensures var p, e := Paeth(left, above, upperLeft), left + above - upperLeft;
            && p in {left, above, upperLeft}
            && Abs(e - p) <= Abs(e - left) && Abs(e - p) <= Abs(e - above) && Abs(e - p) <= Abs(e - upperLeft)
            && (Abs(e - left) == Abs(e - p) ==> p == left)
            && (Abs(e - above) == Abs(e - p) && p != left ==> p == above)
  {
  }

  /** What a filter type predicts from the three neighbours. */
  function Predicted(filter: nat, left: int, above: int, upperLeft: int): int {
    if filter == 1 then left
    else if filter == 2 then above
    else if filter == 3 then (left + above) / 2
    else if filter == 4 then Paeth(left, above, upperLeft)
    else 0
  }

  /** Arithmetic on bytes wraps. */
  function Wrap(i: int): Byte { i % 256 }

  // ----- filtering, as an encoder does it

  function Neighbour(row: Row, x: nat, bpp: nat): int
    requires x < |row|
  {
    if x >= bpp then row[x - bpp] else 0
  }

  /** The prediction for byte `x` of a raw row below a raw row. */
  function PredictedAt(filter: nat, bpp: nat, row: Row, above: Row, x: nat): int
    requires x < |row| == |above|
  {
    Predicted(filter, Neighbour(row, x, bpp), above[x], Neighbour(above, x, bpp))
  }

  function Filtered(filter: nat, bpp: nat, row: Row, above: Row): (r: Row)
    requires |row| == |above|
    ensures |r| == |row|
  {
    seq(|row|, x requires 0 <= x < |row| => Wrap(row[x] - PredictedAt(filter, bpp, row, above, x)))
  }

  // ----- undoing it

  /** `row` is what the decoder must produce from `encoded` under `above`. Each byte refers back to decoded
      bytes, so there is exactly one such row. */
  predicate Decodes(filter: nat, bpp: nat, encoded: Row, above: Row, row: Row) {
    && |encoded| == |above| == |row|
    && forall x | 0 <= x < |row| :: row[x] == Wrap(encoded[x] + PredictedAt(filter, bpp, row, above, x))
  }

  lemma {:induction false} DecodesOnePrefix(filter: nat, bpp: nat, encoded: Row, above: Row, a: Row, b: Row, n: nat)
    requires bpp > 0 && Decodes(filter, bpp, encoded, above, a) && Decodes(filter, bpp, encoded, above, b) && n <= |a|
    ensures a[..n] == b[..n]
    decreases n
  {
    hide Predicted, Wrap;
    if n > 0 {
      DecodesOnePrefix(filter, bpp, encoded, above, a, b, n - 1);
      var x := n - 1;
      if x >= bpp { assert a[..x][x - bpp] == b[..x][x - bpp]; }
      assert PredictedAt(filter, bpp, a, above, x) == PredictedAt(filter, bpp, b, above, x);
      assert a[..n] == a[..x] + [a[x]] && b[..n] == b[..x] + [b[x]];
    }
  }

  lemma DecodesOnce(filter: nat, bpp: nat, encoded: Row, above: Row, a: Row, b: Row)
    requires bpp > 0 && Decodes(filter, bpp, encoded, above, a) && Decodes(filter, bpp, encoded, above, b)
    ensures a == b
  {
    DecodesOnePrefix(filter, bpp, encoded, above, a, b, |a|);
    assert a[..|a|] == a && b[..|b|] == b;
  }

  lemma AddBack(raw: Byte, p: int)
    ensures Wrap(Wrap(raw - p) + p) == raw
  {
  }

  lemma TakeOff(encoded: Byte, p: int)
    ensures Wrap(Wrap(encoded + p) - p) == encoded
  {
  }

  /** A row decodes from given bytes exactly when those bytes are its filtering. */
  lemma DecodesExactly(filter: nat, bpp: nat, encoded: Row, above: Row, row: Row)
    requires |encoded| == |above| == |row|
    ensures Decodes(filter, bpp, encoded, above, row) <==> encoded == Filtered(filter, bpp, row, above)
  {
    hide PredictedAt, Wrap;
    forall x | 0 <= x < |row|
      ensures row[x] == Wrap(encoded[x] + PredictedAt(filter, bpp, row, above, x)) <==> encoded[x] == Filtered(filter, bpp, row, above)[x]
    {
      AddBack(row[x], PredictedAt(filter, bpp, row, above, x));
      TakeOff(encoded[x], PredictedAt(filter, bpp, row, above, x));
    }
  }

  /** Of the three neighbours the one nearest `left + above - upperLeft`; of two as near, left before above before the third. */
  predicate Nearest(p: int, left: int, above: int, upperLeft: int) {
    var e := left + above - upperLeft;
    var l, a, u := if e < left then left - e else e - left, if e < above then above - e else e - above,
                   if e < upperLeft then upperLeft - e else e - upperLeft;
    || (p == left && l <= a && l <= u)
    || (p == above && a < l && a <= u)
    || (p == upperLeft && u < l && u < a)
  }

  /** The five filter types of section 9.2: a decoded byte is its encoded byte plus nothing, the byte to the left, the
      byte above, the mean of both rounded down, or the neighbour nearest their sum less the upper left one. */
  predicate Restores(filter: nat, encoded: int, left: int, above: int, upperLeft: int, out: int) {
    match filter
    case 0 => out == encoded
    case 1 => out == (encoded + left) % 256
    case 2 => out == (encoded + above) % 256
    case 3 => exists mean | 0 <= mean <= 255 :: 2 * mean <= left + above <= 2 * mean + 1 && out == (encoded + mean) % 256
    case 4 => exists p | p in {left, above, upperLeft} :: Nearest(p, left, above, upperLeft) && out == (encoded + p) % 256
    case _ => false
  }

  lemma NearestIsPaeth(p: int, left: int, above: int, upperLeft: int)
    ensures Nearest(p, left, above, upperLeft) <==> p == Paeth(left, above, upperLeft)
  {
  }

  lemma RestoresExactly(filter: nat, encoded: Byte, left: Byte, above: Byte, upperLeft: Byte, out: Byte)
    requires filter <= 4
    ensures Restores(filter, encoded, left, above, upperLeft, out) <==> out == Wrap(encoded + Predicted(filter, left, above, upperLeft))
  {
    hide Paeth, Nearest;
    var l: int, a: int, u: int := left, above, upperLeft;
    if filter == 3 {
      var mean := (l + a) / 2;
      assert 0 <= mean <= 255 && 2 * mean <= l + a <= 2 * mean + 1;
    }
    if filter == 4 {
      NearestIsPaeth(l, l, a, u);
      NearestIsPaeth(a, l, a, u);
      NearestIsPaeth(u, l, a, u);
      PaethIsNearest(l, a, u);
    }
  }

  /** Byte `x` of a row, with zeros to the left of both rows. */
  predicate RestoresAt(filter: nat, bpp: nat, encoded: Row, above: Row, row: Row, x: nat)
    requires x < |row| == |above| == |encoded|
  {
    Restores(filter, encoded[x], if x < bpp then 0 else row[x - bpp], above[x], if x < bpp then 0 else above[x - bpp], row[x])
  }

  /** A row decodes from given bytes under the row above exactly when its filter type restores every byte. */
  lemma FiltersAre(filter: nat, bpp: nat, encoded: Row, above: Row, row: Row)
    requires filter <= 4 && bpp > 0 && |encoded| == |above| == |row|
    ensures Decodes(filter, bpp, encoded, above, row) <==> forall x :: 0 <= x < |row| ==> RestoresAt(filter, bpp, encoded, above, row, x)
  {
    hide Restores, Predicted, Wrap;
    forall x | 0 <= x < |row|
      ensures RestoresAt(filter, bpp, encoded, above, row, x) <==> row[x] == Wrap(encoded[x] + PredictedAt(filter, bpp, row, above, x))
    {
      RestoresExactly(filter, encoded[x], if x < bpp then 0 else row[x - bpp], above[x], if x < bpp then 0 else above[x - bpp], row[x]);
    }
  }

  // ----- whole images

  function Blank(n: nat): (r: Row)
    ensures |r| == n
  {
    seq(n, i => 0)
  }

  /** The row above the first one counts as zeros. */
  function Above(rows: seq<Row>, y: nat, rowBytes: nat): Row
    requires y <= |rows|
  {
    if y == 0 then Blank(rowBytes) else rows[y - 1]
  }

  predicate Image(rows: seq<Row>, rowBytes: nat) { forall y | 0 <= y < |rows| :: |rows[y]| == rowBytes }

  /** Where row `n` begins in the stream: its filter type, then `rowBytes` bytes. */
  function Offset(n: nat, rowBytes: nat): nat { n * (rowBytes + 1) }

  /** The byte stream of an image: each row's filter type, then its filtered bytes. */
  function Stream(rows: seq<Row>, filters: seq<Byte>, bpp: nat, rowBytes: nat): (s: Row)
    requires |rows| == |filters| && Image(rows, rowBytes)
    ensures |s| == Offset(|rows|, rowBytes)
    decreases rows
  {
    if rows == [] then []
    else
      var n := |rows| - 1;
      assert |rows| * (rowBytes + 1) == n * (rowBytes + 1) + (rowBytes + 1);
      Stream(rows[..n], filters[..n], bpp, rowBytes) + [filters[n]] + Filtered(filters[n], bpp, rows[n], Above(rows, n, rowBytes))
  }

  /** The bytes of the rows, one after another. */
  function Flat(rows: seq<Row>): Row { if rows == [] then [] else Flat(rows[..|rows| - 1]) + rows[|rows| - 1] }

  lemma {:induction false} FlatLength(rows: seq<Row>, rowBytes: nat)
    requires Image(rows, rowBytes)
    ensures |Flat(rows)| == |rows| * rowBytes
    decreases rows
  {
    if rows != [] {
      FlatLength(rows[..|rows| - 1], rowBytes);
      assert |rows| * rowBytes == (|rows| - 1) * rowBytes + rowBytes;
    }
  }

  /** What the decoder is to produce from a stream: rows that decode one under another. */
  predicate Decoded(stream: Row, bpp: nat, rowBytes: nat, rows: seq<Row>)
    decreases rows
  {
    && |stream| == Offset(|rows|, rowBytes)
    && (rows != [] ==>
          var n := |rows| - 1;
          var at := Offset(n, rowBytes);
          && |stream| == at + rowBytes + 1 && stream[at] <= 4
          && |rows[n]| == rowBytes && |Above(rows, n, rowBytes)| == rowBytes
          && Decodes(stream[at], bpp, stream[at + 1..], Above(rows, n, rowBytes), rows[n])
          && Decoded(stream[..at], bpp, rowBytes, rows[..n]))
  }

  /** Byte `x` of row `y` restored from the stream: each row's filter type before its bytes, zeros left of every row and
      above the first. */
  predicate PixelRestored(stream: Row, bpp: nat, rowBytes: nat, rows: seq<Row>, y: nat, x: nat)
    requires |stream| == |rows| * (rowBytes + 1) && y < |rows| && Image(rows, rowBytes) && x < rowBytes
  {
    RowInside(y, |rows|, rowBytes);
    var at := y * (rowBytes + 1);
    Restores(stream[at], stream[at + 1 + x],
             if x < bpp then 0 else rows[y][x - bpp],
             if y == 0 then 0 else rows[y - 1][x],
             if x < bpp || y == 0 then 0 else rows[y - 1][x - bpp],
             rows[y][x])
  }

  lemma RowInside(y: nat, n: nat, rowBytes: nat)
    requires y < n
    ensures 0 <= y * (rowBytes + 1) && y * (rowBytes + 1) + rowBytes < n * (rowBytes + 1)
  {
    assert (y + 1) * (rowBytes + 1) <= n * (rowBytes + 1);
  }

  /** Row `y` begins with one of the five filter types. */
  predicate FilterAt(stream: Row, rowBytes: nat, y: nat) {
    0 <= y * (rowBytes + 1) < |stream| && stream[y * (rowBytes + 1)] <= 4
  }

  /** A whole image, byte by byte. */
  ghost predicate Restored(stream: Row, bpp: nat, rowBytes: nat, rows: seq<Row>) {
    && |stream| == |rows| * (rowBytes + 1) && Image(rows, rowBytes)
    && (forall y: nat :: y < |rows| ==> FilterAt(stream, rowBytes, y))
    && (forall y: nat, x: nat :: y < |rows| && x < rowBytes ==> PixelRestored(stream, bpp, rowBytes, rows, y, x))
  }

  /** The last row, given the ones before it. */
  lemma LastRestores(stream: Row, bpp: nat, rowBytes: nat, rows: seq<Row>)
    requires bpp > 0 && rows != [] && |stream| == |rows| * (rowBytes + 1) && Image(rows, rowBytes)
    requires stream[Offset(|rows| - 1, rowBytes)] <= 4
    ensures var n := |rows| - 1;
            var at := Offset(n, rowBytes);
            Decodes(stream[at], bpp, stream[at + 1..], Above(rows, n, rowBytes), rows[n])
            <==> forall x: nat :: x < rowBytes ==> PixelRestored(stream, bpp, rowBytes, rows, n, x)
  {
    hide Restores, Decodes;
    var n := |rows| - 1;
    var at := Offset(n, rowBytes);
    var encoded, above := stream[at + 1..], Above(rows, n, rowBytes);
    assert at + rowBytes + 1 == |stream|;
    FiltersAre(stream[at], bpp, encoded, above, rows[n]);
    forall x: nat | x < rowBytes
      ensures RestoresAt(stream[at], bpp, encoded, above, rows[n], x) <==> PixelRestored(stream, bpp, rowBytes, rows, n, x)
    {
    }
  }

  lemma EarlierRows(stream: Row, bpp: nat, rowBytes: nat, rows: seq<Row>)
    requires rows != [] && |stream| == |rows| * (rowBytes + 1) && Image(rows, rowBytes)
    ensures var n := |rows| - 1;
            && Offset(n, rowBytes) == n * (rowBytes + 1) <= |stream| && Image(rows[..n], rowBytes)
            && (forall y: nat :: y < n ==>
                  (FilterAt(stream, rowBytes, y) <==> FilterAt(stream[..n * (rowBytes + 1)], rowBytes, y)))
            && forall y: nat, x: nat :: y < n && x < rowBytes ==>
                 (PixelRestored(stream, bpp, rowBytes, rows, y, x)
                  <==> PixelRestored(stream[..n * (rowBytes + 1)], bpp, rowBytes, rows[..n], y, x))
  {
    hide Restores;
    var n := |rows| - 1;
    RowInside(n, |rows|, rowBytes);
    forall y: nat | y < n
      ensures FilterAt(stream, rowBytes, y) <==> FilterAt(stream[..n * (rowBytes + 1)], rowBytes, y)
    {
      RowInside(y, n, rowBytes);
    }
    forall y: nat, x: nat | y < n && x < rowBytes
      ensures PixelRestored(stream, bpp, rowBytes, rows, y, x) <==> PixelRestored(stream[..n * (rowBytes + 1)], bpp, rowBytes, rows[..n], y, x)
    {
      RowInside(y, n, rowBytes);
    }
  }

  lemma {:induction false} DecodedRestores(stream: Row, bpp: nat, rowBytes: nat, rows: seq<Row>)
    requires bpp > 0 && Decoded(stream, bpp, rowBytes, rows)
    ensures Restored(stream, bpp, rowBytes, rows)
    decreases rows
  {
    hide Restores, Decodes, PixelRestored, FilterAt;
    if rows != [] {
      var n := |rows| - 1;
      DecodedRestores(stream[..Offset(n, rowBytes)], bpp, rowBytes, rows[..n]);
      assert forall y :: 0 <= y < n ==> rows[..n][y] == rows[y];
      EarlierRows(stream, bpp, rowBytes, rows);
      LastRestores(stream, bpp, rowBytes, rows);
      LastFilter(stream, rowBytes, |rows|);
    }
  }

  lemma LastFilter(stream: Row, rowBytes: nat, n: nat)
    requires n > 0 && |stream| == n * (rowBytes + 1)
    ensures 0 <= (n - 1) * (rowBytes + 1) < |stream|
    ensures FilterAt(stream, rowBytes, n - 1) <==> stream[(n - 1) * (rowBytes + 1)] <= 4
  {
    RowInside(n - 1, n, rowBytes);
  }

  lemma {:induction false} RestoredDecodes(stream: Row, bpp: nat, rowBytes: nat, rows: seq<Row>)
    requires bpp > 0 && Restored(stream, bpp, rowBytes, rows)
    ensures Decoded(stream, bpp, rowBytes, rows)
    decreases rows
  {
    hide Restores, Decodes, PixelRestored, FilterAt;
    if rows != [] {
      var n := |rows| - 1;
      LastFilter(stream, rowBytes, |rows|);
      EarlierRows(stream, bpp, rowBytes, rows);
      var before := stream[..n * (rowBytes + 1)];
      assert |before| == |rows[..n]| * (rowBytes + 1);
      forall y: nat | y < n
        ensures FilterAt(before, rowBytes, y)
      {
        assert FilterAt(stream, rowBytes, y);
      }
      forall y: nat, x: nat | y < n && x < rowBytes
        ensures PixelRestored(before, bpp, rowBytes, rows[..n], y, x)
      {
        assert PixelRestored(stream, bpp, rowBytes, rows, y, x);
      }
      RestoredDecodes(before, bpp, rowBytes, rows[..n]);
      LastRestores(stream, bpp, rowBytes, rows);
      assert |stream| == n * (rowBytes + 1) + rowBytes + 1;
    }
  }

  /** A stream decodes to rows exactly when every byte of them is restored from it. */
  lemma DecodedExactly(stream: Row, bpp: nat, rowBytes: nat, rows: seq<Row>)
    requires bpp > 0
    ensures Decoded(stream, bpp, rowBytes, rows) <==> Restored(stream, bpp, rowBytes, rows)
  {
    hide Decoded, Restored;
    if Decoded(stream, bpp, rowBytes, rows) { DecodedRestores(stream, bpp, rowBytes, rows); }
    if Restored(stream, bpp, rowBytes, rows) { RestoredDecodes(stream, bpp, rowBytes, rows); }
  }

  lemma {:induction false} DecodedImage(stream: Row, bpp: nat, rowBytes: nat, rows: seq<Row>)
    requires Decoded(stream, bpp, rowBytes, rows)
    ensures Image(rows, rowBytes)
    decreases rows
  {
    hide Decodes;
    if rows != [] {
      var n := |rows| - 1;
      DecodedImage(stream[..Offset(n, rowBytes)], bpp, rowBytes, rows[..n]);
      forall y | 0 <= y < |rows|
        ensures |rows[y]| == rowBytes
      {
        if y < n { assert rows[..n][y] == rows[y]; }
      }
    }
  }

  predicate FilterTypes(filters: seq<Byte>) { forall y | 0 <= y < |filters| :: filters[y] <= 4 }

  lemma AboveFits(rows: seq<Row>, rowBytes: nat, n: nat)
    requires Image(rows, rowBytes) && n < |rows|
    ensures |rows[n]| == rowBytes && |Above(rows, n, rowBytes)| == rowBytes
    ensures Image(rows[..n], rowBytes)
  {
  }

  /** Whatever filter type each row chose, and any bytes per pixel, the filtered stream decodes to the rows. */
  lemma {:induction false} FilteredDecodes(rows: seq<Row>, filters: seq<Byte>, bpp: nat, rowBytes: nat)
    requires |rows| == |filters| && Image(rows, rowBytes) && FilterTypes(filters)
    ensures Decoded(Stream(rows, filters, bpp, rowBytes), bpp, rowBytes, rows)
    decreases rows
  {
    hide Decodes, Filtered;
    if rows != [] {
      var n := |rows| - 1;
      var at := Offset(n, rowBytes);
      AboveFits(rows, rowBytes, n);
      FilteredDecodes(rows[..n], filters[..n], bpp, rowBytes);
      var s, init := Stream(rows, filters, bpp, rowBytes), Stream(rows[..n], filters[..n], bpp, rowBytes);
      var encoded := Filtered(filters[n], bpp, rows[n], Above(rows, n, rowBytes));
      assert s == init + [filters[n]] + encoded && |init| == at;
      assert s[..at] == init && s[at] == filters[n] && s[at + 1..] == encoded;
      DecodesExactly(filters[n], bpp, encoded, Above(rows, n, rowBytes), rows[n]);
    }
  }

  /** Conversely, a stream that decodes is the filtering of the rows it decodes to. */
  lemma {:induction false} DecodedIsFiltered(stream: Row, bpp: nat, rowBytes: nat, rows: seq<Row>) returns (filters: seq<Byte>)
    requires Decoded(stream, bpp, rowBytes, rows)
    ensures |filters| == |rows| && FilterTypes(filters) && Image(rows, rowBytes)
    ensures stream == Stream(rows, filters, bpp, rowBytes)
    decreases rows
  {
    hide Decodes, Filtered, Blank;
    DecodedImage(stream, bpp, rowBytes, rows);
    if rows == [] {
      filters := [];
    } else {
      var n := |rows| - 1;
      var at := Offset(n, rowBytes);
      var before := DecodedIsFiltered(stream[..at], bpp, rowBytes, rows[..n]);
      filters := before + [stream[at]];
      assert filters[..n] == before && filters[n] == stream[at];
      DecodesExactly(stream[at], bpp, stream[at + 1..], Above(rows, n, rowBytes), rows[n]);
      assert stream == stream[..at] + [stream[at]] + stream[at + 1..];
    }
  }

  /** A stream decodes to one image only. */
  lemma {:induction false} DecodedOnce(stream: Row, bpp: nat, rowBytes: nat, a: seq<Row>, b: seq<Row>)
    requires bpp > 0 && Decoded(stream, bpp, rowBytes, a) && Decoded(stream, bpp, rowBytes, b) && |a| == |b|
    ensures a == b
    decreases a
  {
    hide Decodes, Offset, Blank;
    if a != [] {
      var n := |a| - 1;
      var at := Offset(n, rowBytes);
      DecodedOnce(stream[..at], bpp, rowBytes, a[..n], b[..n]);
      if n > 0 { assert a[..n][n - 1] == b[..n][n - 1]; }
      DecodesOnce(stream[at], bpp, stream[at + 1..], Above(a, n, rowBytes), a[n], b[n]);
      assert a == a[..n] + [a[n]] && b == b[..n] + [b[n]];
    }
  }

  // ----- the decode loop

  /** One row, in place: bytes `base..base + rowBytes` of `rows`, under the row before it if there is one. */
  method UnfilterRow(rows: array<Byte>, base: nat, rowBytes: nat, bpp: nat, filter: nat, encoded: Row)
    requires bpp > 0 && base + rowBytes <= rows.Length && |encoded| == rowBytes && (base > 0 ==> base >= rowBytes)
    modifies rows
    ensures forall i | 0 <= i < base || base + rowBytes <= i < rows.Length :: rows[i] == old(rows[i])
    ensures Decodes(filter, bpp, encoded, if base == 0 then Blank(rowBytes) else old(rows[base - rowBytes..base]), rows[base..base + rowBytes])
  {
    hide Predicted, Wrap, Decodes;
    ghost var above: Row := if base == 0 then Blank(rowBytes) else rows[base - rowBytes..base];
    for x := 0 to rowBytes
      invariant forall i | 0 <= i < base || base + rowBytes <= i < rows.Length :: rows[i] == old(rows[i])
      invariant forall j | 0 <= j < x :: rows[base + j] == Wrap(encoded[j]
                  + Predicted(filter, if j >= bpp then rows[base + j - bpp] else 0, above[j], Neighbour(above, j, bpp)))
    {
      var left := if x >= bpp then rows[base + x - bpp] else 0;
      var over := if base > 0 then rows[base - rowBytes + x] else 0;
      var upperLeft := if base > 0 && x >= bpp then rows[base - rowBytes + x - bpp] else 0;
      assert over == above[x] && upperLeft == Neighbour(above, x, bpp);
      var predictor := Predicted(filter, left, over, upperLeft);
      rows[base + x] := Wrap(encoded[x] + predictor);
    }
    UnfilteredRow(rows[..], base, rowBytes, bpp, filter, encoded, above);
    assert rows[..][base..base + rowBytes] == rows[base..base + rowBytes];
  }

  lemma UnfilteredRow(bytes: Row, base: nat, rowBytes: nat, bpp: nat, filter: nat, encoded: Row, above: Row)
    requires bpp > 0 && base + rowBytes <= |bytes| && |encoded| == |above| == rowBytes
    requires forall j | 0 <= j < rowBytes :: bytes[base + j] == Wrap(encoded[j]
                 + Predicted(filter, if j >= bpp then bytes[base + j - bpp] else 0, above[j], Neighbour(above, j, bpp)))
    ensures Decodes(filter, bpp, encoded, above, bytes[base..base + rowBytes])
  {
    hide Predicted, Wrap;
    var row := bytes[base..base + rowBytes];
    forall j | 0 <= j < rowBytes
      ensures row[j] == Wrap(encoded[j] + PredictedAt(filter, bpp, row, above, j))
    {
      assert row[j] == bytes[base + j];
      assert Neighbour(row, j, bpp) == if j >= bpp then bytes[base + j - bpp] else 0;
    }
  }

  lemma MulBelow(y: nat, height: nat, w: nat)
    requires y < height
    ensures (y + 1) * w == y * w + w <= height * w
  {
    var d := height - y - 1;
    assert height == (y + 1) + d;
    Distributes(y + 1, d, w);
    Distributes(y, 1, w);
  }

  lemma Distributes(a: nat, b: nat, w: nat)
    ensures (a + b) * w == a * w + b * w && b * w >= 0
  {
  }

  lemma RowOffsets(y: nat, height: nat, rowBytes: nat)
    requires y < height
    ensures Offset(y + 1, rowBytes) == Offset(y, rowBytes) + rowBytes + 1 <= Offset(height, rowBytes)
    ensures (y + 1) * rowBytes == y * rowBytes + rowBytes <= rowBytes * height
    ensures y * rowBytes > 0 ==> y > 0 && y * rowBytes >= rowBytes
  {
    MulBelow(y, height, rowBytes + 1);
    MulBelow(y, height, rowBytes);
    if y > 0 { MulBelow(y - 1, y, rowBytes); }
  }

  /** The bytes already decoded are the image so far, and its last row is the one above the next. */
  lemma LastRow(image: seq<Row>, rowBytes: nat, flat: Row)
    requires Image(image, rowBytes) && flat == Flat(image)
    ensures |flat| == |image| * rowBytes
    ensures image != [] ==> |flat| >= rowBytes && flat[|flat| - rowBytes..] == image[|image| - 1]
  {
    FlatLength(image, rowBytes);
    if image != [] { FlatLength(image[..|image| - 1], rowBytes); }
  }

  lemma AddRow(stream: Row, bpp: nat, rowBytes: nat, image: seq<Row>, row: Row)
    requires Offset(|image| + 1, rowBytes) == |stream| == Offset(|image|, rowBytes) + rowBytes + 1
    requires var at := Offset(|image|, rowBytes);
             && Decoded(stream[..at], bpp, rowBytes, image)
             && stream[at] <= 4 && |row| == rowBytes
             && |Above(image, |image|, rowBytes)| == rowBytes
             && Decodes(stream[at], bpp, stream[at + 1..], Above(image, |image|, rowBytes), row)
    ensures Decoded(stream, bpp, rowBytes, image + [row])
    ensures Flat(image + [row]) == Flat(image) + row
  {
    hide Decodes, Offset, Blank;
    var rows := image + [row];
    assert rows[..|image|] == image && rows[|image|] == row && |rows| - 1 == |image|;
    assert Above(rows, |image|, rowBytes) == Above(image, |image|, rowBytes);
  }

  /** A filter type no decoder knows. */
  predicate BadType(stream: Row, rowBytes: nat, y: nat) { Offset(y, rowBytes) < |stream| && stream[Offset(y, rowBytes)] > 4 }

  /** One turn of the loop: the next row of the stream is decoded below the image so far. */
  method DecodeRow(rows: array<Byte>, stream: Row, at: nat, base: nat, rowBytes: nat, bpp: nat, ghost image: seq<Row>) returns (ghost row: Row)
    requires bpp > 0 && base + rowBytes <= rows.Length && at + rowBytes + 1 <= |stream| && stream[at] <= 4
    requires at == Offset(|image|, rowBytes) && at + rowBytes + 1 == Offset(|image| + 1, rowBytes)
    requires Image(image, rowBytes) && base == |image| * rowBytes && rows[..base] == Flat(image)
    requires Decoded(stream[..at], bpp, rowBytes, image)
    modifies rows
    ensures Decoded(stream[..at + 1 + rowBytes], bpp, rowBytes, image + [row])
    ensures rows[..base + rowBytes] == Flat(image + [row])
  {
    hide Decodes, Decoded, Flat, Offset, Blank;
    ghost var before := rows[..base];
    LastRow(image, rowBytes, before);
    NoBytes(base, rowBytes, image);
    UnfilterRow(rows, base, rowBytes, bpp, stream[at], stream[at + 1..at + 1 + rowBytes]);
    row := rows[base..base + rowBytes];
    assert rows[..base] == before;
    assert rows[..base + rowBytes] == rows[..base] + row;
    ghost var part := stream[..at + 1 + rowBytes];
    assert part[..at] == stream[..at] && part[at + 1..] == stream[at + 1..at + 1 + rowBytes];
    AddRow(part, bpp, rowBytes, image, row);
  }

  /** The loop over the rows: it fails on a filter type above 4, and otherwise rebuilds the image the stream
      encodes. */
  method DecodeRows(stream: Row, height: nat, rowBytes: nat, bpp: nat) returns (ok: bool, rows: array<Byte>, ghost image: seq<Row>)
    requires bpp > 0 && |stream| == Offset(height, rowBytes)
    ensures fresh(rows)
    ensures ok ==> |image| == height && Decoded(stream, bpp, rowBytes, image) && rows[..] == Flat(image)
    ensures !ok ==> exists y: nat :: y < height && BadType(stream, rowBytes, y)
  {
    hide Decodes, Decoded, Flat, Offset;
    rows := new Byte[rowBytes * height];
    image := [];
    var inputOffset, base := 0, 0;
    NoRows(bpp, rowBytes);
    assert stream[..0] == [] && rows[..0] == [];
    for y := 0 to height
      invariant |image| == y && inputOffset == Offset(y, rowBytes) <= |stream| && base == y * rowBytes <= rows.Length
      invariant rows[..base] == Flat(image)
      invariant Decoded(stream[..inputOffset], bpp, rowBytes, image)
    {
      RowOffsets(y, height, rowBytes);
      if stream[inputOffset] > 4 {
        assert BadType(stream, rowBytes, y);
        return false, rows, image;
      }
      DecodedImage(stream[..inputOffset], bpp, rowBytes, image);
      ghost var row := DecodeRow(rows, stream, inputOffset, base, rowBytes, bpp, image);
      image := image + [row];
      inputOffset := inputOffset + 1 + rowBytes;
      base := base + rowBytes;
    }
    assert stream[..|stream|] == stream && rows[..] == rows[..base];
    ok := true;
  }

  lemma NoRows(bpp: nat, rowBytes: nat)
    ensures Decoded([], bpp, rowBytes, []) && Flat([]) == [] && Offset(0, rowBytes) == 0
  {
  }

  /** At offset 0 the row above is empty or absent. */
  lemma NoBytes(base: nat, rowBytes: nat, image: seq<Row>)
    requires Image(image, rowBytes) && base == |image| * rowBytes
    ensures base == 0 && image != [] ==> image[|image| - 1] == Blank(rowBytes)
    ensures image == [] ==> base == 0
  {
    if base == 0 && image != [] {
      assert rowBytes == 0 || |image| * rowBytes >= rowBytes;
      assert image[|image| - 1] == [] && Blank(rowBytes) == [];
    }
  }

  lemma {:induction false} StreamTypes(rows: seq<Row>, filters: seq<Byte>, bpp: nat, rowBytes: nat, y: nat)
    requires |rows| == |filters| && Image(rows, rowBytes) && y < |rows|
    ensures Offset(y, rowBytes) < |Stream(rows, filters, bpp, rowBytes)|
    ensures Stream(rows, filters, bpp, rowBytes)[Offset(y, rowBytes)] == filters[y]
    decreases rows
  {
    hide Filtered, Offset;
    var n := |rows| - 1;
    RowOffsets(y, |rows|, rowBytes);
    if y < n {
      RowOffsets(y, n, rowBytes);
      StreamTypes(rows[..n], filters[..n], bpp, rowBytes, y);
    }
  }

  /** Decoding what an encoder filtered gives back its rows and nothing else, for every choice of filter
      types and any bytes per pixel. */
  lemma UnfilterInvertsFilter(rows: seq<Row>, filters: seq<Byte>, bpp: nat, rowBytes: nat, found: seq<Row>)
    requires bpp > 0 && |rows| == |filters| && Image(rows, rowBytes) && FilterTypes(filters) && |found| == |rows|
    ensures Decoded(Stream(rows, filters, bpp, rowBytes), bpp, rowBytes, found) <==> found == rows
    ensures forall y: nat | y < |rows| :: !BadType(Stream(rows, filters, bpp, rowBytes), rowBytes, y)
  {
    hide Decoded, Stream;
    var stream := Stream(rows, filters, bpp, rowBytes);
    FilteredDecodes(rows, filters, bpp, rowBytes);
    if Decoded(stream, bpp, rowBytes, found) { DecodedOnce(stream, bpp, rowBytes, found, rows); }
    forall y: nat | y < |rows|
      ensures !BadType(stream, rowBytes, y)
    {
      StreamTypes(rows, filters, bpp, rowBytes, y);
    }
  }
}
