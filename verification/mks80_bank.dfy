/**
 The fixed-length bank format read by `loadMKS80File`: exactly 0xF80 bytes,
 cut into 64 rows of 62 bytes (a 23-byte patch block followed by a 39-byte
 tone block), with no names and no separators.
 */
module Mks80Bank {
  import opened BankLayout
  import opened ByteCursor

  /** The loader's row loop: `count` reads of a 62-byte block from `pos` on.
      The outcome of each read is not checked, so a read past the end gives an
      empty row and leaves the cursor where it was. Row `i` starts at byte
      `pos + 62 * i`. */
  function ReadRows(data: Bytes, pos: nat, count: nat): (rows: seq<Bytes>)
    requires pos <= |data|
    ensures |rows| == count
    ensures forall i :: 0 <= i < count && pos + 62 * (i + 1) <= |data| ==>
              rows[i] == data[pos + 62 * i..pos + 62 * (i + 1)]
    ensures forall i :: 0 <= i < count && |data| < pos + 62 * (i + 1) ==> rows[i] == []
    decreases count
  {
    if count == 0 then
      []
    else
      var row := ReadBinaryBlock(data, pos, DatRowSize);
      [row.0] + ReadRows(data, row.1, count - 1)
  }

  /** The 64 rows of a fixed-length file: row `i` is bytes 62*i up to 62*i+62. */
  function RowsOf(data: Bytes): (rows: seq<Bytes>)
    requires |data| == Mks80FileSize
  {
    seq(BankSize, i requires 0 <= i < BankSize => data[62 * i..62 * i + 62])
  }

  /** A whole file: rejected unless it is exactly 0xF80 bytes long, and then
      read as 64 consecutive rows. */
  function DecodeMKS80(data: Bytes): (r: Result<seq<Bytes>>)
    ensures r.Success? <==> |data| == Mks80FileSize
    ensures r.Failure? ==> r.reason == WrongFileLength(|data|)
    ensures r.Success? ==> |r.value| == BankSize
    ensures r.Success? ==> forall i :: 0 <= i < BankSize ==> r.value[i] == data[62 * i..62 * i + 62]
    ensures r.Success? ==> r.value == RowsOf(data)
  {
    if |data| != Mks80FileSize then
      Failure(WrongFileLength(|data|))
    else
      var rows := ReadRows(data, 0, BankSize);
      assert rows == RowsOf(data);
      Success(rows)
  }

  // ---------------------------------------------------------------------------
  // Reference encoder: the rows written one after the other.

  predicate WellSizedRows(rows: seq<Bytes>) {
    forall i :: 0 <= i < |rows| ==> |rows[i]| == DatRowSize
  }

  function FlattenRows(rows: seq<Bytes>): (e: Bytes)
    requires WellSizedRows(rows)
    ensures |e| == 62 * |rows|
  {
    if rows == [] then [] else rows[0] + FlattenRows(rows[1..])
  }

  /** Row `i` of a flattened sequence of rows sits at byte `62 * i`. */
  lemma {:induction false} FlattenRowsAt(rows: seq<Bytes>, i: nat)
    requires WellSizedRows(rows) && i < |rows|
    ensures FlattenRows(rows)[62 * i..62 * i + 62] == rows[i]
    decreases i
  {
    var e := FlattenRows(rows);
    var tail := FlattenRows(rows[1..]);
    assert e == rows[0] + tail;
    if i == 0 {
      assert e[0..62] == rows[0];
    } else {
      FlattenRowsAt(rows[1..], i - 1);
      assert e[62 * i..62 * i + 62] == tail[62 * (i - 1)..62 * (i - 1) + 62];
    }
  }

  /** Round trip: 64 rows of 62 bytes, written out, read back as themselves. */
  lemma Mks80RoundTrip(rows: seq<Bytes>)
    requires WellSizedRows(rows) && |rows| == BankSize
    ensures DecodeMKS80(FlattenRows(rows)) == Success(rows)
  {
    var data := FlattenRows(rows);
    assert |data| == Mks80FileSize;
    var r := DecodeMKS80(data);
    forall i | 0 <= i < BankSize
      ensures r.value[i] == rows[i]
    {
      FlattenRowsAt(rows, i);
    }
    assert r.value == rows;
  }

  /** The other direction: the rows of an accepted file, written out again,
      give back the file byte for byte, so decoding loses nothing. */
  lemma Mks80Lossless(data: Bytes)
    requires |data| == Mks80FileSize
    ensures WellSizedRows(DecodeMKS80(data).value)
    ensures FlattenRows(DecodeMKS80(data).value) == data
  {
    var rows := DecodeMKS80(data).value;
    var e := FlattenRows(rows);
    forall k | 0 <= k < |data|
      ensures e[k] == data[k]
    {
      var i := k / 62;
      FlattenRowsAt(rows, i);
      assert e[62 * i..62 * i + 62][k - 62 * i] == rows[i][k - 62 * i];
    }
  }
}
