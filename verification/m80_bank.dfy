/**
 The variable-length M80 bank format read by `loadM80File`: a sequence of
 records, each a length-prefixed patch name, a 23-byte patch block, a
 length-prefixed tone name and a 39-byte tone block. A file decodes to exactly
 64 records or is rejected as a whole.
 */
module M80Bank {
  import opened BankLayout
  import opened ByteCursor

  /** One record of the file, as the loader pulls it apart. The names are
      collected but not used further. */
  datatype DatRecord = DatRecord(patchName: Bytes, patchData: Bytes, toneName: Bytes, toneData: Bytes)

  /** A record whose blocks have the DAT sizes. */
  predicate WellSized(rec: DatRecord) {
    |rec.patchData| == PatchBlockSize && |rec.toneData| == ToneBlockSize
  }

  /** One pass of the loader's loop body: two names and two blocks, accepted
      only when patch and tone block together are 62 bytes. */
  function ReadRecord(data: Bytes, pos: nat): (r: Result<(DatRecord, nat)>)
    requires pos < |data|
    ensures r.Success? ==> pos + DatRowSize + 2 <= r.value.1 <= |data|
    ensures r.Success? ==> WellSized(r.value.0)
    ensures r.Success? ==> r.value.0.toneData == data[r.value.1 - ToneBlockSize..r.value.1]
    ensures r.Failure? ==> r.reason == Truncated
  {
    var patchName := ReadPascalString(data, pos);
    var patchBlock := ReadBinaryBlock(data, patchName.1, PatchBlockSize);
    var toneName := ReadPascalString(data, patchBlock.1);
    var toneBlock := ReadBinaryBlock(data, toneName.1, ToneBlockSize);
    if |patchBlock.0 + toneBlock.0| == DatRowSize then
      Success((DatRecord(patchName.0, patchBlock.0, toneName.0, toneBlock.0), toneBlock.1))
    else
      Failure(Truncated)
  }

  /** Where an accepted record's parts come from, and when a record is
      accepted. The patch block is the 23 bytes after the patch name, the tone
      name is read right after them, and the tone block is the 39 bytes after
      the tone name. A record is accepted exactly when both blocks are present
      in full. A short patch block leaves the cursor where it was; fewer than
      23 bytes then remain, so the tone block cannot be read either. Kept
      apart from the reader so that decoders built on it do not carry it. */
  lemma ReadRecordMeaning(data: Bytes, pos: nat)
    requires pos < |data|
    ensures var p1 := ReadPascalString(data, pos).1;
            ReadRecord(data, pos).Success? <==>
              && p1 + PatchBlockSize <= |data|
              && ReadPascalString(data, p1 + PatchBlockSize).1 + ToneBlockSize <= |data|
    ensures ReadRecord(data, pos).Success? ==>
              var rec := ReadRecord(data, pos).value.0;
              var p1 := ReadPascalString(data, pos).1;
              var p2 := p1 + PatchBlockSize;
              && p2 <= |data|
              && rec.patchName == ReadPascalString(data, pos).0
              && rec.patchData == data[p1..p2]
              && var p3 := ReadPascalString(data, p2).1;
                 && p3 + ToneBlockSize <= |data|
                 && rec.toneName == ReadPascalString(data, p2).0
                 && rec.toneData == data[p3..p3 + ToneBlockSize]
                 && ReadRecord(data, pos).value.1 == p3 + ToneBlockSize
  {
    var p1 := ReadPascalString(data, pos).1;
    var patchBlock := ReadBinaryBlock(data, p1, PatchBlockSize);
    var toneName := ReadPascalString(data, patchBlock.1);
    var toneBlock := ReadBinaryBlock(data, toneName.1, ToneBlockSize);
    assert ReadRecord(data, pos).Success? <==> |patchBlock.0| + |toneBlock.0| == DatRowSize;
    if p1 + PatchBlockSize <= |data| {
      assert patchBlock == (data[p1..p1 + PatchBlockSize], p1 + PatchBlockSize);
    } else {
      assert patchBlock.0 == [];
    }
  }

  /** The loader's loop from cursor `pos` to the end of the file: every record
      must be complete, and one incomplete record rejects all of them. Each
      record takes at least 64 bytes, so the loop ends. */
  function DecodeRecords(data: Bytes, pos: nat): (r: Result<seq<DatRecord>>)
    requires pos <= |data|
    ensures pos == |data| ==> r == Success([])
    ensures r.Success? ==> 64 * |r.value| <= |data| - pos  // a record takes at least DatRowSize + 2 bytes
    ensures r.Success? ==> forall i :: 0 <= i < |r.value| ==> WellSized(r.value[i])
    ensures r.Failure? ==> r.reason == Truncated
    decreases |data| - pos
  {
    if pos == |data| then
      Success([])
    else
      match ReadRecord(data, pos)
      case Failure(reason) => Failure(reason)
      case Success((rec, next)) =>
        match DecodeRecords(data, next)
        case Failure(reason) => Failure(reason)
        case Success(rest) => Success([rec] + rest)
  }

  /** A whole file: all records decoded, and exactly 64 of them. */
  function DecodeM80(data: Bytes): (r: Result<seq<DatRecord>>)
    ensures r.Success? ==> |r.value| == BankSize
    ensures r.Success? ==> forall i :: 0 <= i < |r.value| ==> WellSized(r.value[i])
    ensures |data| < 64 * BankSize ==> r.Failure?  // a record takes at least DatRowSize + 2 bytes
    ensures r.Failure? ==> r.reason == Truncated || r.reason.WrongRecordCount?
    ensures r.Failure? && r.reason.WrongRecordCount? ==> r.reason.found != BankSize
  {
    match DecodeRecords(data, 0)
    case Failure(reason) => Failure(reason)
    case Success(recs) =>
      if |recs| == BankSize then Success(recs) else Failure(WrongRecordCount(|recs|))
  }

  // ---------------------------------------------------------------------------
  // Reference encoder: how a well-formed file is laid out.

  /** A record that a writer of the format could have produced and that reads
      back unchanged. */
  predicate WellFormedRecord(rec: DatRecord) {
    WellFormedName(rec.patchName) && WellFormedName(rec.toneName) && WellSized(rec)
  }

  predicate AllWellFormed(recs: seq<DatRecord>) {
    forall i :: 0 <= i < |recs| ==> WellFormedRecord(recs[i])
  }

  function EncodeRecord(rec: DatRecord): (e: Bytes)
    requires WellFormedRecord(rec)
    ensures |e| == |rec.patchName| + |rec.toneName| + DatRowSize + 2
  {
    EncodeName(rec.patchName) + rec.patchData + EncodeName(rec.toneName) + rec.toneData
  }

  function EncodeM80(recs: seq<DatRecord>): (e: Bytes)
    requires AllWellFormed(recs)
  {
    if recs == [] then [] else EncodeRecord(recs[0]) + EncodeM80(recs[1..])
  }

  /** The records in front of a decode of the rest, or its failure. */
  function Prepend(recs: seq<DatRecord>, r: Result<seq<DatRecord>>): Result<seq<DatRecord>> {
    match r
    case Success(rest) => Success(recs + rest)
    case Failure(reason) => Failure(reason)
  }

  /** The bytes `x` lie in `data` from `pos` on, stated byte by byte. (Stated
      recursively rather than as a slice equality, so that the verifier unfolds
      it only where a proof asks for it; BytesAtSlice relates the two forms.) */
  ghost predicate BytesAt(data: Bytes, pos: nat, x: Bytes)
    decreases |x|
  {
    if x == [] then pos <= |data| else pos < |data| && data[pos] == x[0] && BytesAt(data, pos + 1, x[1..])
  }

  /** BytesAt is the slice equality it stands for. */
  lemma {:induction false} BytesAtSlice(data: Bytes, pos: nat, x: Bytes)
    ensures BytesAt(data, pos, x) <==> pos + |x| <= |data| && data[pos..pos + |x|] == x
    decreases |x|
  {
    if x != [] {
      BytesAtSlice(data, pos + 1, x[1..]);
      if pos + |x| <= |data| {
        assert data[pos..pos + |x|] == [data[pos]] + data[pos + 1..pos + 1 + |x[1..]|];
        assert x == [x[0]] + x[1..];
      }
    }
  }

  /** `rec`, encoded, lies in `data` from `pos` on. */
  ghost predicate RecordAt(data: Bytes, pos: nat, rec: DatRecord) {
    WellFormedRecord(rec) && pos + |EncodeRecord(rec)| <= |data| && BytesAt(data, pos, EncodeRecord(rec))
  }

  /** The records `recs`, encoded one after the other, lie in `data` from `pos` on. */
  ghost predicate RunAt(data: Bytes, pos: nat, recs: seq<DatRecord>) {
    AllWellFormed(recs) && pos + |EncodeM80(recs)| <= |data| && BytesAt(data, pos, EncodeM80(recs))
  }

  /** The same run, record by record: each record lies where the one before
      it ends, and the last one ends at `end`. */
  ghost predicate ChainAt(data: Bytes, pos: nat, recs: seq<DatRecord>, end: nat)
    decreases |recs|
  {
    if recs == [] then
      pos == end <= |data|
    else
      RecordAt(data, pos, recs[0]) && ChainAt(data, pos + |EncodeRecord(recs[0])|, recs[1..], end)
  }

  /** `data` ends inside the encoding of `rec` that starts at `pos`. */
  ghost predicate CutRecordAt(data: Bytes, pos: nat, rec: DatRecord) {
    && WellFormedRecord(rec)
    && pos < |data| < pos + |EncodeRecord(rec)|
    && data[pos..] == EncodeRecord(rec)[..|data| - pos]
  }

  /** A slice of a slice is a slice. */
  lemma SliceOfSlice(data: Bytes, lo: nat, x: Bytes, i: nat, j: nat, at: nat, y: Bytes)
    requires BytesAt(data, lo, x)
    requires i <= j <= |x| && at == lo + i && y == x[i..j]
    ensures BytesAt(data, at, y)
  {
    BytesAtSlice(data, lo, x);
    forall k | 0 <= k < j - i
      ensures data[lo + i..lo + j][k] == x[i..j][k]
    {
      assert data[lo..lo + |x|][i + k] == x[i + k];
    }
    BytesAtSlice(data, at, y);
  }

  /** One step of the loop: a record read at `pos` goes in front of what the
      rest of the input decodes to. */
  lemma DecodeRecordsStep(data: Bytes, pos: nat, rec: DatRecord, next: nat)
    requires pos < |data|
    requires ReadRecord(data, pos) == Success((rec, next))
    ensures next <= |data|
    ensures DecodeRecords(data, pos) == Prepend([rec], DecodeRecords(data, next))
  {
  }

  /** A record whose tone block cannot be read in full is rejected. */
  lemma ReadRecordToneShort(data: Bytes, pos: nat)
    requires pos < |data|
    requires var p1 := ReadPascalString(data, pos).1;
             var p2 := ReadBinaryBlock(data, p1, PatchBlockSize).1;
             var p3 := ReadPascalString(data, p2).1;
             |data| < p3 + ToneBlockSize
    ensures ReadRecord(data, pos) == Failure(Truncated)
  {
  }

  /** A length-prefixed name followed by a block, lying in `data` from `pos` on,
      reads back as that name and that block. */
  lemma NameAndBlockOfEncoding(data: Bytes, pos: nat, x: Bytes, name: Bytes, block: Bytes, size: nat, next: nat)
    requires WellFormedName(name) && x == EncodeName(name) + block
    requires BytesAt(data, pos, x)
    requires size == |block| && next == pos + |x|
    ensures ReadPascalString(data, pos).0 == name
    ensures ReadBinaryBlock(data, ReadPascalString(data, pos).1, size) == (block, next)
  {
    var pn := EncodeName(name);
    assert x[0..|pn|] == pn;
    SliceOfSlice(data, pos, x, 0, |pn|, pos, pn);
    BytesAtSlice(data, pos, pn);
    ReadPascalStringOfEncoding(data, pos, name);
    assert x[|pn|..|x|] == block;
    SliceOfSlice(data, pos, x, |pn|, |x|, pos + |pn|, block);
    BytesAtSlice(data, pos + |pn|, block);
    ReadBinaryBlockOfSlice(data, pos + |pn|, block);
  }

  /** Where the parts of an encoded record lie within it: the patch half (name
      and patch block) first, then the tone half; each half starts with its
      length-prefixed name. */
  lemma EncodeRecordParts(rec: DatRecord)
    requires WellFormedRecord(rec)
    ensures var e := EncodeRecord(rec);
            var half := |rec.patchName| + 1 + PatchBlockSize;
            && e[0..half] == EncodeName(rec.patchName) + rec.patchData
            && e[half..|e|] == EncodeName(rec.toneName) + rec.toneData
            && BytesAt(e, 0, EncodeName(rec.patchName))
            && BytesAt(e, half, EncodeName(rec.toneName))
  {
    var pn := EncodeName(rec.patchName);
    var patch := pn + rec.patchData;
    var tn := EncodeName(rec.toneName);
    var tone := tn + rec.toneData;
    var e := EncodeRecord(rec);
    assert e == patch + tone;
    assert e[..|patch|] == patch;
    assert e[|patch|..] == tone;
    assert patch[..|pn|] == pn;
    assert tone[..|tn|] == tn;
    BytesAtSlice(e, 0, pn);
    BytesAtSlice(e, |patch|, tn);
  }

  /** The loop body accepts a record once its four reads have produced its four
      parts, the two blocks in full. */
  lemma ReadRecordOfParts(data: Bytes, pos: nat, rec: DatRecord, mid: nat, end: nat)
    requires pos < |data| && WellSized(rec)
    requires ReadPascalString(data, pos).0 == rec.patchName
    requires ReadBinaryBlock(data, ReadPascalString(data, pos).1, PatchBlockSize) == (rec.patchData, mid)
    requires mid <= |data| && ReadPascalString(data, mid).0 == rec.toneName
    requires ReadBinaryBlock(data, ReadPascalString(data, mid).1, ToneBlockSize) == (rec.toneData, end)
    ensures ReadRecord(data, pos) == Success((rec, end))
  {
  }

  /** The four reads over an encoded record: each yields the matching part and
      the second name starts right after the patch block. */
  lemma ReadsOfEncoding(data: Bytes, pos: nat, rec: DatRecord)
    requires RecordAt(data, pos, rec)
    ensures var mid := pos + |rec.patchName| + 1 + PatchBlockSize;
            && ReadPascalString(data, pos).0 == rec.patchName
            && ReadBinaryBlock(data, ReadPascalString(data, pos).1, PatchBlockSize) == (rec.patchData, mid)
            && mid <= |data| && ReadPascalString(data, mid).0 == rec.toneName
            && ReadBinaryBlock(data, ReadPascalString(data, mid).1, ToneBlockSize) == (rec.toneData, pos + |EncodeRecord(rec)|)
  {
    var e := EncodeRecord(rec);
    var half := |rec.patchName| + 1 + PatchBlockSize;
    EncodeRecordParts(rec);
    var patch := EncodeName(rec.patchName) + rec.patchData;
    var tone := EncodeName(rec.toneName) + rec.toneData;
    SliceOfSlice(data, pos, e, 0, half, pos, patch);
    NameAndBlockOfEncoding(data, pos, patch, rec.patchName, rec.patchData, PatchBlockSize, pos + half);
    SliceOfSlice(data, pos, e, half, |e|, pos + half, tone);
    NameAndBlockOfEncoding(data, pos + half, tone, rec.toneName, rec.toneData, ToneBlockSize, pos + |e|);
  }

  /** An encoded record reads back as itself, and the cursor lands right after it,
      whatever follows it. */
  lemma ReadRecordOfEncoding(data: Bytes, pos: nat, rec: DatRecord)
    requires RecordAt(data, pos, rec)
    ensures ReadRecord(data, pos) == Success((rec, pos + |EncodeRecord(rec)|))
  {
    ReadsOfEncoding(data, pos, rec);
    ReadRecordOfParts(data, pos, rec, pos + |rec.patchName| + 1 + PatchBlockSize, pos + |EncodeRecord(rec)|);
  }

  /** Where the input is a cut-off copy of `e` from `pos` on, every slice of
      the input is the corresponding slice of `e`. */
  lemma SliceOfCutOff(data: Bytes, pos: nat, e: Bytes, lo: nat, hi: nat)
    requires pos <= |data| <= pos + |e|
    requires data[pos..] == e[..|data| - pos]
    requires lo <= hi <= |data| - pos
    ensures data[pos + lo..pos + hi] == e[lo..hi]
  {
    forall k | 0 <= k < hi - lo
      ensures data[pos + lo..pos + hi][k] == e[lo..hi][k]
    {
      assert data[pos..][lo + k] == e[..|data| - pos][lo + k];
    }
  }

  /** Where the input is a cut-off copy of `e` from `pos` on and an encoded name
      lies in `e` at `off`, reading a name at `pos + off` moves the cursor past
      that name, or to the end of the input if the input ends inside it. */
  lemma NameOfCutOff(data: Bytes, pos: nat, e: Bytes, off: nat, name: Bytes)
    requires pos <= |data| <= pos + |e|
    requires data[pos..] == e[..|data| - pos]
    requires WellFormedName(name)
    requires BytesAt(e, off, EncodeName(name))
    requires pos + off < |data|
    ensures ReadPascalString(data, pos + off).1 == Min(|data|, pos + off + |name| + 1)
  {
    var en := EncodeName(name);
    var c := pos + off;
    var stop := Min(|data|, c + |en|);
    SliceOfSlice(e, off, en, 0, stop - c, off, en[0..stop - c]);
    BytesAtSlice(e, off, en[0..stop - c]);
    assert e[off..stop - pos] == en[0..stop - c] == en[..stop - c];
    SliceOfCutOff(data, pos, e, off, stop - pos);
    ReadPascalStringOfEncoding(data, c, name);
  }

  /** Where an input cut off inside an encoded record leaves the cursor after
      the patch name: past the name, or at the end of the input. */
  lemma PatchNameOfTruncated(data: Bytes, pos: nat, rec: DatRecord)
    requires CutRecordAt(data, pos, rec)
    ensures ReadPascalString(data, pos).1 == Min(|data|, pos + |rec.patchName| + 1)
  {
    EncodeRecordParts(rec);
    NameOfCutOff(data, pos, EncodeRecord(rec), 0, rec.patchName);
  }

  /** The same for the tone name, once the patch block has been read. */
  lemma ToneNameOfTruncated(data: Bytes, pos: nat, rec: DatRecord)
    requires CutRecordAt(data, pos, rec)
    requires pos + |rec.patchName| + 1 + PatchBlockSize < |data|
    ensures var c := pos + |rec.patchName| + 1 + PatchBlockSize;
            ReadPascalString(data, c).1 == Min(|data|, c + |rec.toneName| + 1)
  {
    EncodeRecordParts(rec);
    NameOfCutOff(data, pos, EncodeRecord(rec), |rec.patchName| + 1 + PatchBlockSize, rec.toneName);
  }

  /** An input that ends inside an encoded record is rejected: wherever it ends,
      fewer than 39 bytes remain after the tone name, so the tone block can never
      be read in full. */
  lemma ReadRecordOfTruncated(data: Bytes, pos: nat, rec: DatRecord)
    requires CutRecordAt(data, pos, rec)
    ensures ReadRecord(data, pos) == Failure(Truncated)
  {
    var c := pos + |rec.patchName| + 1 + PatchBlockSize;
    var p1 := ReadPascalString(data, pos).1;
    var p2 := ReadBinaryBlock(data, p1, PatchBlockSize).1;
    var p3 := ReadPascalString(data, p2).1;
    PatchNameOfTruncated(data, pos, rec);
    if |data| < c {
      assert p2 == p1 && p2 <= p3;
    } else if c < |data| {
      assert p2 == c;
      ToneNameOfTruncated(data, pos, rec);
    }
    assert |data| < p3 + ToneBlockSize;
    ReadRecordToneShort(data, pos);
  }

  /** The loop over one encoded record: it is read back and decoding goes on
      right after it. */
  lemma DecodeRecordsOverRecord(data: Bytes, pos: nat, rec: DatRecord)
    requires RecordAt(data, pos, rec)
    ensures DecodeRecords(data, pos) == Prepend([rec], DecodeRecords(data, pos + |EncodeRecord(rec)|))
  {
    ReadRecordOfEncoding(data, pos, rec);
    DecodeRecordsStep(data, pos, rec, pos + |EncodeRecord(rec)|);
  }

  /** A run of encoded records is its first record followed by the rest. */
  lemma RunAtSplit(data: Bytes, pos: nat, recs: seq<DatRecord>)
    requires RunAt(data, pos, recs) && recs != []
    ensures RecordAt(data, pos, recs[0])
    ensures RunAt(data, pos + |EncodeRecord(recs[0])|, recs[1..])
    ensures |EncodeM80(recs)| == |EncodeRecord(recs[0])| + |EncodeM80(recs[1..])|
  {
    var all := EncodeM80(recs);
    var e := EncodeRecord(recs[0]);
    var tail := EncodeM80(recs[1..]);
    assert all == e + tail;
    assert all[0..|e|] == e;
    assert all[|e|..|all|] == tail;
    SliceOfSlice(data, pos, all, 0, |e|, pos, e);
    SliceOfSlice(data, pos, all, |e|, |all|, pos + |e|, tail);
    assert AllWellFormed(recs[1..]) by {
      forall i | 0 <= i < |recs[1..]| ensures WellFormedRecord(recs[1..][i]) {
        assert recs[1..][i] == recs[i + 1];
      }
    }
  }

  lemma PrependCons(recs: seq<DatRecord>, r: Result<seq<DatRecord>>)
    requires recs != []
    ensures Prepend([recs[0]], Prepend(recs[1..], r)) == Prepend(recs, r)
  {
    assert [recs[0]] + recs[1..] == recs;
    match r
    case Success(rest) => assert [recs[0]] + (recs[1..] + rest) == recs + rest;
    case Failure(_) =>
  }

  lemma PrependNothing(r: Result<seq<DatRecord>>)
    ensures Prepend([], r) == r
  {
    match r
    case Success(rest) => assert [] + rest == rest;
    case Failure(_) =>
  }

  /** A contiguous run of encoded records is a chain of them. */
  lemma {:induction false} ChainOfRun(data: Bytes, pos: nat, recs: seq<DatRecord>)
    requires RunAt(data, pos, recs)
    ensures ChainAt(data, pos, recs, pos + |EncodeM80(recs)|)
    decreases |recs|
  {
    if recs != [] {
      RunAtSplit(data, pos, recs);
      ChainOfRun(data, pos + |EncodeRecord(recs[0])|, recs[1..]);
    }
  }

  /** Decoding over a chain of encoded records that ends at `end` yields exactly
      those records, in file order, in front of whatever the rest of the input
      decodes to. */
  lemma {:induction false} DecodeRecordsOfChain(data: Bytes, pos: nat, recs: seq<DatRecord>, end: nat)
    requires ChainAt(data, pos, recs, end)
    ensures pos <= end <= |data|
    ensures DecodeRecords(data, pos) == Prepend(recs, DecodeRecords(data, end))
    decreases |recs|
  {
    if recs == [] {
      PrependNothing(DecodeRecords(data, pos));
    } else {
      var next := pos + |EncodeRecord(recs[0])|;
      DecodeRecordsOfChain(data, next, recs[1..], end);
      DecodeRecordsOverRecord(data, pos, recs[0]);
      PrependCons(recs, DecodeRecords(data, end));
    }
  }

  /** Appending a record to a bank appends its encoding. */
  lemma {:induction false} EncodeM80Append(recs: seq<DatRecord>, rec: DatRecord)
    requires AllWellFormed(recs) && WellFormedRecord(rec)
    ensures AllWellFormed(recs + [rec])
    ensures EncodeM80(recs + [rec]) == EncodeM80(recs) + EncodeRecord(rec)
    decreases |recs|
  {
    var all := recs + [rec];
    assert forall i :: 0 <= i < |all| ==> all[i] == if i < |recs| then recs[i] else rec;
    if recs == [] {
      assert all == [rec];
      assert all[1..] == [];
    } else {
      assert all[1..] == recs[1..] + [rec];
      assert AllWellFormed(recs[1..]) by {
        forall i | 0 <= i < |recs[1..]| ensures WellFormedRecord(recs[1..][i]) {
          assert recs[1..][i] == recs[i + 1];
        }
      }
      EncodeM80Append(recs[1..], rec);
    }
  }

  /** An input that is exactly a run of encoded records decodes to them. */
  lemma DecodeRecordsOfWhole(data: Bytes, recs: seq<DatRecord>)
    requires RunAt(data, 0, recs) && |data| == |EncodeM80(recs)|
    ensures DecodeRecords(data, 0) == Success(recs)
  {
    ChainOfRun(data, 0, recs);
    DecodeRecordsOfChain(data, 0, recs, |data|);
    assert recs + [] == recs;
  }

  /** Round trip: any sequence of well-formed records reads back as itself. */
  lemma RecordsRoundTrip(recs: seq<DatRecord>)
    requires AllWellFormed(recs)
    ensures DecodeRecords(EncodeM80(recs), 0) == Success(recs)
  {
    var e := EncodeM80(recs);
    assert e[0..|e|] == e;
    BytesAtSlice(e, 0, e);
    DecodeRecordsOfWhole(e, recs);
  }

  /** A file of well-formed records is accepted exactly when it holds 64 of them;
      with any other count the whole file is rejected. */
  lemma M80RoundTrip(recs: seq<DatRecord>)
    requires AllWellFormed(recs)
    ensures |recs| == BankSize ==> DecodeM80(EncodeM80(recs)) == Success(recs)
    ensures |recs| != BankSize ==> DecodeM80(EncodeM80(recs)) == Failure(WrongRecordCount(|recs|))
  {
    RecordsRoundTrip(recs);
  }

  /** The loop stops at the first record it cannot read in full. */
  lemma DecodeRecordsStopsAt(data: Bytes, pos: nat)
    requires pos < |data| && ReadRecord(data, pos).Failure?
    ensures DecodeRecords(data, pos) == Failure(Truncated)
  {
  }

  /** Decoding an input made of a run of encoded records and then a cut-off
      record fails: the complete records are read and the cut-off one is not. */
  lemma DecodeRecordsOfCutRun(data: Bytes, recs: seq<DatRecord>, last: DatRecord)
    requires RunAt(data, 0, recs)
    requires CutRecordAt(data, |EncodeM80(recs)|, last)
    ensures DecodeRecords(data, 0) == Failure(Truncated)
  {
    var end := |EncodeM80(recs)|;
    ReadRecordOfTruncated(data, end, last);
    DecodeRecordsStopsAt(data, end);
    ChainOfRun(data, 0, recs);
    DecodeRecordsOfChain(data, 0, recs, end);
  }

  /** The loop reads the records `recs` one after the other: record `i` is what
      the record reader accepts at cursor `ps[i]`, and the next read starts at
      `ps[i + 1]`. The last cursor is where these reads stop. Nothing is asked
      of the records' names or bytes. */
  ghost predicate ReadsAt(data: Bytes, ps: seq<nat>, recs: seq<DatRecord>) {
    && |ps| == |recs| + 1
    && ps[|recs|] <= |data|
    && forall i :: 0 <= i < |recs| ==> ps[i] < |data| && ReadRecord(data, ps[i]) == Success((recs[i], ps[i + 1]))
  }

  /** Decoding from any of those cursors yields the records read from there
      on, in file order, in front of whatever the input after the last cursor
      decodes to. */
  lemma {:induction false} DecodeRecordsOfReads(data: Bytes, ps: seq<nat>, recs: seq<DatRecord>, j: nat)
    requires ReadsAt(data, ps, recs) && j <= |recs|
    ensures ps[j] <= |data|
    ensures DecodeRecords(data, ps[j]) == Prepend(recs[j..], DecodeRecords(data, ps[|recs|]))
    decreases |recs| - j
  {
    if j == |recs| {
      assert recs[j..] == [];
      PrependNothing(DecodeRecords(data, ps[j]));
    } else {
      DecodeRecordsStep(data, ps[j], recs[j], ps[j + 1]);
      DecodeRecordsOfReads(data, ps, recs, j + 1);
      assert recs[j..][1..] == recs[j + 1..];
      PrependCons(recs[j..], DecodeRecords(data, ps[|recs|]));
    }
  }

  /** One record the loop cannot read in full rejects the whole file, however
      many records were read before it. */
  lemma BadRecordRejectsFile(data: Bytes, ps: seq<nat>, recs: seq<DatRecord>)
    requires ReadsAt(data, ps, recs) && ps[0] == 0
    requires ps[|recs|] < |data| && ReadRecord(data, ps[|recs|]).Failure?
    ensures DecodeM80(data) == Failure(Truncated)
  {
    DecodeRecordsStopsAt(data, ps[|recs|]);
    DecodeRecordsOfReads(data, ps, recs, 0);
    assert recs[0..] == recs;
  }

  /** A failure of the loop is a failure of the whole file, for the same reason. */
  lemma DecodeM80OfFailure(data: Bytes)
    requires DecodeRecords(data, 0).Failure?
    ensures DecodeM80(data) == Failure(DecodeRecords(data, 0).reason)
  {
  }

  /** Complete records followed by a non-empty proper prefix of one more record form a
      run followed by a cut-off record. */
  lemma CutRunOfParts(data: Bytes, recs: seq<DatRecord>, last: DatRecord, k: nat)
    requires AllWellFormed(recs) && WellFormedRecord(last)
    requires 0 < k < |EncodeRecord(last)|
    requires data == EncodeM80(recs) + EncodeRecord(last)[..k]
    ensures RunAt(data, 0, recs)
    ensures CutRecordAt(data, |EncodeM80(recs)|, last)
  {
    var e := EncodeM80(recs);
    assert data[0..|e|] == e;
    BytesAtSlice(data, 0, e);
    assert data[|e|..] == EncodeRecord(last)[..|data| - |e|];
  }

  /** A file that ends inside a record is rejected as a whole, however many
      complete records come before it. */
  lemma TruncatedRecordRejectsFile(recs: seq<DatRecord>, last: DatRecord, k: nat)
    requires AllWellFormed(recs) && WellFormedRecord(last)
    requires 0 < k < |EncodeRecord(last)|
    ensures DecodeM80(EncodeM80(recs) + EncodeRecord(last)[..k]) == Failure(Truncated)
  {
    var data := EncodeM80(recs) + EncodeRecord(last)[..k];
    CutRunOfParts(data, recs, last, k);
    DecodeRecordsOfCutRun(data, recs, last);
    DecodeM80OfFailure(data);
  }

  /** A complete 64-record file with its last byte cut off is rejected. */
  lemma DroppingLastByteRejectsFile(recs: seq<DatRecord>)
    requires AllWellFormed(recs) && |recs| == BankSize
    ensures var e := EncodeM80(recs);
            DecodeM80(e[..|e| - 1]) == Failure(Truncated)
  {
    var front := recs[..BankSize - 1];
    var last := recs[BankSize - 1];
    assert recs == front + [last];
    EncodeM80Append(front, last);
    var e := EncodeM80(recs);
    var r := EncodeRecord(last);
    var cut := e[..|e| - 1];
    assert cut == EncodeM80(front) + r[..|r| - 1];
    CutRunOfParts(cut, front, last, |r| - 1);
    DecodeRecordsOfCutRun(cut, front, last);
    DecodeM80OfFailure(cut);
  }
}
