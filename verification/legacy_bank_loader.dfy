/**
 The two entry points of the legacy bank loader. Each decodes its file format
 and, if the file is accepted, hands the 64 patch inputs and 64 tone inputs to
 the synth's converters; a rejected file yields no patches at all.

 The converters (`MKS80_Patch::patchesFromDat`, `MKS80_Patch::toneFromDat` and
 `MKS80::patchesFromAPRs`) are defined elsewhere in the synth and are taken
 here as arbitrary pure functions, so every result below holds whatever they
 compute.
 */
module LegacyBankLoader {
  import opened BankLayout
  import opened M80Bank
  import opened Mks80Bank

  /** The synth's converters: a patch from DAT data, a tone from DAT data, and
      the final patch list from the tones and patches, in that argument order. */
  datatype Converters<!P, !T, X> = Converters(
    patchesFromDat: Bytes -> P,
    toneFromDat: Bytes -> T,
    patchesFromAPRs: (seq<T>, seq<P>) -> seq<X>)

  /** `f` applied to each element, in order. */
  function Apply<A, B>(f: A -> B, s: seq<A>): (r: seq<B>)
    ensures |r| == |s|
    ensures forall i :: 0 <= i < |s| ==> r[i] == f(s[i])
  {
    seq(|s|, i requires 0 <= i < |s| => f(s[i]))
  }

  /** What the variable-length loader passes to the patch converter for each
      record: the patch block with the tone block appended to it. */
  function PatchInputs(recs: seq<DatRecord>): (ins: seq<Bytes>)
    ensures |ins| == |recs|
    ensures forall i :: 0 <= i < |recs| ==> ins[i] == recs[i].patchData + recs[i].toneData
  {
    seq(|recs|, i requires 0 <= i < |recs| => recs[i].patchData + recs[i].toneData)
  }

  /** What it passes to the tone converter: the tone block alone. */
  function ToneInputs(recs: seq<DatRecord>): (ins: seq<Bytes>)
    ensures |ins| == |recs|
    ensures forall i :: 0 <= i < |recs| ==> ins[i] == recs[i].toneData
  {
    seq(|recs|, i requires 0 <= i < |recs| => recs[i].toneData)
  }

  /** Loads a variable-length M80 bank. The records' names are read but
      play no part in the result. */
  function LoadM80File<P, T, X>(conv: Converters<P, T, X>, fileContent: Bytes): (patches: seq<X>)
    ensures DecodeM80(fileContent).Failure? ==> |patches| == 0
    ensures |patches| != 0 ==> DecodeM80(fileContent).Success? && |DecodeM80(fileContent).value| == BankSize
  {
    match DecodeM80(fileContent)
    case Failure(_) => []
    case Success(recs) =>
      conv.patchesFromAPRs(Apply(conv.toneFromDat, ToneInputs(recs)),
                           Apply(conv.patchesFromDat, PatchInputs(recs)))
  }

  /** Loads a fixed-length bank: anything but 0xF80 bytes yields nothing;
      otherwise row `i` (bytes 62*i to 62*i+62) goes, whole, to both the patch
      and the tone converter. */
  function LoadMKS80File<P, T, X>(conv: Converters<P, T, X>, fileContent: Bytes): (patches: seq<X>)
    ensures |fileContent| != Mks80FileSize ==> |patches| == 0
    ensures |fileContent| == Mks80FileSize ==>
              var rows := RowsOf(fileContent);
              patches == conv.patchesFromAPRs(Apply(conv.toneFromDat, rows), Apply(conv.patchesFromDat, rows))
  {
    match DecodeMKS80(fileContent)
    case Failure(_) => []
    case Success(rows) =>
      conv.patchesFromAPRs(Apply(conv.toneFromDat, rows), Apply(conv.patchesFromDat, rows))
  }

  /** Whatever an accepted file decodes to is what reaches the converters. */
  lemma LoadM80FileOfDecoded<P, T, X>(conv: Converters<P, T, X>, data: Bytes, recs: seq<DatRecord>)
    requires DecodeM80(data) == Success(recs)
    ensures LoadM80File(conv, data) ==
              conv.patchesFromAPRs(Apply(conv.toneFromDat, ToneInputs(recs)),
                                   Apply(conv.patchesFromDat, PatchInputs(recs)))
  {
  }

  /** A well-formed bank of 64 records loads as the converters applied to its
      records in file order: record `i`'s tone block goes to the tone converter,
      and its patch block followed by its tone block to the patch converter. */
  lemma LoadM80FileOfBank<P, T, X>(conv: Converters<P, T, X>, recs: seq<DatRecord>)
    requires AllWellFormed(recs) && |recs| == BankSize
    ensures var tones := seq(BankSize, i requires 0 <= i < BankSize => conv.toneFromDat(recs[i].toneData));
            var pats := seq(BankSize, i requires 0 <= i < BankSize => conv.patchesFromDat(recs[i].patchData + recs[i].toneData));
            LoadM80File(conv, EncodeM80(recs)) == conv.patchesFromAPRs(tones, pats)
  {
    var data := EncodeM80(recs);
    M80RoundTrip(recs);
    LoadM80FileOfDecoded(conv, data, recs);
    var tones := seq(BankSize, i requires 0 <= i < BankSize => conv.toneFromDat(recs[i].toneData));
    var pats := seq(BankSize, i requires 0 <= i < BankSize => conv.patchesFromDat(recs[i].patchData + recs[i].toneData));
    assert Apply(conv.toneFromDat, ToneInputs(recs)) == tones;
    assert Apply(conv.patchesFromDat, PatchInputs(recs)) == pats;
  }

  /** A bank of well-formed records that does not hold exactly 64 of them
      loads as nothing. */
  lemma LoadM80FileOfWrongCount<P, T, X>(conv: Converters<P, T, X>, recs: seq<DatRecord>)
    requires AllWellFormed(recs) && |recs| != BankSize
    ensures |LoadM80File(conv, EncodeM80(recs))| == 0
  {
    M80RoundTrip(recs);
  }

  /** A bank whose last record is cut short loads as nothing, however many
      complete records precede it. */
  lemma LoadM80FileOfTruncated<P, T, X>(conv: Converters<P, T, X>, recs: seq<DatRecord>, last: DatRecord, k: nat)
    requires AllWellFormed(recs) && WellFormedRecord(last)
    requires 0 < k < |EncodeRecord(last)|
    ensures |LoadM80File(conv, EncodeM80(recs) + EncodeRecord(last)[..k])| == 0
  {
    TruncatedRecordRejectsFile(recs, last, k);
  }

  /** 64 rows of 62 bytes, written out as a fixed-length file, load as the
      converters applied to each row. */
  lemma LoadMKS80FileOfRows<P, T, X>(conv: Converters<P, T, X>, rows: seq<Bytes>)
    requires WellSizedRows(rows) && |rows| == BankSize
    ensures LoadMKS80File(conv, FlattenRows(rows)) ==
              conv.patchesFromAPRs(Apply(conv.toneFromDat, rows), Apply(conv.patchesFromDat, rows))
  {
    Mks80RoundTrip(rows);
  }
}
