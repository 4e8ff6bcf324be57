/**
 The two cursor-based readers of the legacy bank loader. A cursor is an index
 `pos <= |data|` into the file contents; `pos == |data|` is the end iterator.
 Each reader returns what it read together with the advanced cursor.
 */
module ByteCursor {
  import opened BankLayout

  /** `j` is where the run of control bytes (<= 0x20) that starts at `from` ends:
      every byte in [from, j) is a control byte and the byte at `j`, if any, is not. */
  ghost predicate ControlRunEnd(data: Bytes, from: nat, j: nat) {
    && from <= j <= |data|
    && (forall k :: from <= k < j ==> data[k] <= ControlMax)
    && (j < |data| ==> data[j] > ControlMax)
  }

  /** A run of control bytes has exactly one end. */
  lemma ControlRunEndUnique(data: Bytes, from: nat, j1: nat, j2: nat)
    requires ControlRunEnd(data, from, j1) && ControlRunEnd(data, from, j2)
    ensures j1 == j2
  {
  }

  /** The skip loop after the length byte: while the cursor is not at the end and
      the byte under it is <= 0x20, that byte is consumed AND becomes the new
      length. Returns the cursor after the run and the length left standing.
      This reproduces the loader as written: the length that survives is the
      last control byte of the run, not the first byte of the string. */
  function SkipControlBytes(data: Bytes, pos: nat, len: nat): (r: (nat, nat))
    requires pos <= |data|
    ensures ControlRunEnd(data, pos, r.0)
    ensures r.0 == pos ==> r.1 == len
    ensures r.0 > pos ==> r.1 == data[r.0 - 1]
    decreases |data| - pos
  {
    if pos < |data| && data[pos] <= ControlMax then
      SkipControlBytes(data, pos + 1, data[pos])
    else
      (pos, len)
  }

  /** The copy loop: append bytes to `name` while it is shorter than `len` and
      input remains. */
  function ReadNameBytes(data: Bytes, pos: nat, len: nat, name: Bytes): (r: (Bytes, nat))
    requires pos <= |data|
    requires |name| <= len
    ensures pos <= r.1 <= |data|
    ensures r.1 - pos == Min(len - |name|, |data| - pos)
    ensures r.0 == name + data[pos..r.1]
    decreases |data| - pos
  {
    if |name| < len && pos < |data| then
      ReadNameBytes(data, pos + 1, len, name + [data[pos]])
    else
      (name, pos)
  }

  /** `name` and `next` are what reading a length-prefixed name at `pos` must give:
      the name starts where the control run after the first byte ends, its length
      is the smaller of the effective length (the byte just before the name) and
      the bytes remaining, and the cursor stops right after it. */
  ghost predicate PascalNameAt(data: Bytes, pos: nat, name: Bytes, next: nat) {
    var start := next - |name|;
    && pos < start <= next <= |data|
    && ControlRunEnd(data, pos + 1, start)
    && |name| == Min(data[start - 1], |data| - start)
    && name == data[start..next]
  }

  /** The length the name is read with: the first byte, or the last byte of the
      run of control bytes that follows it. */
  function EffectiveLength(data: Bytes, pos: nat): (len: uint8)
    requires pos < |data|
    ensures forall j {:trigger ControlRunEnd(data, pos + 1, j)} :: ControlRunEnd(data, pos + 1, j) ==> len == data[j - 1]
  {
    var (start, len) := SkipControlBytes(data, pos + 1, data[pos]);
    len
  }

  /** Reads a length-prefixed name; at the end of input reads nothing. */
  function ReadPascalString(data: Bytes, pos: nat): (r: (Bytes, nat))
    requires pos <= |data|
    ensures pos == |data| ==> r == ([], pos)
    ensures pos < |data| ==> pos < r.1 <= |data|
  {
    if pos == |data| then
      ([], pos)
    else
      var (start, len) := SkipControlBytes(data, pos + 1, data[pos]);
      ReadNameBytes(data, start, len, [])
  }

  /** What reading a name at `pos` gives, when input remains: the name lies
      right after the control run that follows the length byte, it is no longer
      than the effective length, and it is cut short only by the end of input.
      Kept apart from the reader so that decoders built on it do not carry it. */
  lemma ReadPascalStringMeaning(data: Bytes, pos: nat)
    requires pos < |data|
    ensures |ReadPascalString(data, pos).0| <= EffectiveLength(data, pos)
    ensures PascalNameAt(data, pos, ReadPascalString(data, pos).0, ReadPascalString(data, pos).1)
  {
  }

  /** The empty name, written as a zero length byte, reads back unchanged when
      the next byte is not a control byte, although it is not well formed. */
  lemma EmptyNameReadsBack(data: Bytes, pos: nat)
    requires pos + 1 < |data| && data[pos] == 0 && data[pos + 1] > ControlMax
    ensures ReadPascalString(data, pos) == ([], pos + 1)
  {
  }

  /** Reads exactly `size` bytes if that many remain, and otherwise nothing.
      The loader's test is `distance > sizeToRead - 1`. */
  function ReadBinaryBlock(data: Bytes, pos: nat, size: nat): (r: (Bytes, nat))
    requires pos <= |data|
    ensures |r.0| == size || r.0 == []
    ensures pos + size <= |data| <==> |r.0| == size
    ensures |r.0| == size ==> r.0 == data[pos..pos + size] && r.1 == pos + size
    ensures pos + size > |data| ==> r.1 == pos
  {
    if |data| - pos > size - 1 then
      (data[pos..pos + size], pos + size)
    else
      ([], pos)
  }

  /** A block that is present in the input is read back unchanged. */
  lemma ReadBinaryBlockOfSlice(data: Bytes, pos: nat, block: Bytes)
    requires pos + |block| <= |data|
    requires data[pos..pos + |block|] == block
    ensures ReadBinaryBlock(data, pos, |block|) == (block, pos + |block|)
  {
  }

  /** A non-empty name whose length fits in a byte and whose first byte is not
      a control byte: such a name survives the skip loop unchanged whatever
      follows it. Other names are not covered here. */
  predicate WellFormedName(name: Bytes) {
    0 < |name| < 0x100 && name[0] > ControlMax
  }

  /** The length-prefixed form of a name: its length byte, then its bytes. */
  function EncodeName(name: Bytes): (e: Bytes)
    requires WellFormedName(name)
    ensures |e| == |name| + 1
  {
    [|name|] + name
  }

  /** Reading where a (possibly cut-off) encoded well-formed name lies: the
      cursor moves over the encoded name, or to the end of the input if the
      input ends inside it, and a complete name is read back unchanged. */
  lemma ReadPascalStringOfEncoding(data: Bytes, pos: nat, name: Bytes)
    requires WellFormedName(name)
    requires pos < |data|
    requires var stop := Min(|data|, pos + |name| + 1);
             data[pos..stop] == EncodeName(name)[..stop - pos]
    ensures ReadPascalString(data, pos).1 == Min(|data|, pos + |name| + 1)
    ensures pos + |name| + 1 <= |data| ==> ReadPascalString(data, pos).0 == name
  {
    var stop := Min(|data|, pos + |name| + 1);
    var r := ReadPascalString(data, pos);
    ReadPascalStringMeaning(data, pos);
    var start := r.1 - |r.0|;
    assert data[pos] == |name| by {
      assert data[pos..stop][0] == EncodeName(name)[..stop - pos][0];
    }
    if pos + 1 < |data| {
      assert data[pos + 1] == name[0] by {
        assert data[pos..stop][1] == EncodeName(name)[..stop - pos][1];
      }
      ControlRunEndUnique(data, pos + 1, start, pos + 1);
    } else {
      ControlRunEndUnique(data, pos + 1, start, pos + 1);
    }
    assert start == pos + 1;
    if pos + |name| + 1 <= |data| {
      assert r.0 == data[pos + 1..pos + 1 + |name|];
      assert data[pos + 1..pos + 1 + |name|] == data[pos..stop][1..];
    }
  }

  /** The length-overwriting quirk on a concrete input: the name is announced
      as 2 bytes long, but the space that begins it is taken as a control byte,
      so the length becomes 0x20 and the name loses its space and runs on to
      the end of the input. */
  lemma LeadingSpaceOverwritesLength()
    ensures ReadPascalString([0x02, 0x20, 0x41, 0x42, 0x43], 0) == ([0x41, 0x42, 0x43], 5)
  {
    var data: Bytes := [0x02, 0x20, 0x41, 0x42, 0x43];
    var r := ReadPascalString(data, 0);
    ReadPascalStringMeaning(data, 0);
    var start := r.1 - |r.0|;
    assert ControlRunEnd(data, 1, 2);
    ControlRunEndUnique(data, 1, start, 2);
    assert r.0 == data[2..5] == [0x41, 0x42, 0x43];
  }
}
