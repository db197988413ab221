/** Writing the records that the Windows enumeration buffer holds: the
    layout getUefiVariableFromByteStream expects, written out so that the
    decoder can be stated as its inverse, one record and a whole chain at a
    time. */
module WindowsRecords {
  import opened Binary
  import opened Generic
  import opened Windows

  /** The UTF-16LE bytes of a sequence of code units. */
  function NameBytes(units: seq<CodeUnit>): (r: seq<Byte>)
    ensures |r| == 2 * |units|
  {
    seq(2 * |units|, j requires 0 <= j < 2 * |units| =>
      if j % 2 == 0 then units[j / 2] % 0x100 else units[j / 2] / 0x100)
  }

  /** Whether v fits a record whose header fields are 32-bit and whose name
      survives decoding: non-empty and not ending in a NUL. */
  predicate Encodable(v: Variable) {
    && |v.name| >= 1 && v.name[|v.name| - 1] != 0
    && RecordSize(v) < 0x1_0000_0000
    && v.attributes < 0x1_0000_0000
  }

  /** Bytes taken by the record of v. */
  function RecordSize(v: Variable): nat {
    HeaderSize + 2 * (|v.name| + 1) + |v.value|
  }

  /** The record of v: header, GUID in the in-memory layout, the name with
      its NUL terminator, then the value. */
  function EncodeRecord(v: Variable, next: nat): (r: seq<Byte>)
    requires Encodable(v) && next < 0x1_0000_0000
    ensures |r| == RecordSize(v)
  {
    PutLittleEndian(next, 4)
    + PutLittleEndian(HeaderSize + 2 * (|v.name| + 1), 4)
    + PutLittleEndian(|v.value|, 4)
    + PutLittleEndian(v.attributes, 4)
    + GuidFromBytes(v.guid)
    + NameBytes(v.name) + [0, 0]
    + v.value
  }

  /** The name bytes with their terminator decode to the name. */
  lemma NameUnitsOfNameBytes(units: seq<CodeUnit>)
    ensures NameUnits(NameBytes(units) + [0, 0], |units|) == units
  {
    var buf := NameBytes(units) + [0, 0];
    forall i | 0 <= i < |units|
      ensures NameUnits(buf, |units|)[i] == units[i]
    {
      assert (2 * i) % 2 == 0 && (2 * i) / 2 == i;
      assert (2 * i + 1) % 2 == 1 && (2 * i + 1) / 2 == i;
    }
  }

  /** Where the fields of the record of v lie, counted from its start. */
  predicate HoldsRecordAt(stream: seq<Byte>, o: nat, v: Variable, next: nat)
    requires Encodable(v) && next < 0x1_0000_0000
  {
    var valueOffset := HeaderSize + 2 * (|v.name| + 1);
    && o + RecordSize(v) <= |stream|
    && stream[o .. o + 4] == PutLittleEndian(next, 4)
    && stream[o + 4 .. o + 8] == PutLittleEndian(valueOffset, 4)
    && stream[o + 8 .. o + 12] == PutLittleEndian(|v.value|, 4)
    && stream[o + 12 .. o + 16] == PutLittleEndian(v.attributes, 4)
    && stream[o + 16 .. o + 32] == GuidFromBytes(v.guid)
    && stream[o + 32 .. o + valueOffset] == NameBytes(v.name) + [0, 0]
    && stream[o + valueOffset .. o + RecordSize(v)] == v.value
  }

  /** Where the fields lie in the record of v, counted from its start. */
  lemma EncodeRecordParts(v: Variable, next: nat)
    requires Encodable(v) && next < 0x1_0000_0000
    ensures var rec := EncodeRecord(v, next);
      var valueOffset := HeaderSize + 2 * (|v.name| + 1);
      && rec[0..4] == PutLittleEndian(next, 4)
      && rec[4..8] == PutLittleEndian(valueOffset, 4)
      && rec[8..12] == PutLittleEndian(|v.value|, 4)
      && rec[12..16] == PutLittleEndian(v.attributes, 4)
      && rec[16..32] == GuidFromBytes(v.guid)
      && rec[32..valueOffset] == NameBytes(v.name) + [0, 0]
      && rec[valueOffset..RecordSize(v)] == v.value
  {
    var rec := EncodeRecord(v, next);
    var valueOffset := HeaderSize + 2 * (|v.name| + 1);
    var nameBytes := NameBytes(v.name) + [0, 0];
    assert rec == PutLittleEndian(next, 4) + PutLittleEndian(valueOffset, 4)
                  + PutLittleEndian(|v.value|, 4) + PutLittleEndian(v.attributes, 4)
                  + GuidFromBytes(v.guid) + nameBytes + v.value;
  }

  /** Bytes that hold a record's fields, held in a buffer at o, put those
      fields at o plus their offsets. */
  lemma FieldsOfRecordBytes(stream: seq<Byte>, o: nat, rec: seq<Byte>, valueOffset: nat,
                            f0: seq<Byte>, f4: seq<Byte>, f8: seq<Byte>, f12: seq<Byte>,
                            guid: seq<Byte>, name: seq<Byte>, value: seq<Byte>)
    requires o + |rec| <= |stream| && stream[o .. o + |rec|] == rec
    requires 32 <= valueOffset <= |rec|
    requires rec[0..4] == f0 && rec[4..8] == f4 && rec[8..12] == f8 && rec[12..16] == f12
    requires rec[16..32] == guid && rec[32..valueOffset] == name && rec[valueOffset..|rec|] == value
    ensures stream[o .. o + 4] == f0 && stream[o + 4 .. o + 8] == f4
    ensures stream[o + 8 .. o + 12] == f8 && stream[o + 12 .. o + 16] == f12
    ensures stream[o + 16 .. o + 32] == guid && stream[o + 32 .. o + valueOffset] == name
    ensures stream[o + valueOffset .. o + |rec|] == value
  {
    var n := |rec|;
    SliceOfSlice(stream, o, n, 0, 4);
    SliceOfSlice(stream, o, n, 4, 8);
    SliceOfSlice(stream, o, n, 8, 12);
    SliceOfSlice(stream, o, n, 12, 16);
    SliceOfSlice(stream, o, n, 16, 32);
    SliceOfSlice(stream, o, n, 32, valueOffset);
    SliceOfSlice(stream, o, n, valueOffset, n);
  }

  /** A buffer holding the record of v at o holds its fields at the
      expected places. */
  lemma EncodedRecordFields(stream: seq<Byte>, o: nat, v: Variable, next: nat)
    requires Encodable(v) && next < 0x1_0000_0000
    requires o + RecordSize(v) <= |stream|
    requires stream[o .. o + RecordSize(v)] == EncodeRecord(v, next)
    ensures HoldsRecordAt(stream, o, v, next)
  {
    var valueOffset := HeaderSize + 2 * (|v.name| + 1);
    EncodeRecordParts(v, next);
    FieldsOfRecordBytes(stream, o, EncodeRecord(v, next), valueOffset,
                        PutLittleEndian(next, 4), PutLittleEndian(valueOffset, 4),
                        PutLittleEndian(|v.value|, 4), PutLittleEndian(v.attributes, 4),
                        GuidFromBytes(v.guid), NameBytes(v.name) + [0, 0], v.value);
  }

  /** Decoding a record whose header fields, GUID, name and value are the
      ones the encoder writes for v. */
  lemma ParseRecordAt(stream: seq<Byte>, o: nat, v: Variable, next: nat)
    requires Encodable(v) && next < 0x1_0000_0000
    requires o + RecordSize(v) <= |stream|
    requires GetULong(stream, o) == next
    requires GetULong(stream, o + 4) == HeaderSize + 2 * (|v.name| + 1)
    requires GetULong(stream, o + 8) == |v.value|
    requires GetULong(stream, o + 12) == v.attributes
    requires GuidFromBytes(stream[o + 16 .. o + 32]) == v.guid
    requires DecodeName(stream[o + HeaderSize .. o + HeaderSize + 2 * (|v.name| + 1)]) == v.name
    requires stream[o + HeaderSize + 2 * (|v.name| + 1) .. o + RecordSize(v)] == v.value
    ensures ParseRecord(stream, o) == Ok(Parsed(v, if next == 0 then 0 else o + next))
  {
    assert RecordInBounds(stream, o);
    ParseRecordFields(stream, o);
    var r := ParseRecord(stream, o);
    assert r.Ok?;
    var got := r.value.variable;
    assert got.value == v.value;
    assert got.name == v.name;
    assert got.guid == v.guid;
    assert got.attributes == v.attributes;
    assert got == v;
    assert r.value.next == if next == 0 then 0 else o + next;
  }

  /** A DWORD written little-endian reads back. */
  lemma HeaderFieldOf(stream: seq<Byte>, k: nat, x: nat)
    requires k + 4 <= |stream| && x < 0x1_0000_0000
    requires stream[k .. k + 4] == PutLittleEndian(x, 4)
    ensures GetULong(stream, k) == x
  {
    assert GetULong(stream, k) == LittleEndian(stream[k .. k + 4]);
  }

  /** A GUID written in the in-memory layout reads back. */
  lemma GuidFieldOf(stream: seq<Byte>, k: nat, g: Guid)
    requires k + 16 <= |stream|
    requires stream[k .. k + 16] == GuidFromBytes(g)
    ensures GuidFromBytes(stream[k .. k + 16]) == g
  {
    GuidFromBytesInvolution(g);
  }

  /** A name written with its terminator reads back. */
  lemma NameFieldOf(nameBuff: seq<Byte>, name: seq<CodeUnit>)
    requires |name| >= 1 && name[|name| - 1] != 0
    requires nameBuff == NameBytes(name) + [0, 0]
    ensures DecodeName(nameBuff) == name
  {
    NameUnitsOfNameBytes(name);
    var units := NameUnits(nameBuff, |nameBuff| / 2 - 1);
    assert units == name;
    DecodeNameUnits(nameBuff);
  }

  /** The fields the decoder reads from a buffer that holds the record of
      v at o. */
  lemma FieldsOfHeldRecord(stream: seq<Byte>, o: nat, v: Variable, next: nat)
    requires Encodable(v) && next < 0x1_0000_0000
    requires HoldsRecordAt(stream, o, v, next)
    ensures GetULong(stream, o) == next
    ensures GetULong(stream, o + 4) == HeaderSize + 2 * (|v.name| + 1)
    ensures GetULong(stream, o + 8) == |v.value|
    ensures GetULong(stream, o + 12) == v.attributes
    ensures GuidFromBytes(stream[o + 16 .. o + 32]) == v.guid
    ensures DecodeName(stream[o + HeaderSize .. o + HeaderSize + 2 * (|v.name| + 1)]) == v.name
    ensures stream[o + HeaderSize + 2 * (|v.name| + 1) .. o + RecordSize(v)] == v.value
    ensures o + RecordSize(v) <= |stream|
  {
    HeaderFieldOf(stream, o, next);
    HeaderFieldOf(stream, o + 4, HeaderSize + 2 * (|v.name| + 1));
    HeaderFieldOf(stream, o + 8, |v.value|);
    HeaderFieldOf(stream, o + 12, v.attributes);
    GuidFieldOf(stream, o + 16, v.guid);
    NameFieldOf(stream[o + HeaderSize .. o + HeaderSize + 2 * (|v.name| + 1)], v.name);
  }

  /** Decoding a buffer that holds the record of v at o gives v back. */
  lemma ParseHeldRecord(stream: seq<Byte>, o: nat, v: Variable, next: nat)
    requires Encodable(v) && next < 0x1_0000_0000
    requires HoldsRecordAt(stream, o, v, next)
    ensures ParseRecord(stream, o) == Ok(Parsed(v, if next == 0 then 0 else o + next))
  {
    FieldsOfHeldRecord(stream, o, v, next);
    ParseRecordAt(stream, o, v, next);
  }

  /** Round trip of one record: decoding the record of v, wherever it sits
      in a buffer, gives v back, and the successor is the record's own
      NextOffset taken relative to its start. */
  lemma ParseEncodedRecord(stream: seq<Byte>, o: nat, v: Variable, next: nat)
    requires Encodable(v) && next < 0x1_0000_0000
    requires o + RecordSize(v) <= |stream|
    requires stream[o .. o + RecordSize(v)] == EncodeRecord(v, next)
    ensures ParseRecord(stream, o) == Ok(Parsed(v, if next == 0 then 0 else o + next))
  {
    EncodedRecordFields(stream, o, v, next);
    ParseHeldRecord(stream, o, v, next);
  }

  /** Whether every variable of vs can be written as a record. */
  predicate AllEncodable(vs: seq<Variable>) {
    forall i :: 0 <= i < |vs| ==> Encodable(vs[i])
  }

  /** An enumeration buffer holding the records of vs back to back, each
      NextOffset pointing just past its own record and the last one 0. */
  function EncodeBuffer(vs: seq<Variable>): (r: seq<Byte>)
    requires |vs| >= 1 && AllEncodable(vs)
  {
    if |vs| == 1 then EncodeRecord(vs[0], 0)
    else EncodeRecord(vs[0], RecordSize(vs[0])) + EncodeBuffer(vs[1..])
  }

  /** One step of the walk: a record with a successor, then the rest. */
  lemma WalkStep(stream: seq<Byte>, o: nat, v: Variable, next: nat, rest: seq<Variable>)
    requires next != 0
    requires ParseRecord(stream, o) == Ok(Parsed(v, next))
    requires Walk(stream, next) == Ok(rest)
    ensures Walk(stream, o) == Ok([v] + rest)
  {
    WalkUnfold(stream, o);
  }

  /** The two halves of a concatenation. */
  lemma Halves(x: seq<Byte>, y: seq<Byte>)
    ensures (x + y)[0..|x|] == x && (x + y)[|x|..] == y
  {
  }

  /** A non-empty list is its first element followed by the rest. */
  lemma FirstAndRest(vs: seq<Variable>)
    requires |vs| >= 1
    ensures [vs[0]] + vs[1..] == vs
  {
  }

  /** The tail of a list of encodable variables is encodable. */
  lemma AllEncodableTail(vs: seq<Variable>)
    requires |vs| >= 1 && AllEncodable(vs)
    ensures AllEncodable(vs[1..])
  {
    forall i | 0 <= i < |vs| - 1 ensures Encodable(vs[1..][i]) {
      assert vs[1..][i] == vs[i + 1];
    }
  }

  /** A buffer holding one final record is walked to that variable. */
  lemma WalkOfSingleRecord(v: Variable)
    requires Encodable(v)
    ensures Walk(EncodeRecord(v, 0), 0) == Ok([v])
  {
    var buf := EncodeRecord(v, 0);
    assert buf[0..|buf|] == buf;
    ParseEncodedRecord(buf, 0, v, 0);
    WalkUnfold(buf, 0);
  }

  /** A buffer that starts with the record of v pointing just past itself
      decodes v there, and what follows the record is the rest. */
  lemma ParseLeadingRecord(v: Variable, tail: seq<Byte>)
    requires Encodable(v)
    ensures var buf := EncodeRecord(v, RecordSize(v)) + tail;
      && RecordSize(v) <= |buf|
      && ParseRecord(buf, 0) == Ok(Parsed(v, RecordSize(v)))
      && buf[RecordSize(v)..] == tail
  {
    var rec := EncodeRecord(v, RecordSize(v));
    Halves(rec, tail);
    ParseEncodedRecord(rec + tail, 0, v, RecordSize(v));
  }

  /** Walking from offset k is walking the buffer cut at k. */
  lemma WalkFromCut(buf: seq<Byte>, k: nat)
    requires k <= |buf|
    ensures Walk(buf, k) == Walk(buf[k..], 0)
  {
    var tail := buf[k..];
    assert tail[0..] == tail;
    WalkOfSuffix(buf, k, tail, 0);
  }

  /** A buffer whose first record decodes to v and points at size, and
      whose remainder from size the walk decodes to rest, is walked to v
      and then rest. */
  lemma WalkOfLeadingRecord(buf: seq<Byte>, v: Variable, size: nat, rest: seq<Variable>)
    requires 0 < size <= |buf|
    requires ParseRecord(buf, 0) == Ok(Parsed(v, size))
    requires Walk(buf[size..], 0) == Ok(rest)
    ensures Walk(buf, 0) == Ok([v] + rest)
  {
    WalkFromCut(buf, size);
    WalkStep(buf, 0, v, size, rest);
  }

  /** A buffer of two or more records is the first record, pointing just
      past itself, followed by the buffer of the others. */
  lemma EncodeBufferCons(vs: seq<Variable>)
    requires |vs| >= 2 && AllEncodable(vs)
    ensures AllEncodable(vs[1..])
    ensures EncodeBuffer(vs) == EncodeRecord(vs[0], RecordSize(vs[0])) + EncodeBuffer(vs[1..])
  {
    AllEncodableTail(vs);
  }

  /** The record of v, pointing just past itself, in front of a buffer the
      walk decodes to rest makes a buffer the walk decodes to v and then
      rest. */
  lemma {:induction false} WalkOfPrefixedBuffer(v: Variable, tail: seq<Byte>, rest: seq<Variable>)
    requires Encodable(v) && Walk(tail, 0) == Ok(rest)
    ensures Walk(EncodeRecord(v, RecordSize(v)) + tail, 0) == Ok([v] + rest)
  {
    ParseLeadingRecord(v, tail);
    WalkOfLeadingRecord(EncodeRecord(v, RecordSize(v)) + tail, v, RecordSize(v), rest);
  }

  /** A record written in front of a buffer the walk decodes to the tail
      of vs makes a buffer the walk decodes to vs. */
  lemma {:induction false} WalkOfEncodedBufferStep(vs: seq<Variable>)
    requires |vs| >= 2 && AllEncodable(vs)
    requires Walk(EncodeBuffer(vs[1..]), 0) == Ok(vs[1..])
    ensures Walk(EncodeBuffer(vs), 0) == Ok(vs)
  {
    var rest := vs[1..];
    EncodeBufferCons(vs);
    WalkOfPrefixedBuffer(vs[0], EncodeBuffer(rest), rest);
    FirstAndRest(vs);
  }

  /** The walk over a buffer of back-to-back records yields the variables
      written, in order. */
  lemma {:induction false} WalkOfEncodedBuffer(vs: seq<Variable>)
    requires |vs| >= 1 && AllEncodable(vs)
    ensures Walk(EncodeBuffer(vs), 0) == Ok(vs)
    decreases |vs|
  {
    if |vs| == 1 {
      WalkOfSingleRecord(vs[0]);
      assert vs == [vs[0]];
    } else {
      AllEncodableTail(vs);
      WalkOfEncodedBuffer(vs[1..]);
      WalkOfEncodedBufferStep(vs);
    }
  }

  /** Round trip of the whole enumeration: GetAllVars decodes a buffer of
      back-to-back records into exactly the variables written. */
  lemma GetAllVarsOfEncodedBuffer(vs: seq<Variable>)
    requires |vs| >= 1 && AllEncodable(vs)
    ensures GetAllVars(EncodeBuffer(vs)) == Ok(vs)
  {
    WalkOfEncodedBuffer(vs);
  }
}
