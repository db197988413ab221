/** The Windows backend. NtEnumerateSystemEnvironmentValuesEx fills a buffer
    with a chain of variable records; this module decodes that buffer and
    converts GUIDs between the firmware's mixed-endian layout and RFC 4122
    order. The searches over the decoded list and the request passed to
    NtSetSystemEnvironmentValueEx are in WindowsAccess (windows_access.dfy),
    and the encoder the round trips use is in WindowsRecords. The system
    call itself is not modelled: the enumeration buffer is an input. */
module Windows {
  import opened Binary
  import opened Generic

  /** One UTF-16 code unit of a variable name. */
  type CodeUnit = u: int | 0 <= u < 0x1_0000

  /** A variable as GetAllVars returns it: vendor GUID and name, with the
      value and attribute word that the enumeration delivered alongside. */
  datatype Variable = Variable(guid: Guid, name: seq<CodeUnit>, value: seq<Byte>, attributes: nat)

  /** syscall.GUID: the EFI_GUID structure of Appendix A of the UEFI
      specification, Data1 a 32-bit, Data2 and Data3 16-bit integers and
      Data4 eight bytes. */
  datatype WindowsGuid = WindowsGuid(data1: nat, data2: nat, data3: nat, data4: seq<Byte>)

  /** Bytes taken by NextOffset, ValueOffset, ValueLength, Attributes and
      the GUID at the start of every record. */
  const HeaderSize: nat := 32

  // ---------------------------------------------------------------------
  // Integers and GUIDs

  /** getULong: the DWORD at offset, least significant byte first. */
  function GetULong(a: seq<Byte>, offset: nat): (r: nat)
    requires offset + 4 <= |a|
    ensures r < 0x1_0000_0000
  {
    var s := a[offset..offset + 4];
    assert |s| == 4 && Pow256(4) == 0x1_0000_0000;
    LittleEndian(s)
  }

  /** The DWORD at offset, byte by byte: a 32-bit value assembled from four
      shifted bytes. */
  lemma GetULongBytes(a: seq<Byte>, offset: nat)
    requires offset + 4 <= |a|
    ensures GetULong(a, offset) == a[offset] + 0x100 * a[offset + 1] as int
                                   + 0x1_0000 * a[offset + 2] as int + 0x100_0000 * a[offset + 3] as int
    ensures GetULong(a, offset) < 0x1_0000_0000
  {
    LittleEndian4(a[offset..offset + 4]);
  }

  /** getGUIDFromByteSlice: reorders the in-memory EFI_GUID layout (Data1,
      Data2, Data3 little-endian) into the big-endian RFC 4122 byte order. */
  function GuidFromBytes(data: seq<Byte>): (r: Guid)
    requires |data| == 16
  {
    [data[3], data[2], data[1], data[0], data[5], data[4], data[7], data[6]] + data[8..]
  }

  /** What the conversion means: each of the three integer fields, read
      little-endian from memory, is the same number read big-endian from
      the converted GUID, and the eight bytes of Data4 stay in place. */
  lemma GuidFromBytesFields(data: seq<Byte>)
    requires |data| == 16
    ensures var g := GuidFromBytes(data);
      && BigEndian(g[0..4]) == LittleEndian(data[0..4])
      && BigEndian(g[4..6]) == LittleEndian(data[4..6])
      && BigEndian(g[6..8]) == LittleEndian(data[6..8])
      && g[8..16] == data[8..16]
  {
    var g := GuidFromBytes(data);
    BigEndian4(g[0..4]);
    LittleEndian4(data[0..4]);
    BigEndian2(g[4..6]);
    LittleEndian2(data[4..6]);
    BigEndian2(g[6..8]);
    LittleEndian2(data[6..8]);
  }

  /** The conversion is its own inverse: the same permutation takes an
      RFC 4122 GUID back to the in-memory layout. */
  lemma GuidFromBytesInvolution(data: seq<Byte>)
    requires |data| == 16
    ensures GuidFromBytes(GuidFromBytes(data)) == data
  {
    var twice := GuidFromBytes(GuidFromBytes(data));
    assert twice[8..] == data[8..];
    forall i | 0 <= i < 16 ensures twice[i] == data[i] {
      if i >= 8 {
        assert twice[i] == twice[8..][i - 8];
      }
    }
  }

  /** The bytes of an EFI_GUID structure in memory (fields little-endian). */
  function NativeBytes(w: WindowsGuid): (r: seq<Byte>)
    requires w.data1 < 0x1_0000_0000 && w.data2 < 0x1_0000 && w.data3 < 0x1_0000 && |w.data4| == 8
    ensures |r| == 16
  {
    PutLittleEndian(w.data1, 4) + PutLittleEndian(w.data2, 2) + PutLittleEndian(w.data3, 2) + w.data4
  }

  /** getWindowsGUID: splits an RFC 4122 GUID into the EFI_GUID fields. Laid
      out in memory, the structure holds exactly the mixed-endian bytes that
      GuidFromBytes would turn back into g. */
  function GetWindowsGuid(g: Guid): (w: WindowsGuid)
    ensures w.data1 < 0x1_0000_0000 && w.data2 < 0x1_0000 && w.data3 < 0x1_0000 && |w.data4| == 8
    ensures GuidFromBytes(NativeBytes(w)) == g
  {
    var w := WindowsGuid(BigEndian(g[0..4]), BigEndian(g[4..6]), BigEndian(g[6..8]), g[8..16]);
    NativeBytesOfSplit(g);
    w
  }

  /** The fields getWindowsGUID splits g into, laid out in memory, are g
      with its three integer fields reversed. */
  lemma NativeBytesOfSplit(g: Guid)
    ensures var w := WindowsGuid(BigEndian(g[0..4]), BigEndian(g[4..6]), BigEndian(g[6..8]), g[8..16]);
      && w.data1 < 0x1_0000_0000 && w.data2 < 0x1_0000 && w.data3 < 0x1_0000
      && GuidFromBytes(NativeBytes(w)) == g
  {
    var w := WindowsGuid(BigEndian(g[0..4]), BigEndian(g[4..6]), BigEndian(g[6..8]), g[8..16]);
    assert Pow256(4) == 0x1_0000_0000 && Pow256(2) == 0x1_0000;
    PutLittleEndianOfBigEndian(g[0..4]);
    PutLittleEndianOfBigEndian(g[4..6]);
    PutLittleEndianOfBigEndian(g[6..8]);
    var native := Reverse(g[0..4]) + Reverse(g[4..6]) + Reverse(g[6..8]) + g[8..16];
    assert NativeBytes(w) == native;
    var back := GuidFromBytes(native);
    assert back[8..] == g[8..];
    forall i | 0 <= i < 16 ensures back[i] == g[i] {
      if i >= 8 {
        assert back[i] == back[8..][i - 8];
      }
    }
  }

  /** Round trip back to the native layout: the fields recovered from a
      converted GUID are the little-endian reads of the original bytes. */
  lemma WindowsGuidOfConverted(raw: seq<Byte>)
    requires |raw| == 16
    ensures GetWindowsGuid(GuidFromBytes(raw))
         == WindowsGuid(GetULong(raw, 0), raw[4] + 0x100 * raw[5] as int,
                        raw[6] + 0x100 * raw[7] as int, raw[8..16])
    ensures NativeBytes(GetWindowsGuid(GuidFromBytes(raw))) == raw
  {
    var g := GuidFromBytes(raw);
    var w := GetWindowsGuid(g);
    BigEndian4(g[0..4]);
    BigEndian2(g[4..6]);
    BigEndian2(g[6..8]);
    GetULongBytes(raw, 0);
    assert g[8..16] == raw[8..16];
    GuidFromBytesInvolution(NativeBytes(w));
    GuidFromBytesInvolution(raw);
  }

  // ---------------------------------------------------------------------
  // Decoding one record

  /** The first count UTF-16LE code units of buf. */
  function NameUnits(buf: seq<Byte>, count: nat): (r: seq<CodeUnit>)
    requires 2 * count <= |buf|
  {
    seq(count, i requires 0 <= i < count => buf[2 * i] + 0x100 * buf[2 * i + 1] as int)
  }

  /** The name held in a record's name buffer. The last code unit is the
      terminator and is not decoded; some names carry a second terminator,
      which is stripped as well. */
  function DecodeName(nameBuff: seq<Byte>): (name: seq<CodeUnit>)
    requires |nameBuff| >= 4
  {
    var units := NameUnits(nameBuff, |nameBuff| / 2 - 1);
    if units[|units| - 1] == 0 then units[..|units| - 1] else units
  }

  /** The decoded name is the code units before the terminator, less one
      trailing NUL exactly when there is one: it is a prefix of those
      units, one shorter when they end in 0 and all of them otherwise. */
  lemma DecodeNameUnits(nameBuff: seq<Byte>)
    requires |nameBuff| >= 4
    ensures var units := NameUnits(nameBuff, |nameBuff| / 2 - 1);
      var name := DecodeName(nameBuff);
      && |units| >= 1
      && |name| <= |units| && name == units[..|name|]
      && (|name| == |units| - 1 <==> units[|units| - 1] == 0)
      && (|name| == |units| <==> units[|units| - 1] != 0)
      && forall i :: 0 <= i < |name| ==> name[i] == nameBuff[2 * i] + 0x100 * nameBuff[2 * i + 1] as int
  {
  }

  /** One decoded record: the variable and the offset of the next record,
      0 when this record is the last. */
  datatype Parsed = Parsed(variable: Variable, next: nat)

  /** The header of the record at offset lies in the buffer, its name
      buffer holds at least two code units (the name and its terminator),
      and its value lies in the buffer. */
  predicate RecordInBounds(stream: seq<Byte>, offset: nat) {
    && offset + HeaderSize <= |stream|
    && HeaderSize + 4 <= GetULong(stream, offset + 4)
    && offset + GetULong(stream, offset + 4) + GetULong(stream, offset + 8) <= |stream|
  }

  /** getUefiVariableFromByteStream: decodes the record at offset. Every
      out-of-range slice or index of the source is an IndexOutOfRange. */
  function ParseRecord(stream: seq<Byte>, offset: nat): (r: Result<Parsed>)
  {
    if offset + 12 > |stream| then Err(IndexOutOfRange)
    else
      var nextOffset := GetULong(stream, offset);
      var valueOffset := GetULong(stream, offset + 4);
      var valueLength := GetULong(stream, offset + 8);
      if offset + valueOffset + valueLength > |stream| then Err(IndexOutOfRange)
      else if offset + HeaderSize > |stream| then Err(IndexOutOfRange)
      else if valueOffset < HeaderSize then Err(IndexOutOfRange)
      else
        var nameBuff := stream[offset + HeaderSize .. offset + valueOffset];
        // fewer than two code units: make() gets length -1, or the empty
        // name is indexed at -1
        if |nameBuff| / 2 < 2 then Err(IndexOutOfRange)
        else
          var name := DecodeName(nameBuff);
          var v := Variable(GuidFromBytes(stream[offset + 16 .. offset + 32]), name,
                            stream[offset + valueOffset .. offset + valueOffset + valueLength],
                            GetULong(stream, offset + 12));
          Ok(Parsed(v, if nextOffset == 0 then 0 else nextOffset + offset))
  }

  /** What decoding a record yields: it fails, always as an index out of
      range, exactly when the record is not in bounds; otherwise the value
      is the ValueLength bytes at ValueOffset from the record's start, the
      attributes are the fourth DWORD, the GUID is the converted 16 bytes
      at 16, the name is decoded from the bytes between the header and the
      value, and the successor is 0 or strictly further on. */
  lemma ParseRecordFields(stream: seq<Byte>, offset: nat)
    ensures ParseRecord(stream, offset).Ok? <==> RecordInBounds(stream, offset)
    ensures ParseRecord(stream, offset).Err? ==> ParseRecord(stream, offset).error == IndexOutOfRange
    ensures RecordInBounds(stream, offset) ==>
      var valueOffset := GetULong(stream, offset + 4);
      var valueLength := GetULong(stream, offset + 8);
      var p := ParseRecord(stream, offset).value;
      && p.variable.value == stream[offset + valueOffset .. offset + valueOffset + valueLength]
      && p.variable.attributes == GetULong(stream, offset + 12)
      && p.variable.guid == GuidFromBytes(stream[offset + 16 .. offset + 32])
      && p.variable.name == DecodeName(stream[offset + HeaderSize .. offset + valueOffset])
      && (p.next == 0 <==> GetULong(stream, offset) == 0)
      && (p.next != 0 ==> p.next == offset + GetULong(stream, offset) && p.next > offset)
  {
  }

  /** Decoding reads nothing before the record: two buffers that agree from
      the record on decode it alike, successors at the same distance. */
  lemma ParseRecordOfSuffix(a: seq<Byte>, x: nat, b: seq<Byte>, y: nat)
    requires x <= |a| && y <= |b| && a[x..] == b[y..]
    ensures ParseRecord(a, x).Ok? <==> ParseRecord(b, y).Ok?
    ensures ParseRecord(a, x).Ok? ==>
      && ParseRecord(a, x).value.variable == ParseRecord(b, y).value.variable
      && (ParseRecord(a, x).value.next == 0 <==> ParseRecord(b, y).value.next == 0)
      && (ParseRecord(a, x).value.next != 0 ==>
            ParseRecord(a, x).value.next - x == ParseRecord(b, y).value.next - y)
  {
    assert |a| - x == |b| - y by { assert |a[x..]| == |b[y..]|; }
    if x + HeaderSize <= |a| {
      GetULongOfSuffix(a, x, b, y, 0);
      GetULongOfSuffix(a, x, b, y, 4);
      GetULongOfSuffix(a, x, b, y, 8);
      GetULongOfSuffix(a, x, b, y, 12);
      SliceOfSuffix(a, x, b, y, 16, 32);
      if RecordInBounds(a, x) {
        var vo := GetULong(a, x + 4);
        var vl := GetULong(a, x + 8);
        SliceOfSuffix(a, x, b, y, HeaderSize, vo);
        SliceOfSuffix(a, x, b, y, vo, vo + vl);
      }
    }
    ParseRecordOfSameFields(a, x, b, y);
  }

  /** Two buffers that agree from x and from y on agree on every slice
      taken at the same distance. */
  lemma SliceOfSuffix(a: seq<Byte>, x: nat, b: seq<Byte>, y: nat, i: nat, j: nat)
    requires x <= |a| && y <= |b| && a[x..] == b[y..]
    requires i <= j <= |a| - x
    ensures a[x + i .. x + j] == b[y + i .. y + j]
  {
    SliceOfSlice(a, x, |a| - x, i, j);
    SliceOfSlice(b, y, |b| - y, i, j);
    assert a[x .. x + (|a| - x)] == a[x..];
    assert b[y .. y + (|b| - y)] == b[y..];
  }

  /** A slice of a slice is a slice of the whole. */
  lemma SliceOfSlice(stream: seq<Byte>, o: nat, n: nat, i: nat, j: nat)
    requires o + n <= |stream| && i <= j <= n
    ensures stream[o .. o + n][i..j] == stream[o + i .. o + j]
  {
    var inner := stream[o .. o + n][i..j];
    var whole := stream[o + i .. o + j];
    forall k | 0 <= k < j - i ensures inner[k] == whole[k] {
      assert inner[k] == stream[o + i + k];
    }
  }

  /** The header field at distance k is the same in both buffers. */
  lemma GetULongOfSuffix(a: seq<Byte>, x: nat, b: seq<Byte>, y: nat, k: nat)
    requires x <= |a| && y <= |b| && a[x..] == b[y..]
    requires x + k + 4 <= |a|
    ensures y + k + 4 <= |b|
    ensures GetULong(a, x + k) == GetULong(b, y + k)
  {
    assert |a| - x == |b| - y by { assert |a[x..]| == |b[y..]|; }
    SliceOfSuffix(a, x, b, y, k, k + 4);
  }

  /** Records whose header, GUID, name and value bytes agree decode alike. */
  lemma ParseRecordOfSameFields(a: seq<Byte>, x: nat, b: seq<Byte>, y: nat)
    requires |a| - x == |b| - y
    requires x + HeaderSize <= |a| ==>
      && GetULong(a, x) == GetULong(b, y)
      && GetULong(a, x + 4) == GetULong(b, y + 4)
      && GetULong(a, x + 8) == GetULong(b, y + 8)
      && GetULong(a, x + 12) == GetULong(b, y + 12)
      && a[x + 16 .. x + 32] == b[y + 16 .. y + 32]
    requires RecordInBounds(a, x) ==>
      var vo := GetULong(a, x + 4);
      var vl := GetULong(a, x + 8);
      && a[x + HeaderSize .. x + vo] == b[y + HeaderSize .. y + vo]
      && a[x + vo .. x + vo + vl] == b[y + vo .. y + vo + vl]
    ensures ParseRecord(a, x).Ok? <==> ParseRecord(b, y).Ok?
    ensures ParseRecord(a, x).Ok? ==>
      && ParseRecord(a, x).value.variable == ParseRecord(b, y).value.variable
      && (ParseRecord(a, x).value.next == 0 <==> ParseRecord(b, y).value.next == 0)
      && (ParseRecord(a, x).value.next != 0 ==>
            ParseRecord(a, x).value.next - x == ParseRecord(b, y).value.next - y)
  {
    ParseRecordFields(a, x);
    ParseRecordFields(b, y);
    if RecordInBounds(a, x) {
      assert RecordInBounds(b, y);
    } else if x + HeaderSize <= |a| {
      assert !RecordInBounds(b, y);
    }
  }

  // ---------------------------------------------------------------------
  // Walking the chain of records

  /** The loop of GetAllVars from the record at offset on: one variable per
      record, following NextOffset until it is 0. */
  function Walk(stream: seq<Byte>, offset: nat): (r: Result<seq<Variable>>)
    decreases |stream| - offset
  {
    var p :- ParseRecord(stream, offset);
    if p.next == 0 then Ok([p.variable])
    else
      var rest :- Walk(stream, p.next);
      Ok([p.variable] + rest)
  }

  /** GetAllVars, from the enumeration buffer on: an empty buffer fails
      when its first byte is addressed, anything else is walked from 0. */
  function GetAllVars(buffer: seq<Byte>): (r: Result<seq<Variable>>)
  {
    if |buffer| == 0 then Err(IndexOutOfRange) else Walk(buffer, 0)
  }

  /** The offsets of the records reached from offset, read from the
      NextOffset fields alone. */
  function Chain(stream: seq<Byte>, offset: nat): (r: Result<seq<nat>>)
    decreases |stream| - offset
  {
    if !RecordInBounds(stream, offset) then Err(IndexOutOfRange)
    else
      var nextOffset := GetULong(stream, offset);
      if nextOffset == 0 then Ok([offset])
      else
        var rest :- Chain(stream, offset + nextOffset);
        Ok([offset] + rest)
  }

  /** The chain starts at its first record, every record on it is in
      bounds, and its offsets strictly increase, which is why the walk ends. */
  lemma {:induction false} ChainIncreases(stream: seq<Byte>, offset: nat)
    ensures var c := Chain(stream, offset);
      c.Ok? ==>
        && |c.value| >= 1 && c.value[0] == offset
        && (forall i :: 0 <= i < |c.value| ==> RecordInBounds(stream, c.value[i]))
        && (forall i, j :: 0 <= i < j < |c.value| ==> c.value[i] < c.value[j])
    decreases |stream| - offset
  {
    var c := Chain(stream, offset);
    if c.Ok? && GetULong(stream, offset) != 0 {
      var next := offset + GetULong(stream, offset);
      ChainIncreases(stream, next);
      var rest := Chain(stream, next).value;
      assert c.value == [offset] + rest;
      forall i | 0 <= i < |c.value| ensures RecordInBounds(stream, c.value[i]) {
        if i > 0 {
          assert c.value[i] == rest[i - 1];
        }
      }
      forall i, j | 0 <= i < j < |c.value| ensures c.value[i] < c.value[j] {
        assert c.value[j] == rest[j - 1];
        if i > 0 {
          assert c.value[i] == rest[i - 1];
        } else {
          assert rest[0] == next;
        }
      }
    }
  }

  /** Whether the record at offset o decodes to v and names next as its
      successor. */
  predicate LinksTo(stream: seq<Byte>, o: nat, v: Variable, next: nat)
  {
    ParseRecord(stream, o) == Ok(Parsed(v, next))
  }

  /** Whether the records at offs decode to vars, each record's successor
      being the next offset of offs and the last record final. */
  predicate DecodedAlong(stream: seq<Byte>, offs: seq<nat>, vars: seq<Variable>)
    decreases |offs|
  {
    && |vars| == |offs|
    && (|offs| > 0 ==>
          && LinksTo(stream, offs[0], vars[0], if |offs| > 1 then offs[1] else 0)
          && DecodedAlong(stream, offs[1..], vars[1..]))
  }

  /** Read at one position, DecodedAlong says that the record there decodes
      to the matching variable and links to the following offset. */
  lemma {:induction false} DecodedAlongAt(stream: seq<Byte>, offs: seq<nat>, vars: seq<Variable>, j: nat)
    requires DecodedAlong(stream, offs, vars) && j < |offs|
    ensures LinksTo(stream, offs[j], vars[j], if j + 1 < |offs| then offs[j + 1] else 0)
  {
    if j > 0 {
      var k := j - 1;
      assert DecodedAlong(stream, offs[1..], vars[1..]);
      DecodedAlongAt(stream, offs[1..], vars[1..], k);
      assert offs[1..][k] == offs[j] && vars[1..][k] == vars[j];
      assert k + 1 < |offs[1..]| ==> offs[1..][k + 1] == offs[j + 1];
    }
  }

  /** A record in front of records decoded along a chain extends it. */
  lemma DecodedAlongCons(stream: seq<Byte>, offset: nat, v: Variable, offs: seq<nat>, vars: seq<Variable>)
    requires |offs| >= 1 && ParseRecord(stream, offset) == Ok(Parsed(v, offs[0]))
    requires DecodedAlong(stream, offs, vars)
    ensures DecodedAlong(stream, [offset] + offs, [v] + vars)
  {
    assert ([offset] + offs)[1..] == offs && ([v] + vars)[1..] == vars;
  }

  /** One step of the walk, read off its definition. */
  lemma WalkUnfold(stream: seq<Byte>, offset: nat)
    ensures var p := ParseRecord(stream, offset);
      && (Walk(stream, offset).Ok? <==> p.Ok? && (p.value.next == 0 || Walk(stream, p.value.next).Ok?))
      && (p.Ok? && p.value.next == 0 ==> Walk(stream, offset) == Ok([p.value.variable]))
      && (p.Ok? && p.value.next != 0 && Walk(stream, p.value.next).Ok? ==>
            Walk(stream, offset) == Ok([p.value.variable] + Walk(stream, p.value.next).value))
  {
  }

  /** One step of the chain, in the terms of the decoded record. */
  lemma ChainUnfold(stream: seq<Byte>, offset: nat)
    ensures var p := ParseRecord(stream, offset);
      && (Chain(stream, offset).Ok? <==> p.Ok? && (p.value.next == 0 || Chain(stream, p.value.next).Ok?))
      && (p.Ok? && p.value.next == 0 ==> Chain(stream, offset) == Ok([offset]))
      && (p.Ok? && p.value.next != 0 && Chain(stream, p.value.next).Ok? ==>
            Chain(stream, offset) == Ok([offset] + Chain(stream, p.value.next).value))
  {
    ParseRecordFields(stream, offset);
  }

  /** The walk succeeds exactly when the chain of records is in bounds, and
      then yields one variable per record, at least one, each decoded at
      its offset, each record's successor being the next offset of the
      chain and the last record's successor 0. */
  lemma {:induction false} WalkFollowsChain(stream: seq<Byte>, offset: nat)
    ensures Walk(stream, offset).Ok? <==> Chain(stream, offset).Ok?
    ensures Walk(stream, offset).Ok? ==>
      && |Walk(stream, offset).value| >= 1
      && DecodedAlong(stream, Chain(stream, offset).value, Walk(stream, offset).value)
    decreases |stream| - offset
  {
    WalkUnfold(stream, offset);
    ChainUnfold(stream, offset);
    var p := ParseRecord(stream, offset);
    if p.Ok? {
      var v := p.value.variable;
      var next := p.value.next;
      if next == 0 {
        assert DecodedAlong(stream, [offset], [v]);
      } else {
        WalkFollowsChain(stream, next);
        ChainIncreases(stream, next);
        if Walk(stream, next).Ok? {
          var offs := Chain(stream, next).value;
          DecodedAlongCons(stream, offset, v, offs, Walk(stream, next).value);
        }
      }
    }
  }

  /** Agreement from x on is agreement from every later offset on. */
  lemma SuffixOfSuffix(a: seq<Byte>, x: nat, b: seq<Byte>, y: nat, k: nat)
    requires x <= |a| && y <= |b| && a[x..] == b[y..]
    requires x + k <= |a|
    ensures y + k <= |b| && a[x + k ..] == b[y + k ..]
  {
    assert |a| - x == |b| - y by { assert |a[x..]| == |b[y..]|; }
    assert a[x + k ..] == a[x..][k..];
    assert b[y + k ..] == b[y..][k..];
  }

  /** A successor offset past the end of the buffer ends the walk. */
  lemma WalkPastEnd(stream: seq<Byte>, offset: nat)
    requires offset > |stream|
    ensures Walk(stream, offset) == Err(IndexOutOfRange)
  {
  }

  /** Walks that decode the same record and continue alike agree. */
  lemma WalkOfSameRecords(a: seq<Byte>, x: nat, b: seq<Byte>, y: nat)
    requires ParseRecord(a, x).Ok? <==> ParseRecord(b, y).Ok?
    requires ParseRecord(a, x).Ok? ==>
      && ParseRecord(a, x).value.variable == ParseRecord(b, y).value.variable
      && (ParseRecord(a, x).value.next == 0 <==> ParseRecord(b, y).value.next == 0)
      && (ParseRecord(a, x).value.next != 0 ==>
            Walk(a, ParseRecord(a, x).value.next) == Walk(b, ParseRecord(b, y).value.next))
    ensures Walk(a, x) == Walk(b, y)
  {
    WalkUnfold(a, x);
    WalkUnfold(b, y);
  }

  /** The walk reads nothing before its first record: two buffers that
      agree from the first record on are walked alike. */
  lemma {:induction false} WalkOfSuffix(a: seq<Byte>, x: nat, b: seq<Byte>, y: nat)
    requires x <= |a| && y <= |b| && a[x..] == b[y..]
    ensures Walk(a, x) == Walk(b, y)
    decreases |a| - x
  {
    ParseRecordOfSuffix(a, x, b, y);
    var pa := ParseRecord(a, x);
    var pb := ParseRecord(b, y);
    if pa.Ok? && pa.value.next != 0 {
      var nx := pa.value.next;
      var ny := pb.value.next;
      assert ny == y + (nx - x);
      if nx <= |a| {
        SuffixOfSuffix(a, x, b, y, nx - x);
        WalkOfSuffix(a, nx, b, ny);
      } else {
        assert |a| - x == |b| - y by { assert |a[x..]| == |b[y..]|; }
        WalkPastEnd(a, nx);
        WalkPastEnd(b, ny);
      }
    }
    WalkOfSameRecords(a, x, b, y);
  }
}
