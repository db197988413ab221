/** The platform-independent part of the library: the error outcomes, the
    vendor GUID, and the accessors that re-encode a variable's raw value
    (UefiVariable.String and UefiVariable.Uint). */
module Generic {
  import opened Binary

  /** Why an operation did not produce a value. A Go run-time panic (an
      index or slice out of range, a negative length given to make) is
      modelled as IndexOutOfRange rather than as a crash. */
  datatype Error =
    | IndexOutOfRange
    | CouldNotLocate
    | MoreThanOneMatch
    | BadNameString
    | UnsupportedLength(length: nat)
    | EndOfFile
    | FileNotFound
    | NulInName
    | SystemCallFailed(code: nat)

  /** A value or the error that prevented it; usable with `:-`. */
  datatype Result<+T> = Ok(value: T) | Err(error: Error) {
    predicate IsFailure() {
      Err?
    }

    function PropagateFailure<U>(): Result<U>
      requires Err?
    {
      Err(error)
    }

    function Extract(): T
      requires Ok?
    {
      value
    }
  }

  /** A value that may be absent (a nil pointer in Go). */
  datatype Option<+T> = None | Some(value: T)

  /** A vendor GUID as the 16 bytes of its RFC 4122 (big-endian) form. */
  type Guid = g: seq<Byte> | |g| == 16 witness seq(16, i => 0)

  /** The byte lengths UefiVariable.Uint knows how to convert. */
  predicate SupportedLength(n: nat) {
    n == 1 || n == 2 || n == 3 || n == 4 || n == 8
  }

  /** UefiVariable.String: the raw value reinterpreted as a Go string, which
      keeps every byte unchanged; an error reading the value is passed on. */
  function String(raw: Result<seq<Byte>>): (r: Result<seq<Byte>>)
    ensures r.Ok? <==> raw.Ok?
    ensures r.Ok? ==> r.value == raw.value
    ensures r.Err? ==> r.error == raw.error
  {
    var bytes :- raw;
    Ok(bytes)
  }

  /** UefiVariable.Uint as written: one and two bytes are read little-endian
      (the three-byte case by explicit shifts, also little-endian), but four
      and eight bytes are read big-endian. Any other length is an error. */
  function Uint(raw: Result<seq<Byte>>): (r: Result<nat>)
    ensures raw.Err? ==> r == Err(raw.error)
    ensures raw.Ok? ==> (r.Ok? <==> SupportedLength(|raw.value|))
    ensures raw.Ok? && !SupportedLength(|raw.value|) ==> r == Err(UnsupportedLength(|raw.value|))
    ensures raw.Ok? && |raw.value| == 1 ==> r == Ok(raw.value[0])
    ensures raw.Ok? && |raw.value| == 2 ==>
      r == Ok(raw.value[0] + 0x100 * raw.value[1] as int)
    ensures raw.Ok? && |raw.value| == 3 ==>
      r == Ok(raw.value[0] + 0x100 * raw.value[1] as int + 0x1_0000 * raw.value[2] as int)
    ensures raw.Ok? && |raw.value| == 4 ==>
      r == Ok(0x100_0000 * raw.value[0] as int + 0x1_0000 * raw.value[1] as int
              + 0x100 * raw.value[2] as int + raw.value[3])
    ensures raw.Ok? && |raw.value| == 8 ==>
      r == Ok(0x1_0000_0000 * BigEndian(raw.value[..4]) + BigEndian(raw.value[4..]))
    ensures r.Ok? ==> r.value < Pow256(|raw.value|)
  {
    var bytes :- raw;
    var n := |bytes|;
    if n == 1 then
      Ok(bytes[0])
    else if n == 2 then
      LittleEndian2(bytes);
      Ok(LittleEndian(bytes))
    else if n == 3 then
      var v := bytes[0] + 0x100 * bytes[1] as int + 0x1_0000 * bytes[2] as int;
      LittleEndian3(bytes);
      Ok(v)
    else if n == 4 then
      BigEndian4(bytes);
      Ok(BigEndian(bytes))
    else if n == 8 then
      BigEndianSplit(bytes, 4);
      Ok(BigEndian(bytes))
    else
      Err(UnsupportedLength(n))
  }

  /** UefiVariable.Uint with the little-endian order the UEFI specification
      uses for every integer, at all five supported lengths. */
  function UintLittleEndian(raw: Result<seq<Byte>>): (r: Result<nat>)
    ensures raw.Err? ==> r == Err(raw.error)
    ensures raw.Ok? ==> (r.Ok? <==> SupportedLength(|raw.value|))
    ensures raw.Ok? && !SupportedLength(|raw.value|) ==> r == Err(UnsupportedLength(|raw.value|))
    ensures r.Ok? ==> r.value < Pow256(|raw.value|)
    ensures r.Ok? ==> PutLittleEndian(r.value, |raw.value|) == raw.value
  {
    var bytes :- raw;
    if SupportedLength(|bytes|) then
      PutLittleEndianOfLittleEndian(bytes);
      Ok(LittleEndian(bytes))
    else
      Err(UnsupportedLength(|bytes|))
  }

  /** Round trip of the as-written Uint: a value stored in the byte order
      Uint expects for that length (little-endian below four bytes, reversed
      from four bytes up) is read back unchanged. */
  lemma UintRoundTrip(x: nat, n: nat)
    requires SupportedLength(n) && x < Pow256(n)
    ensures n < 4 ==> Uint(Ok(PutLittleEndian(x, n))) == Ok(x)
    ensures n >= 4 ==> Uint(Ok(Reverse(PutLittleEndian(x, n)))) == Ok(x)
  {
    var t := PutLittleEndian(x, n);
    if n == 1 {
      assert t[1..] == [];
    } else if n == 2 {
      LittleEndian2(t);
    } else if n == 3 {
      LittleEndian3(t);
    } else {
      var rt := Reverse(t);
      BigEndianIsReversedLittleEndian(rt);
      assert Reverse(rt) == t;
      if n == 4 {
        BigEndian4(rt);
      } else {
        BigEndianSplit(rt, 4);
      }
    }
  }

  /** Round trip of the corrected Uint: the n-byte little-endian encoding
      of x reads back as x at every supported length. */
  lemma UintLittleEndianRoundTrip(x: nat, n: nat)
    requires SupportedLength(n) && x < Pow256(n)
    ensures UintLittleEndian(Ok(PutLittleEndian(x, n))) == Ok(x)
  {
  }

  /** The as-written Uint reads the same number differently at different
      widths: 1 stored as two little-endian bytes reads as 1, stored as four
      little-endian bytes it reads as 0x0100_0000. The corrected reading
      gives 1 for both. */
  lemma UintMixesByteOrders()
    ensures Uint(Ok([1, 0])) == Ok(1)
    ensures Uint(Ok([1, 0, 0, 0])) == Ok(0x100_0000)
    ensures UintLittleEndian(Ok([1, 0])) == Ok(1)
    ensures UintLittleEndian(Ok([1, 0, 0, 0])) == Ok(1)
  {
    LittleEndian4([1, 0, 0, 0]);
    LittleEndian2([1, 0]);
  }
}
