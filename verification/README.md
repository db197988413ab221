# gouefivars in Dafny

A model of the variable access layer of gouefivars, a Go library that reads
and writes UEFI firmware variables from user space. Each variable has a name,
a vendor GUID, a 32-bit attribute word and a byte value. The library has two
backends:

- **Windows** (`windows.dfy`, `windows_records.dfy`, `windows_access.dfy`).
  NtEnumerateSystemEnvironmentValuesEx fills a buffer with a chain of
  variable records. The library decodes that buffer and converts each GUID
  from the mixed-endian EFI_GUID layout (Appendix A of the UEFI
  specification) to RFC 4122 byte order. It searches the decoded list by
  name, or by name and GUID. To set a variable, it builds the arguments of
  NtSetSystemEnvironmentValueEx.
- **Linux** (`linux.dfy`). Every variable is a file of efivarfs named
  `Name-GUID`. The file holds the attribute word, little-endian, followed by
  the value. Writing a file first clears its immutable inode flag.

The shared part (`generic.dfy`) holds the error outcomes, `Result`, and the
value accessors `String` and `Uint`. `binary.dfy` holds the little- and
big-endian integer encodings of Go's `encoding/binary`.

Modelling conventions:

- Bytes are integers 0..255.
- A Go run-time panic is the error `IndexOutOfRange`. This covers an index or
  slice out of range, a negative `make` length, and `&s[0]` of an empty
  slice.
- Windows names are sequences of UTF-16 code units.
- Linux GUIDs are kept as their canonical text.
- The enumeration buffer, the system call's status code, the file system
  (a map from path to flags and contents), the glob results and
  `filepath.Clean` are all inputs.

Two operations are modelled twice, as written and corrected (see
"## Findings"). For each, a lemma exhibits where the version as written goes
wrong, and the intended property is proved about the corrected version. The
name search is specified about the corrected GetVarByName only. Uint has a
round-trip lemma for each version: Generic.UintRoundTrip for the version as
written, Generic.UintLittleEndianRoundTrip for the corrected one.

## Model

| member | source | states |
|---|---|---|
| Binary.PutLittleEndian | lib/uefi/vars/linux.go:99-100 | the n-byte little-endian encoding (PutUint32) has n bytes and decodes back to the number |
| Binary.PutLittleEndianOfLittleEndian | lib/uefi/vars/linux.go:77 | reading four bytes little-endian and writing the number back gives the same bytes: the encoding is a bijection |
| Binary.BigEndianIsReversedLittleEndian | lib/uefi/vars/generic.go:61-64 | big-endian reading (BigEndian.Uint32/Uint64) is little-endian reading of the reversed bytes |
| Generic.String | lib/uefi/vars/generic.go:35-42 | String passes the raw bytes through unchanged and passes on the error of Raw |
| Generic.Uint | lib/uefi/vars/generic.go:45-68 | as written: 1 byte gives the byte; 2 and 3 bytes are little-endian; 4 and 8 bytes are big-endian; any other length is an error naming the length; errors of Raw pass through; results are below 256^length |
| Generic.UintLittleEndian | lib/uefi/vars/generic.go:45-68 | corrected: the same lengths and errors, every length read little-endian, so the result re-encodes to the raw bytes |
| Generic.UintRoundTrip | lib/uefi/vars/generic.go:50-67 | as written, Uint inverts the little-endian encoding for 1 to 3 bytes and the big-endian encoding for 4 and 8 bytes |
| Generic.UintLittleEndianRoundTrip | lib/uefi/vars/generic.go:50-67 | the corrected Uint inverts the little-endian encoding for every supported length |
| Generic.UintMixesByteOrders | lib/uefi/vars/generic.go:53-64 | the bytes 01 00 read as 1, but 01 00 00 00 read as 0x1000000 as written and as 1 when corrected |
| Windows.GuidFromBytes | lib/uefi/vars/windows.go:43-60 | getGUIDFromByteSlice; its contract is stated by Windows.GuidFromBytesFields (the byte permutation) and Windows.GuidFromBytesInvolution (its own inverse) |
| Windows.DecodeName | lib/uefi/vars/windows.go:83-94 | the name decoding of getUefiVariableFromByteStream; its contract is stated by Windows.DecodeNameUnits |
| Windows.ParseRecord | lib/uefi/vars/windows.go:70-103 | getUefiVariableFromByteStream; its contract is stated by Windows.ParseRecordFields, Windows.ParseRecordOfSuffix and, as the inverse of the encoder, WindowsRecords.ParseEncodedRecord |
| Windows.Walk | lib/uefi/vars/windows.go:119-131 | the NextOffset loop of GetAllVars; its contract is stated by Windows.WalkFollowsChain and Windows.ChainIncreases, and as the inverse of the encoder by WindowsRecords.WalkOfEncodedBuffer |
| Windows.GetAllVars | lib/uefi/vars/windows.go:106-134 | GetAllVars from the enumeration buffer on (an empty buffer panics at `&buffer[0]`); its contract is stated by WindowsRecords.GetAllVarsOfEncodedBuffer |
| Windows.GetULong | lib/uefi/vars/windows.go:29-36 | the DWORD read at an offset is below 2^32 |
| Windows.GetULongBytes | lib/uefi/vars/windows.go:29-36 | the DWORD is a[off] + 2^8·a[off+1] + 2^16·a[off+2] + 2^24·a[off+3] |
| Windows.GuidFromBytesFields | lib/uefi/vars/windows.go:43-60 | the conversion reverses bytes 0..3, swaps 4 with 5 and 6 with 7, and keeps bytes 8..15; so each integer field read little-endian from the input is the same field read big-endian from the result |
| Windows.GuidFromBytesInvolution | lib/uefi/vars/windows.go:43-60 | converting twice gives back the input |
| Windows.GetWindowsGuid | lib/uefi/vars/windows.go:170-185 | the split fields fit 32, 16, 16 bits and 8 bytes, and laid out in memory they convert back to the GUID |
| Windows.NativeBytesOfSplit | lib/uefi/vars/windows.go:170-185 | the big-endian field split of a GUID, laid out in memory, is the GUID converted to the EFI_GUID layout |
| Windows.WindowsGuidOfConverted | lib/uefi/vars/windows.go:170-185 | for a GUID read from a record, Data1, Data2 and Data3 are the little-endian reads of the raw bytes 0..4, 4..6 and 6..8, Data4 is the raw bytes 8..16, and the fields laid out in memory are the raw bytes again |
| Windows.DecodeNameUnits | lib/uefi/vars/windows.go:83-94 | the decoded name is the UTF-16LE units of the name buffer with the last unit dropped, then at most one more trailing NUL dropped |
| Windows.ParseRecordFields | lib/uefi/vars/windows.go:70-103 | a record decodes exactly when its header, name and value lie in the buffer and the name buffer holds at least two units; otherwise the result is IndexOutOfRange; the decoded value, attributes, GUID and name come from the stated byte ranges; the next position is 0 when NextOffset is 0 and offset + NextOffset otherwise |
| Windows.ParseRecordOfSuffix | lib/uefi/vars/windows.go:70-103 | decoding reads nothing before the record: buffers that agree from the record on decode it alike, with the next position shifted |
| Windows.ParseRecordOfSameFields | lib/uefi/vars/windows.go:70-103 | records whose header, GUID, name and value bytes agree decode alike |
| Windows.ChainIncreases | lib/uefi/vars/windows.go:119-131 | the offsets the walk visits start at the first record, lie in bounds, and strictly increase, so the walk ends |
| Windows.WalkFollowsChain | lib/uefi/vars/windows.go:119-131 | the walk succeeds exactly when every record on the chain decodes; it then yields one variable per record, at least one, each decoded from the record at its offset |
| Windows.WalkPastEnd | lib/uefi/vars/windows.go:119-131 | a next position past the end of the buffer ends the walk with an index error |
| Windows.WalkOfSameRecords | lib/uefi/vars/windows.go:119-131 | two walks whose first records decode to the same variable and continue alike give the same list |
| Windows.WalkOfSuffix | lib/uefi/vars/windows.go:119-131 | the walk reads nothing before its first record: buffers that agree from the first record on give the same list |
| WindowsRecords.EncodeRecord | lib/uefi/vars/windows.go:70-103 | the record written for a variable takes 32 header bytes, the name with its terminator, and the value |
| WindowsRecords.NameUnitsOfNameBytes | lib/uefi/vars/windows.go:83-92 | the UTF-16LE bytes of a name, terminated, decode to its units |
| WindowsRecords.EncodeRecordParts | lib/uefi/vars/windows.go:72-77 | the written record holds NextOffset, ValueOffset, ValueLength, Attributes, GUID, name and value at the offsets the decoder reads |
| WindowsRecords.EncodedRecordFields | lib/uefi/vars/windows.go:72-77 | a buffer holding the written record at any offset holds its fields at the decoder's positions |
| WindowsRecords.ParseRecordAt | lib/uefi/vars/windows.go:70-103 | a record whose header, GUID, name and value bytes are those of a variable decodes to that variable |
| WindowsRecords.FieldsOfHeldRecord | lib/uefi/vars/windows.go:72-98 | every field the decoder reads from a held record reads back as written |
| WindowsRecords.ParseHeldRecord | lib/uefi/vars/windows.go:70-103 | decoding a held record gives the variable and the next position back |
| WindowsRecords.ParseEncodedRecord | lib/uefi/vars/windows.go:70-103 | round trip of one record: decoding the written record wherever it sits gives the variable back |
| WindowsRecords.WalkStep | lib/uefi/vars/windows.go:119-131 | a record with a successor in front of a chain the walk decodes adds its variable at the head |
| WindowsRecords.WalkOfSingleRecord | lib/uefi/vars/windows.go:119-131 | a buffer of one final record walks to that one variable |
| WindowsRecords.WalkOfPrefixedBuffer | lib/uefi/vars/windows.go:119-131 | a record pointing just past itself, in front of a buffer that walks to a list, walks to the variable followed by that list |
| WindowsRecords.WalkOfEncodedBuffer | lib/uefi/vars/windows.go:119-131 | the walk over back-to-back written records yields the variables in order |
| WindowsRecords.GetAllVarsOfEncodedBuffer | lib/uefi/vars/windows.go:106-134 | round trip of the enumeration: GetAllVars decodes a buffer of written records to the list written |
| WindowsAccess.GetVarByNameAndGuid | lib/uefi/vars/windows.go:206-220 | GetVarByNameAndGUID; its contract is stated by WindowsAccess.GetVarByNameAndGuidFindsFirst |
| WindowsAccess.GetVarByName | lib/uefi/vars/windows.go:223-247 | GetVarByName, corrected; its contract is stated by WindowsAccess.GetVarByNameSelects |
| WindowsAccess.GetVarByNameAsWritten | lib/uefi/vars/windows.go:223-247 | GetVarByName as written; its contract is stated by WindowsAccess.GetVarByNameAsWrittenReturnsLast and WindowsAccess.StrictLookupReturnsWrongVariable |
| WindowsAccess.WindowsUnicodeString | lib/uefi/vars/windows.go:158-168 | getWindowsUnicodeString; its contract is stated by WindowsAccess.SetRequestCarries |
| WindowsAccess.SetRequestFor | lib/uefi/vars/windows.go:187-198 | the arguments setRawValueForVar passes to the system call; its contract is stated by WindowsAccess.SetRequestCarries |
| WindowsAccess.SetRawValueForVar | lib/uefi/vars/windows.go:187-203 | setRawValueForVar; its contract is stated by WindowsAccess.SetRawValueForVarOutcome |
| WindowsAccess.FilterFirst | lib/uefi/vars/windows.go:212-219 | there is no match exactly when no element satisfies the test; otherwise the first match is the element at the least matching index |
| WindowsAccess.FilterTwo | lib/uefi/vars/windows.go:231-242 | there are two or more matches exactly when two different indices satisfy the test |
| WindowsAccess.ScanByNameAndGuidFrom | lib/uefi/vars/windows.go:212-219 | the search loop from an index returns the first match from there on, or CouldNotLocate |
| WindowsAccess.GetVarByNameAndGuidFindsFirst | lib/uefi/vars/windows.go:206-220 | a decoding error is passed on; otherwise the search succeeds exactly when some element has the name and all 16 GUID bytes, and returns the first such element; failing, it is CouldNotLocate |
| WindowsAccess.ScanByNameFrom | lib/uefi/vars/windows.go:231-246 | the corrected name search loop returns what the match-count rule selects from the matches after the index |
| WindowsAccess.ScanByNameAliasedFrom | lib/uefi/vars/windows.go:231-245 | the as-written loop agrees with the corrected one, except that a strict success returns the last element of the list |
| WindowsAccess.GetVarByNameSelects | lib/uefi/vars/windows.go:223-247 | corrected: a decoding error is passed on; no match gives CouldNotLocate in both modes; a match succeeds unless strict mode finds two, which is MoreThanOneMatch; a success is the first match, the only one in strict mode; in all, the result is what Select makes of the matches |
| WindowsAccess.GetVarByNameAsWrittenReturnsLast | lib/uefi/vars/windows.go:239 | as written, a strict success returns the last element of the list and every other outcome is the corrected one |
| WindowsAccess.StrictLookupReturnsWrongVariable | lib/uefi/vars/windows.go:239 | for the list [A, B] a strict search for "A" returns B as written and A when corrected |
| WindowsAccess.SetRequestCarries | lib/uefi/vars/windows.go:158-198 | the set request is refused for a name holding a NUL, then for an empty value; otherwise it carries the name plus a NUL, with a byte length of twice its units modulo 2^16, GUID fields that convert back to the GUID, and the value and attributes as given |
| WindowsAccess.SetRawValueForVarOutcome | lib/uefi/vars/windows.go:187-203 | setting succeeds exactly when the request can be built and the system call returns 0; a request error or a non-zero code is reported |
| Linux.VarPath | lib/uefi/vars/linux.go:39 | the file name getFileForVariable builds; its contract is stated by Linux.BaseOfVarPath and Linux.VariableOfItsFileName |
| Linux.Base | lib/uefi/vars/linux.go:30 | filepath.Base; its contract on variable paths is stated by Linux.BaseOfVarPath |
| Linux.SplitAtFirstDash | lib/uefi/vars/linux.go:31 | strings.SplitN(fileName, "-", 2); its contract is stated by Linux.FirstIndexOf and Linux.VariableOfItsFileName |
| Linux.VariableOfFileName | lib/uefi/vars/linux.go:141-144 | the name and GUID taken from a base name, panicking without a dash; its contract is stated by Linux.VariableOfItsFileName |
| Linux.GetAllVars | lib/uefi/vars/linux.go:23-36 | GetAllVars over the glob matches; its contract is stated by Linux.GetAllVarsOfPaths |
| Linux.Frame | lib/uefi/vars/linux.go:99-101 | the bytes setRawValueForVar writes; its contract is stated by Linux.FrameRoundTrip |
| Linux.AttributeOf | lib/uefi/vars/linux.go:71-77 | getAttributeForVar on the file contents; its contract is stated by Linux.ReadersOfContents |
| Linux.RawValueOf | lib/uefi/vars/linux.go:86-90 | getRawValueForVar on the file contents; its contract is stated by Linux.ReadersOfContents |
| Linux.ReadFile | lib/uefi/vars/linux.go:38-63 | getFileForVariable in read mode; its contract is stated by Linux.SetRawThenRead |
| Linux.Attributes | lib/uefi/vars/linux.go:65-78 | getAttributeForVar; its contract is stated by Linux.SetRawThenRead |
| Linux.Raw | lib/uefi/vars/linux.go:80-91 | getRawValueForVar; its contract is stated by Linux.SetRawThenRead |
| Linux.SetRaw | lib/uefi/vars/linux.go:93-104 | setRawValueForVar; its contract is stated by Linux.SetRawThenRead |
| Linux.ClearImmutable | lib/uefi/vars/linux.go:51-54 | the flag clearing of getFileForVariable; its contract is stated by Linux.ClearImmutableBits |
| Linux.FirstIndexOf | lib/uefi/vars/linux.go:142 | the split point is a dash with no dash before it |
| Linux.BaseOfVarPath | lib/uefi/vars/linux.go:141 | the base name of a variable's path is Name-GUID when neither part holds a slash |
| Linux.VariableOfItsFileName | lib/uefi/vars/linux.go:141-144 | splitting Name-GUID at the first dash gives Name and GUID back whenever Name holds no dash |
| Linux.Paths | lib/uefi/vars/linux.go:39 | each listed path is the efivars directory, the name, a dash and the GUID |
| Linux.GetAllVarsOfPaths | lib/uefi/vars/linux.go:23-36 | listing the files of variables whose names split back yields those variables in order |
| Linux.ReadersOfContents | lib/uefi/vars/linux.go:65-91 | the attribute read fails exactly on an empty file and is otherwise the little-endian value of the first four bytes (zero-filled when shorter), below 2^32; the raw value needs at least four bytes and is the bytes from the fifth on |
| Linux.FrameRoundTrip | lib/uefi/vars/linux.go:65-104 | the written file is four bytes longer than the value and reads back the value and the attributes modulo 2^32 |
| Linux.ClearImmutableBits | lib/uefi/vars/linux.go:51-54 | the immutable bit ends up clear, every other bit is unchanged, and flags without the bit are left alone |
| Linux.SetRawThenRead | lib/uefi/vars/linux.go:38-104 | setting fails with FileNotFound exactly when the file is missing; otherwise the variable reads back the value and the attributes modulo 2^32, its file is no longer immutable, and every other file is unchanged |
| Linux.GetVarByNameAndGuid | lib/uefi/vars/linux.go:107-117 | a variable is found exactly when its file exists, with the name and GUID asked for; otherwise FileNotFound |
| Linux.GetVarByName | lib/uefi/vars/linux.go:120-146 | strict with two or more matches is MoreThanOneMatch; no match is CouldNotLocate; a cleaned first match outside the efivars directory is BadNameString; success means the first match is in the directory, exists, and its base name splits into the result |
| Linux.GetVarByNameOfVarPath | lib/uefi/vars/linux.go:120-146 | a stored variable whose path is the first match is found, and in strict mode when it is the only match |

## Left out

- System calls: RtlAdjustPrivilege with getPriv, NtEnumerateSystemEnvironmentValuesEx (the buffer is an input), and NtSetSystemEnvironmentValueEx (its status code is a parameter). They are foreign calls.
- The size query before the Windows enumeration (windows.go:113-118). The buffer is an input of the size the system reports. The source ignores the errors of both calls, and so does the model.
- utf16.Decode and the UTF-8 conversion of names. Windows names stay UTF-16 code units, and surrogate pairs are not combined. syscall.UTF16FromString is modelled only by its NUL check and terminator.
- The uuid library. MustParse (and its panic on a malformed GUID), String and MarshalBinary are left out: Windows GUIDs are 16 bytes, Linux GUIDs are text.
- Linux file I/O: os.OpenFile, ioutil.ReadAll, filepath.Glob (its results and their order are an input), filepath.Clean (a function parameter), and errors of the FS_IOC_GETFLAGS/SETFLAGS ioctls, which the source only logs. A read is taken to return the whole file, and a write to replace the file's contents.
- Linux.SetRawThenRead: the read-back holds for the modelled store, not for efivarfs in every case. Three kernel behaviours are not modelled. With EFI_VARIABLE_APPEND_WRITE (0x40) set in the attribute word, the value is appended. A bare attribute word (an empty value) deletes the variable and its file. Attribute bits outside the kernel's mask are refused with EINVAL.
- Windows.ParseRecord: Go's `uint` is taken as 64 bits, so `nextOffset + offset` (windows.go:102) cannot wrap. On 32-bit Windows (386, arm) `uint` has 32 bits and the sum wraps modulo 2^32. A chain could then point back to an earlier record, and the loop of GetAllVars would not end. Windows.ChainIncreases and the termination of Windows.Walk hold only for 64-bit `uint`.
- Linux.GetAllVars: an error from Glob is not modelled, since the matches are given.
- The `private` field of UefiVariable and its type assertion. On Windows, Attributes and Raw return the fields of the decoded Variable. The panic for a variable that did not come from GetAllVars is not modelled.
- Logging, and the command-line tool.
- Generic.Uint: Go's uint64 is not bounded explicitly. No supported length can exceed 2^64, which the result bound states.
- WindowsAccess.SetRequestFor: the attributes are passed as given. uintptr on a 64-bit platform loses nothing.

## Findings

| source | as written | input that shows it | evidently intended | confidence | as-written member | corrected member |
|---|---|---|---|---|---|---|
| lib/uefi/vars/windows.go:239 | in strict mode `holder = &v` stores the address of the range variable; before Go 1.22 that variable is shared by all iterations, so after the loop holder points at the last element of the list | variables named A then B, strict search for A: returns B | return the one variable that matched | medium: depends on the Go version the module is built with (1.22 made the loop variable per-iteration); not executed | WindowsAccess.GetVarByNameAsWritten (WindowsAccess.StrictLookupReturnsWrongVariable, WindowsAccess.GetVarByNameAsWrittenReturnsLast) | WindowsAccess.GetVarByName (WindowsAccess.GetVarByNameSelects) |
| lib/uefi/vars/generic.go:61-64 | Uint reads 2- and 3-byte values little-endian but 4- and 8-byte values big-endian | bytes 01 00 give 1; bytes 01 00 00 00 give 0x1000000 | little-endian for every length, the byte order UEFI variables are stored in | medium: the big-endian cases may be deliberate; not executed | Generic.Uint (Generic.UintMixesByteOrders, Generic.UintRoundTrip) | Generic.UintLittleEndian (Generic.UintLittleEndianRoundTrip) |
