/** The Linux backend. Every variable is a file of efivarfs named after the
    variable's name and GUID; its contents are the 32-bit attribute word,
    little-endian, followed by the value. The file system is modelled as a
    map from paths to file contents and inode flags; the result of
    filepath.Glob and the function filepath.Clean are parameters. */
module Linux {
  import opened Binary
  import opened Generic

  /** FS_IMMUTABLE_FL, the inode flag that makes an efivarfs file
      read-only. */
  const ImmutableFlag: bv64 := 0x10

  /** Every inode flag but FS_IMMUTABLE_FL: the mask `^FS_IMMUTABLE_FL`. */
  const OtherFlags: bv64 := 0xFFFF_FFFF_FFFF_FFEF

  /** The directory efivarfs is mounted on. */
  const EfivarsDir: string := "/sys/firmware/efi/efivars/"

  /** A variable as the Linux backend knows it: its name and its GUID in
      the canonical text form that names its file. */
  datatype Variable = Variable(name: string, guid: string)

  /** One file of efivarfs: its inode flags and its contents. */
  datatype EfiFile = EfiFile(flags: bv64, data: seq<Byte>)

  /** The files of the mounted efivarfs, by path. */
  type Store = map<string, EfiFile>

  // ---------------------------------------------------------------------
  // File names

  /** The path of the file that holds v (getFileForVariable). */
  function VarPath(v: Variable): (r: string)
  {
    EfivarsDir + v.name + "-" + v.guid
  }

  /** path without its trailing slashes. */
  function TrimTrailingSlashes(path: string): (r: string)
  {
    if |path| > 0 && path[|path| - 1] == '/' then TrimTrailingSlashes(path[..|path| - 1]) else path
  }

  /** The characters of path after its last slash; all of it when it has
      none. */
  function AfterLastSlash(path: string): (r: string)
  {
    if path == [] then []
    else if path[|path| - 1] == '/' then []
    else AfterLastSlash(path[..|path| - 1]) + [path[|path| - 1]]
  }

  /** filepath.Base: the last element of path, trailing slashes ignored;
      "." for the empty path and "/" for a path of slashes only. */
  function Base(path: string): (r: string)
  {
    if path == [] then "."
    else
      var last := AfterLastSlash(TrimTrailingSlashes(path));
      if last == [] then "/" else last
  }

  /** The index of the first c in s. */
  function FirstIndexOf(s: string, c: char): (i: nat)
    requires c in s
    ensures i < |s| && s[i] == c && c !in s[..i]
  {
    if s[0] == c then 0
    else
      assert s == [s[0]] + s[1..];
      var j := FirstIndexOf(s[1..], c);
      assert s[..j + 1] == [s[0]] + s[1..][..j];
      j + 1
  }

  /** strings.SplitN(s, "-", 2): the text before the first dash and the
      text after it, or s alone when it holds no dash. */
  function SplitAtFirstDash(s: string): (r: seq<string>)
  {
    if '-' !in s then [s]
    else
      var i := FirstIndexOf(s, '-');
      [s[..i], s[i + 1..]]
  }

  /** The variable a file name denotes: name before the first dash, GUID
      after it. A name without a dash leaves no second part, and indexing
      it panics. */
  function VariableOfFileName(fileName: string): (r: Result<Variable>)
  {
    var parts := SplitAtFirstDash(fileName);
    if |parts| < 2 then Err(IndexOutOfRange) else Ok(Variable(parts[0], parts[1]))
  }

  /** Whether v's file name can be split back into v: its name holds no
      dash and neither part holds a slash. */
  predicate NameSplittable(v: Variable) {
    '-' !in v.name && '/' !in v.name && '/' !in v.guid
  }

  /** The last element of a path is what follows its last slash. */
  lemma {:induction false} AfterLastSlashOfSuffix(prefix: string, s: string)
    requires '/' !in s
    ensures AfterLastSlash(prefix + ['/'] + s) == s
    decreases |s|
  {
    if s == [] {
      assert prefix + ['/'] + s == prefix + ['/'];
    } else {
      var init := s[..|s| - 1];
      assert (prefix + ['/'] + s)[..|prefix + ['/'] + s| - 1] == prefix + ['/'] + init;
      assert '/' !in init by {
        forall k | 0 <= k < |init| ensures init[k] != '/' {
          assert init[k] == s[k];
        }
      }
      AfterLastSlashOfSuffix(prefix, init);
      assert init + [s[|s| - 1]] == s;
    }
  }

  /** The base name of a variable's path is its file name. */
  lemma BaseOfVarPath(v: Variable)
    requires NameSplittable(v)
    ensures Base(VarPath(v)) == v.name + "-" + v.guid
  {
    var file := v.name + "-" + v.guid;
    assert '/' !in file by {
      forall k | 0 <= k < |file| ensures file[k] != '/' {
        if k < |v.name| {
          assert file[k] == v.name[k];
        } else if k > |v.name| {
          assert file[k] == v.guid[k - |v.name| - 1];
        }
      }
    }
    var dir := EfivarsDir[..|EfivarsDir| - 1];
    assert VarPath(v) == dir + ['/'] + file;
    assert VarPath(v)[|VarPath(v)| - 1] != '/' by {
      assert VarPath(v)[|VarPath(v)| - 1] == file[|file| - 1];
    }
    AfterLastSlashOfSuffix(dir, file);
  }

  /** Round trip of the file name: splitting the file name of v gives v
      back when v's name holds no dash. */
  lemma VariableOfItsFileName(v: Variable)
    requires '-' !in v.name
    ensures VariableOfFileName(v.name + "-" + v.guid) == Ok(v)
  {
    var file := v.name + "-" + v.guid;
    assert file[..|v.name|] == v.name;
    assert file[|v.name|] == '-';
    var i := FirstIndexOf(file, '-');
    assert i == |v.name|;
    assert file[..i] == v.name;
    assert file[i + 1..] == v.guid;
  }

  /** GetAllVars: the variables named by the files filepath.Glob listed,
      in the order listed. */
  function GetAllVars(matches: seq<string>): (r: Result<seq<Variable>>)
  {
    if matches == [] then Ok([])
    else
      var v :- VariableOfFileName(Base(matches[0]));
      var rest :- GetAllVars(matches[1..]);
      Ok([v] + rest)
  }

  /** The paths of the files of vs, in order. */
  function Paths(vs: seq<Variable>): (r: seq<string>)
    ensures |r| == |vs|
    ensures forall i :: 0 <= i < |vs| ==> r[i] == VarPath(vs[i])
  {
    if vs == [] then [] else [VarPath(vs[0])] + Paths(vs[1..])
  }

  /** One step of the listing: a file name that splits, before a listing
      that succeeds. */
  lemma GetAllVarsOfCons(m: string, ms: seq<string>, v: Variable, rest: seq<Variable>)
    requires VariableOfFileName(Base(m)) == Ok(v) && GetAllVars(ms) == Ok(rest)
    ensures GetAllVars([m] + ms) == Ok([v] + rest)
  {
    assert ([m] + ms)[1..] == ms;
  }

  /** Round trip of the listing: listing the files of variables whose
      names split back gives those variables, in order. */
  lemma {:induction false} GetAllVarsOfPaths(vs: seq<Variable>)
    requires forall i :: 0 <= i < |vs| ==> NameSplittable(vs[i])
    ensures GetAllVars(Paths(vs)) == Ok(vs)
  {
    if vs != [] {
      assert NameSplittable(vs[0]);
      BaseOfVarPath(vs[0]);
      VariableOfItsFileName(vs[0]);
      GetAllVarsOfPaths(vs[1..]);
      GetAllVarsOfCons(VarPath(vs[0]), Paths(vs[1..]), vs[0], vs[1..]);
      assert [vs[0]] + vs[1..] == vs;
    }
  }

  // ---------------------------------------------------------------------
  // File contents

  /** The contents setRawValueForVar writes: the attributes truncated to 32
      bits, little-endian, then the value. */
  function Frame(value: seq<Byte>, attributes: nat): (r: seq<Byte>)
  {
    PutLittleEndian(attributes % 0x1_0000_0000, 4) + value
  }

  /** getAttributeForVar: one read into a zeroed four-byte buffer. Reading
      an empty file reports the end of the file; a shorter file fills only
      the first bytes. */
  function AttributeOf(data: seq<Byte>): (r: Result<nat>)
  {
    if |data| == 0 then Err(EndOfFile)
    else
      var n := if |data| < 4 then |data| else 4;
      Ok(LittleEndian(data[..n] + seq(4 - n, i => 0)))
  }

  /** getRawValueForVar: everything after the attribute word. A file
      shorter than the word panics on the slice. */
  function RawValueOf(data: seq<Byte>): (r: Result<seq<Byte>>)
  {
    if |data| < 4 then Err(IndexOutOfRange) else Ok(data[4..])
  }

  /** What the two readers return: the attribute word is the little-endian
      value of the first four bytes (of the bytes there are, zero-filled,
      for a short file), below 2^32; the value is the bytes from the fifth
      on. */
  lemma ReadersOfContents(data: seq<Byte>)
    ensures AttributeOf(data).Ok? <==> |data| > 0
    ensures |data| >= 4 ==> AttributeOf(data) == Ok(LittleEndian(data[..4]))
    ensures 0 < |data| < 4 ==> AttributeOf(data) == Ok(LittleEndian(data + seq(4 - |data|, i => 0)))
    ensures AttributeOf(data).Ok? ==> AttributeOf(data).value < 0x1_0000_0000
    ensures RawValueOf(data).Ok? <==> |data| >= 4
    ensures RawValueOf(data).Ok? ==> |data| == 4 + |RawValueOf(data).value| && RawValueOf(data).value == data[4..]
  {
    if |data| > 0 {
      var n := if |data| < 4 then |data| else 4;
      var buf := data[..n] + seq(4 - n, i => 0);
      assert |buf| == 4 && Pow256(4) == 0x1_0000_0000;
      if |data| >= 4 {
        assert buf == data[..4];
      } else {
        assert data[..n] == data;
      }
    }
  }

  /** Round trip of the framing: the attribute word reads back as the
      attributes modulo 2^32, the value as the value, and the file is four
      bytes longer than the value. */
  lemma FrameRoundTrip(value: seq<Byte>, attributes: nat)
    ensures |Frame(value, attributes)| == 4 + |value|
    ensures AttributeOf(Frame(value, attributes)) == Ok(attributes % 0x1_0000_0000)
    ensures RawValueOf(Frame(value, attributes)) == Ok(value)
  {
    var data := Frame(value, attributes);
    var word := PutLittleEndian(attributes % 0x1_0000_0000, 4);
    assert data[..4] == word;
    assert data[4..] == value;
    ReadersOfContents(data);
  }

  // ---------------------------------------------------------------------
  // Inode flags

  /** The flags after getFileForVariable in read-write mode: when the
      immutable bit is set, the flags are masked with ^FS_IMMUTABLE_FL. */
  function ClearImmutable(flags: bv64): (r: bv64)
  {
    if flags & ImmutableFlag != 0 then flags & OtherFlags else flags
  }

  /** Clearing leaves the immutable bit off and every other bit as it was,
      and leaves flags without the bit alone. */
  lemma ClearImmutableBits(flags: bv64)
    ensures ClearImmutable(flags) & ImmutableFlag == 0
    ensures ClearImmutable(flags) & OtherFlags == flags & OtherFlags
    ensures flags & ImmutableFlag == 0 ==> ClearImmutable(flags) == flags
  {
  }

  // ---------------------------------------------------------------------
  // Operations on the store

  /** Opening v's file for reading: its contents, or FileNotFound. */
  function ReadFile(store: Store, v: Variable): (r: Result<seq<Byte>>)
  {
    if VarPath(v) in store then Ok(store[VarPath(v)].data) else Err(FileNotFound)
  }

  /** UefiVariable.Attributes on Linux. */
  function Attributes(store: Store, v: Variable): (r: Result<nat>)
  {
    var data :- ReadFile(store, v);
    AttributeOf(data)
  }

  /** UefiVariable.Raw on Linux. */
  function Raw(store: Store, v: Variable): (r: Result<seq<Byte>>)
  {
    var data :- ReadFile(store, v);
    RawValueOf(data)
  }

  /** UefiVariable.SetRaw on Linux: the file must exist; its immutable bit
      is cleared and its contents become the framed value. The model takes
      a write to replace the file's contents. */
  function SetRaw(store: Store, v: Variable, value: seq<Byte>, attributes: nat): (r: Result<Store>)
  {
    var path := VarPath(v);
    if path !in store then Err(FileNotFound)
    else Ok(store[path := EfiFile(ClearImmutable(store[path].flags), Frame(value, attributes))])
  }

  /** Round trip through the store: after a successful set, the variable
      reads back the value and the attributes modulo 2^32, its file is no
      longer immutable, and every other file is unchanged; the set fails
      exactly when the file is missing. */
  lemma SetRawThenRead(store: Store, v: Variable, value: seq<Byte>, attributes: nat)
    ensures SetRaw(store, v, value, attributes).Ok? <==> VarPath(v) in store
    ensures SetRaw(store, v, value, attributes).Err? ==> SetRaw(store, v, value, attributes).error == FileNotFound
    ensures SetRaw(store, v, value, attributes).Ok? ==>
      var after := SetRaw(store, v, value, attributes).value;
      && Raw(after, v) == Ok(value)
      && Attributes(after, v) == Ok(attributes % 0x1_0000_0000)
      && after[VarPath(v)].flags & ImmutableFlag == 0
      && after.Keys == store.Keys
      && forall p :: p in store && p != VarPath(v) ==> after[p] == store[p]
  {
    if VarPath(v) in store {
      FrameRoundTrip(value, attributes);
      ClearImmutableBits(store[VarPath(v)].flags);
    }
  }

  /** GetVarByNameAndGUID on Linux: exactly the variables whose file
      exists are found, under the name and GUID asked for; the others are
      FileNotFound. */
  function GetVarByNameAndGuid(store: Store, name: string, guid: string): (r: Result<Variable>)
    ensures r.Ok? <==> EfivarsDir + name + "-" + guid in store
    ensures r.Ok? ==> r.value == Variable(name, guid)
    ensures r.Err? ==> r.error == FileNotFound
  {
    var v := Variable(name, guid);
    if VarPath(v) in store then Ok(v) else Err(FileNotFound)
  }

  /** Whether s starts with prefix (strings.HasPrefix). */
  predicate HasPrefix(s: string, prefix: string) {
    |prefix| <= |s| && s[..|prefix|] == prefix
  }

  /** GetVarByName on Linux, given the paths the glob for the name matched
      and filepath.Clean: strict mode refuses two or more matches, no match
      is CouldNotLocate, the cleaned first match must lie in the efivars
      directory and open, and its file name is split into name and GUID. */
  function GetVarByName(store: Store, matches: seq<string>, strict: bool, clean: string -> string): (r: Result<Variable>)
    ensures strict && |matches| >= 2 ==> r == Err(MoreThanOneMatch)
    ensures |matches| == 0 ==> r == Err(CouldNotLocate)
    ensures (|matches| == 1 || (!strict && |matches| >= 1)) && !HasPrefix(clean(matches[0]), EfivarsDir) ==>
      r == Err(BadNameString)
    ensures r.Ok? ==>
      && |matches| >= 1 && (strict ==> |matches| == 1)
      && HasPrefix(clean(matches[0]), EfivarsDir) && clean(matches[0]) in store
      && r == VariableOfFileName(Base(clean(matches[0])))
  {
    if strict && |matches| > 1 then Err(MoreThanOneMatch)
    else if |matches| == 0 then Err(CouldNotLocate)
    else
      var path := clean(matches[0]);
      if !HasPrefix(path, EfivarsDir) then Err(BadNameString)
      else if path !in store then Err(FileNotFound)
      else VariableOfFileName(Base(path))
  }

  /** GetVarByName finds a stored variable from its own path, in either
      mode, when that path is the first match and cleaning leaves it as
      it is. */
  lemma GetVarByNameOfVarPath(store: Store, v: Variable, rest: seq<string>, strict: bool, clean: string -> string)
    requires NameSplittable(v) && VarPath(v) in store
    requires clean(VarPath(v)) == VarPath(v)
    requires strict ==> rest == []
    ensures GetVarByName(store, [VarPath(v)] + rest, strict, clean) == Ok(v)
  {
    var matches := [VarPath(v)] + rest;
    assert matches[0] == VarPath(v);
    assert HasPrefix(VarPath(v), EfivarsDir) by {
      assert VarPath(v)[..|EfivarsDir|] == EfivarsDir;
    }
    BaseOfVarPath(v);
    VariableOfItsFileName(v);
  }
}
