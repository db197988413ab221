/** The Windows searches over the decoded variable list (GetVarByNameAndGUID
    and GetVarByName) and the arguments setRawValueForVar marshals for
    NtSetSystemEnvironmentValueEx. Both searches take the enumeration buffer
    and decode it with GetAllVars first, as the source does. */
module WindowsAccess {
  import opened Binary
  import opened Generic
  import opened Windows

  // ---------------------------------------------------------------------
  // Filtering, the reference for both searches

  /** The elements of vs that satisfy p, in their order in vs. */
  function Filter(vs: seq<Variable>, p: Variable -> bool): (r: seq<Variable>)
    ensures |r| <= |vs|
  {
    if vs == [] then [] else (if p(vs[0]) then [vs[0]] else []) + Filter(vs[1..], p)
  }

  /** The filter is empty exactly when nothing satisfies p; otherwise its
      head is the element at the first index that does. */
  lemma {:induction false} FilterFirst(vs: seq<Variable>, p: Variable -> bool)
    ensures |Filter(vs, p)| == 0 <==> forall i :: 0 <= i < |vs| ==> !p(vs[i])
    ensures |Filter(vs, p)| > 0 ==>
      exists k :: 0 <= k < |vs| && p(vs[k]) && Filter(vs, p)[0] == vs[k]
                  && forall j :: 0 <= j < k ==> !p(vs[j])
  {
    if vs != [] {
      FilterFirst(vs[1..], p);
      if !p(vs[0]) {
        forall i | 0 < i < |vs| ensures vs[i] == vs[1..][i - 1] { }
        if |Filter(vs, p)| > 0 {
          var k' :| 0 <= k' < |vs[1..]| && p(vs[1..][k']) && Filter(vs[1..], p)[0] == vs[1..][k']
                    && forall j :: 0 <= j < k' ==> !p(vs[1..][j]);
          var k := k' + 1;
          forall j | 0 <= j < k ensures !p(vs[j]) {
            if j > 0 {
              assert vs[j] == vs[1..][j - 1];
            }
          }
          assert p(vs[k]) && Filter(vs, p)[0] == vs[k];
        }
      }
    }
  }

  /** The filter holds two or more elements exactly when two different
      indices satisfy p. */
  lemma {:induction false} FilterTwo(vs: seq<Variable>, p: Variable -> bool)
    ensures |Filter(vs, p)| >= 2 <==>
      exists i, j :: 0 <= i < j < |vs| && p(vs[i]) && p(vs[j])
  {
    if vs != [] {
      var tail := vs[1..];
      FilterTwo(tail, p);
      FilterFirst(tail, p);
      if |Filter(vs, p)| >= 2 {
        if p(vs[0]) {
          var k :| 0 <= k < |tail| && p(tail[k]) && Filter(tail, p)[0] == tail[k]
                   && forall j :: 0 <= j < k ==> !p(tail[j]);
          assert p(vs[0]) && p(vs[k + 1]);
        } else {
          var i, j :| 0 <= i < j < |tail| && p(tail[i]) && p(tail[j]);
          assert p(vs[i + 1]) && p(vs[j + 1]);
        }
      }
      if exists i, j :: 0 <= i < j < |vs| && p(vs[i]) && p(vs[j]) {
        var i, j :| 0 <= i < j < |vs| && p(vs[i]) && p(vs[j]);
        assert p(tail[j - 1]);
        if i > 0 {
          assert p(tail[i - 1]);
        }
      }
    }
  }

  /** The predicate GetVarByName tests: the name equals the query. */
  function NameIs(name: seq<CodeUnit>): Variable -> bool {
    (v: Variable) => v.name == name
  }

  /** The predicate GetVarByNameAndGUID tests: the name equals the query
      and so do all 16 bytes of the GUID. */
  function NameAndGuidAre(name: seq<CodeUnit>, guid: Guid): Variable -> bool {
    (v: Variable) => v.name == name && v.guid == guid
  }

  // ---------------------------------------------------------------------
  // GetVarByNameAndGUID

  /** The loop of GetVarByNameAndGUID from index i on: the first variable
      whose name and GUID equal the query, or CouldNotLocate. */
  function ScanByNameAndGuid(vs: seq<Variable>, name: seq<CodeUnit>, guid: Guid, i: nat): (r: Result<Variable>)
    requires i <= |vs|
    decreases |vs| - i
  {
    if i == |vs| then Err(CouldNotLocate)
    else if vs[i].name == name && vs[i].guid == guid then Ok(vs[i])
    else ScanByNameAndGuid(vs, name, guid, i + 1)
  }

  /** GetVarByNameAndGUID: decode the enumeration buffer, then search it. */
  function GetVarByNameAndGuid(buffer: seq<Byte>, name: seq<CodeUnit>, guid: Guid): (r: Result<Variable>)
  {
    var vs :- GetAllVars(buffer);
    ScanByNameAndGuid(vs, name, guid, 0)
  }

  /** The scan from i finds the head of the matches among the elements
      from i on, or reports that there are none. */
  lemma {:induction false} ScanByNameAndGuidFrom(vs: seq<Variable>, name: seq<CodeUnit>, guid: Guid, i: nat)
    requires i <= |vs|
    ensures var f := Filter(vs[i..], NameAndGuidAre(name, guid));
      ScanByNameAndGuid(vs, name, guid, i) == if f == [] then Err(CouldNotLocate) else Ok(f[0])
    decreases |vs| - i
  {
    if i < |vs| {
      assert vs[i..][1..] == vs[i + 1..];
      ScanByNameAndGuidFrom(vs, name, guid, i + 1);
    }
  }

  /** What GetVarByNameAndGUID returns: an error decoding the buffer is
      passed on; otherwise it finds a variable exactly when one has the
      queried name and GUID, and then the first such one; otherwise it
      reports CouldNotLocate. */
  lemma GetVarByNameAndGuidFindsFirst(buffer: seq<Byte>, name: seq<CodeUnit>, guid: Guid)
    ensures GetAllVars(buffer).Err? ==> GetVarByNameAndGuid(buffer, name, guid) == Err(GetAllVars(buffer).error)
    ensures GetAllVars(buffer).Ok? ==>
      var vs := GetAllVars(buffer).value;
      var r := GetVarByNameAndGuid(buffer, name, guid);
      && (r.Ok? <==> exists i :: 0 <= i < |vs| && vs[i].name == name && vs[i].guid == guid)
      && (r.Err? ==> r.error == CouldNotLocate)
      && (r.Ok? ==> exists k :: 0 <= k < |vs| && vs[k].name == name && vs[k].guid == guid && r.value == vs[k]
                              && forall j :: 0 <= j < k ==> !(vs[j].name == name && vs[j].guid == guid))
  {
    if GetAllVars(buffer).Ok? {
      var vs := GetAllVars(buffer).value;
      var p := NameAndGuidAre(name, guid);
      assert vs[0..] == vs;
      ScanByNameAndGuidFrom(vs, name, guid, 0);
      FilterFirst(vs, p);
      if exists i :: 0 <= i < |vs| && vs[i].name == name && vs[i].guid == guid {
        var i :| 0 <= i < |vs| && vs[i].name == name && vs[i].guid == guid;
        assert p(vs[i]);
      }
    }
  }

  // ---------------------------------------------------------------------
  // GetVarByName

  /** What GetVarByName makes of the matches, given the match it already
      holds (strict mode only): without strict, the first; with strict, the
      single match, or MoreThanOneMatch when there are two; CouldNotLocate
      when there is none. */
  function Select(matches: seq<Variable>, strict: bool, held: Option<Variable>): (r: Result<Variable>)
  {
    if !strict then
      (if held.Some? then Ok(held.value)
       else if matches == [] then Err(CouldNotLocate)
       else Ok(matches[0]))
    else if held.Some? then
      (if matches == [] then Ok(held.value) else Err(MoreThanOneMatch))
    else if matches == [] then Err(CouldNotLocate)
    else if |matches| == 1 then Ok(matches[0])
    else Err(MoreThanOneMatch)
  }

  /** The loop of GetVarByName from index i on, holder being held: with
      each variable taken afresh, as the source intends, the strict search
      returns the one match it found. */
  function ScanByName(vs: seq<Variable>, name: seq<CodeUnit>, strict: bool, i: nat, held: Option<Variable>): (r: Result<Variable>)
    requires i <= |vs|
    decreases |vs| - i
  {
    if i == |vs| then
      (if held.Some? then Ok(held.value) else Err(CouldNotLocate))
    else if vs[i].name == name then
      if !strict then Ok(vs[i])
      else if held.Some? then Err(MoreThanOneMatch)
      else ScanByName(vs, name, strict, i + 1, Some(vs[i]))
    else ScanByName(vs, name, strict, i + 1, held)
  }

  /** The loop of GetVarByName as written, with the range variable shared
      by all iterations (Go before 1.22): `holder = &v` keeps the address of
      that variable, so after the loop it holds the last element of the
      list, whichever element matched. */
  function ScanByNameAliased(vs: seq<Variable>, name: seq<CodeUnit>, strict: bool, i: nat, found: bool): (r: Result<Variable>)
    requires i <= |vs| && (found ==> i > 0)
    decreases |vs| - i
  {
    if i == |vs| then
      (if found then Ok(vs[|vs| - 1]) else Err(CouldNotLocate))
    else if vs[i].name == name then
      if !strict then Ok(vs[i])
      else if found then Err(MoreThanOneMatch)
      else ScanByNameAliased(vs, name, strict, i + 1, true)
    else ScanByNameAliased(vs, name, strict, i + 1, found)
  }

  /** GetVarByName, corrected: decode the buffer, then search it. */
  function GetVarByName(buffer: seq<Byte>, name: seq<CodeUnit>, strict: bool): (r: Result<Variable>)
  {
    var vs :- GetAllVars(buffer);
    ScanByName(vs, name, strict, 0, None)
  }

  /** GetVarByName as written. */
  function GetVarByNameAsWritten(buffer: seq<Byte>, name: seq<CodeUnit>, strict: bool): (r: Result<Variable>)
  {
    var vs :- GetAllVars(buffer);
    ScanByNameAliased(vs, name, strict, 0, false)
  }

  /** The scan from i selects among the matches from i on; outside strict
      mode nothing is ever held. */
  lemma {:induction false} ScanByNameFrom(vs: seq<Variable>, name: seq<CodeUnit>, strict: bool, i: nat, held: Option<Variable>)
    requires i <= |vs| && (!strict ==> held == None)
    ensures ScanByName(vs, name, strict, i, held) == Select(Filter(vs[i..], NameIs(name)), strict, held)
    decreases |vs| - i
  {
    if i < |vs| {
      assert vs[i..][1..] == vs[i + 1..];
      var rest := Filter(vs[i + 1..], NameIs(name));
      if vs[i].name == name {
        assert Filter(vs[i..], NameIs(name)) == [vs[i]] + rest;
        if strict && held.None? {
          ScanByNameFrom(vs, name, strict, i + 1, Some(vs[i]));
        }
      } else {
        ScanByNameFrom(vs, name, strict, i + 1, held);
      }
    }
  }

  /** The shared-variable scan agrees with the corrected one except where
      the corrected strict search succeeds: there it returns the last
      element of the list. */
  lemma {:induction false} ScanByNameAliasedFrom(vs: seq<Variable>, name: seq<CodeUnit>, strict: bool, i: nat, held: Option<Variable>)
    requires i <= |vs| && (held.Some? ==> i > 0) && (!strict ==> held == None)
    ensures var c := ScanByName(vs, name, strict, i, held);
      ScanByNameAliased(vs, name, strict, i, held.Some?)
        == if strict && c.Ok? then Ok(vs[|vs| - 1]) else c
    decreases |vs| - i
  {
    if i < |vs| {
      if vs[i].name == name {
        if strict && held.None? {
          ScanByNameAliasedFrom(vs, name, strict, i + 1, Some(vs[i]));
        }
      } else {
        ScanByNameAliasedFrom(vs, name, strict, i + 1, held);
      }
    }
  }

  /** What the corrected GetVarByName returns: an error decoding the buffer
      is passed on; no variable with the name gives CouldNotLocate in both
      modes; otherwise the non-strict search returns the first variable
      with the name, and the strict one MoreThanOneMatch when two have it
      and the only one otherwise. In all, it is what Select makes of the
      variables with the name. */
  lemma GetVarByNameSelects(buffer: seq<Byte>, name: seq<CodeUnit>, strict: bool)
    ensures GetAllVars(buffer).Err? ==> GetVarByName(buffer, name, strict) == Err(GetAllVars(buffer).error)
    ensures GetAllVars(buffer).Ok? ==>
      var vs := GetAllVars(buffer).value;
      var r := GetVarByName(buffer, name, strict);
      && ((forall i :: 0 <= i < |vs| ==> vs[i].name != name) <==> r == Err(CouldNotLocate))
      && (strict ==> ((exists i, j :: 0 <= i < j < |vs| && vs[i].name == name && vs[j].name == name)
                        <==> r == Err(MoreThanOneMatch)))
      && (r.Ok? ==> exists k :: 0 <= k < |vs| && vs[k].name == name && r.value == vs[k]
                              && forall j :: 0 <= j < k ==> vs[j].name != name)
      && ((exists i :: 0 <= i < |vs| && vs[i].name == name)
          && !(strict && exists i, j :: 0 <= i < j < |vs| && vs[i].name == name && vs[j].name == name)
          ==> r.Ok?)
      && r == Select(Filter(vs, NameIs(name)), strict, None)
  {
    if GetAllVars(buffer).Ok? {
      var vs := GetAllVars(buffer).value;
      var p := NameIs(name);
      assert vs[0..] == vs;
      ScanByNameFrom(vs, name, strict, 0, None);
      FilterFirst(vs, p);
      FilterTwo(vs, p);
      assert forall i :: 0 <= i < |vs| ==> (p(vs[i]) <==> vs[i].name == name);
    }
  }

  /** The strict search as written returns the last variable of the list
      whenever the corrected one succeeds, and agrees with it otherwise. */
  lemma GetVarByNameAsWrittenReturnsLast(buffer: seq<Byte>, name: seq<CodeUnit>, strict: bool)
    ensures var c := GetVarByName(buffer, name, strict);
      GetVarByNameAsWritten(buffer, name, strict)
        == if strict && c.Ok? then Ok(GetAllVars(buffer).value[|GetAllVars(buffer).value| - 1]) else c
  {
    if GetAllVars(buffer).Ok? {
      ScanByNameAliasedFrom(GetAllVars(buffer).value, name, strict, 0, None);
    }
  }

  /** Two variables, only the first named "A": the strict search as
      written returns the second, the corrected one the first. */
  lemma StrictLookupReturnsWrongVariable()
    ensures var g: Guid := seq(16, i => 0);
      var a := Variable(g, [0x41], [1], 7);
      var b := Variable(g, [0x42], [2], 7);
      && ScanByNameAliased([a, b], [0x41], true, 0, false) == Ok(b)
      && ScanByName([a, b], [0x41], true, 0, None) == Ok(a)
      && a != b
  {
    var g: Guid := seq(16, i => 0);
    var a := Variable(g, [0x41], [1], 7);
    var b := Variable(g, [0x42], [2], 7);
    var vs := [a, b];
    assert ScanByNameAliased(vs, [0x41], true, 1, true) == ScanByNameAliased(vs, [0x41], true, 2, true) == Ok(b);
    assert ScanByName(vs, [0x41], true, 1, Some(a)) == ScanByName(vs, [0x41], true, 2, Some(a)) == Ok(a);
  }

  // ---------------------------------------------------------------------
  // setRawValueForVar

  /** winUnicodeString: byte length, maximal byte length and the code
      units, terminator included. */
  datatype UnicodeString = UnicodeString(length: nat, maxLength: nat, buffer: seq<CodeUnit>)

  /** The arguments of NtSetSystemEnvironmentValueEx. */
  datatype SetRequest = SetRequest(name: UnicodeString, guid: WindowsGuid, value: seq<Byte>, attributes: nat)

  /** getWindowsUnicodeString: the name with a NUL terminator; its byte
      length is truncated to 16 bits. A NUL inside the name is refused. */
  function WindowsUnicodeString(name: seq<CodeUnit>): (r: Result<UnicodeString>)
  {
    if 0 in name then Err(NulInName)
    else
      var units := name + [0];
      var length := (2 * |units|) % 0x1_0000;
      Ok(UnicodeString(length, length, units))
  }

  /** The request setRawValueForVar sends for v: the name string, the GUID
      split into its fields, and the value and attributes as given. Taking
      the address of the first byte of an empty value panics. */
  function SetRequestFor(v: Variable, value: seq<Byte>, attributes: nat): (r: Result<SetRequest>)
  {
    var name :- WindowsUnicodeString(v.name);
    var guid := GetWindowsGuid(v.guid);
    if |value| == 0 then Err(IndexOutOfRange)
    else Ok(SetRequest(name, guid, value, attributes))
  }

  /** setRawValueForVar, with status the code the system call returns for
      the request: any code but 0 is a failure. */
  function SetRawValueForVar(v: Variable, value: seq<Byte>, attributes: nat, status: nat): (r: Result<()>)
  {
    var request :- SetRequestFor(v, value, attributes);
    if status != 0 then Err(SystemCallFailed(status)) else Ok(())
  }

  /** What the request carries: it is refused for a name holding a NUL,
      then for an empty value; otherwise its name is the variable's name
      terminated by a NUL, with twice as many bytes as code units modulo
      2^16, its GUID fields convert back to the variable's GUID, and value
      and attributes are those given. */
  lemma SetRequestCarries(v: Variable, value: seq<Byte>, attributes: nat)
    ensures var r := SetRequestFor(v, value, attributes);
      && (r.Ok? <==> 0 !in v.name && |value| > 0)
      && (0 in v.name ==> r == Err(NulInName))
      && (0 !in v.name && |value| == 0 ==> r == Err(IndexOutOfRange))
      && (r.Ok? ==>
            && r.value.name.buffer[..|v.name|] == v.name
            && |r.value.name.buffer| == |v.name| + 1
            && r.value.name.buffer[|v.name|] == 0
            && r.value.name.length == r.value.name.maxLength == (2 * |v.name| + 2) % 0x1_0000
            && GuidFromBytes(NativeBytes(r.value.guid)) == v.guid
            && r.value.value == value && r.value.attributes == attributes)
  {
    var units := v.name + [0];
    assert units[..|v.name|] == v.name;
  }

  /** The set succeeds exactly when the request can be built and the system
      call reports 0; a failing code is passed on. */
  lemma SetRawValueForVarOutcome(v: Variable, value: seq<Byte>, attributes: nat, status: nat)
    ensures var req := SetRequestFor(v, value, attributes);
      var r := SetRawValueForVar(v, value, attributes, status);
      && (r.Ok? <==> req.Ok? && status == 0)
      && (req.Err? ==> r == Err(req.error))
      && (req.Ok? && status != 0 ==> r == Err(SystemCallFailed(status)))
  {
  }
}
