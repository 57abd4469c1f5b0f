/** Filters on the name of the calling process: how they are built, compared and combined. */
module CommFilters {
  import opened Prelude
  import opened CStrings

  const MAX_EXEC_COMM_FILTERS := 32
  const COMM_MODE_ALLOW := 1
  const COMM_MODE_DENY := 2

  datatype CommFilter = CommFilter(comm: Bytes, enabled: u8)

  predicate IsComm(c: Bytes) { |c| == 16 }

  function Zeros(n: nat): Bytes { seq(n, _ => 0) }

  method BuildCommFilter(name: Bytes) returns (r: Result<CommFilter, string>)
    ensures r.Ok? <==> 1 <= |name| <= 15
    ensures r.Ok? ==> r.value == CommFilter(name + Zeros(16 - |name|), 1)
  {
    if name == [] { return Err("comm filter must not be empty"); }
    if |name| > MAX_COMM_LEN - 1 { return Err("comm filter too long"); }
    var comm := new u8[MAX_COMM_LEN](_ => 0);
    for i := 0 to |name|
      invariant comm[..i] == name[..i]
      invariant forall j :: i <= j < MAX_COMM_LEN ==> comm[j] == 0
    {
      comm[i] := name[i];
    }
    assert comm[..] == name + Zeros(MAX_COMM_LEN - |name|);
    return Ok(CommFilter(comm[..], 1));
  }

  /** The comparison of the kprobe programs. */
  method CommMatches(filter: Bytes, comm: Bytes) returns (r: bool)
    requires IsComm(filter) && IsComm(comm)
    ensures r <==> CStr(filter) <= comm
  {
    for i := 0 to MAX_COMM_LEN
      invariant i <= |CStr(filter)| && filter[..i] == comm[..i]
    {
      if filter[i] == 0 { break; }
      assert i < |CStr(filter)| by { CStrEndsAtNul(filter, i); }
      if filter[i] != comm[i] { return false; }
    }
    assert CStr(filter) == filter[..|CStr(filter)|];
    assert forall j :: 0 <= j < |CStr(filter)| ==> CStr(filter)[j] == filter[j];
    return true;
  }

  /** The comparison of the exec program. */
  method CommEq(filter: Bytes, comm: Bytes) returns (r: bool)
    requires IsComm(filter) && IsComm(comm)
    ensures r <==> CStr(filter) <= comm
  {
    var i := 0;
    while i < MAX_COMM_LEN
      invariant 0 <= i <= MAX_COMM_LEN && i <= |CStr(filter)| && filter[..i] == comm[..i]
    {
      var a := filter[i];
      if a == 0 {
        assert forall j :: 0 <= j < |CStr(filter)| ==> CStr(filter)[j] == filter[j];
        return true;
      }
      assert i < |CStr(filter)| by { CStrEndsAtNul(filter, i); }
      if a != comm[i] { return false; }
      i := i + 1;
    }
    assert forall j :: 0 <= j < |CStr(filter)| ==> CStr(filter)[j] == filter[j];
    return true;
  }

  lemma CStrEndsAtNul(buf: Bytes, i: nat)
    requires i <= |CStr(buf)| && i < |buf| && buf[i] != 0
    ensures i < |CStr(buf)|
  {
  }

  ghost predicate Listed(filters: seq<CommFilter>, count: nat, comm: Bytes)
  {
    exists i :: 0 <= i < count && i < |filters| && filters[i].enabled != 0 && CStr(filters[i].comm) <= comm
  }

  /** The exec program's decision. `None` stands for a map entry that is not there. */
  method PassesCommFilter(count: Option<u32>, mode: Option<u32>, filters: seq<CommFilter>, comm: Bytes)
    returns (pass: bool)
    requires IsComm(comm) && |filters| == 32 && forall f :: f in filters ==> IsComm(f.comm)
    ensures count.None? || count.value == 0 ==> pass
    ensures count.Some? && count.value > 0 ==>
              pass == if mode == Some(2) then !Listed(filters, count.value, comm)
                      else Listed(filters, count.value, comm)
  {
    if count.None? { return true; }
    if count.value == 0 { return true; }
    var m := if mode.None? then COMM_MODE_ALLOW else mode.value;
    var matched := false;
    var i := 0;
    while i < MAX_EXEC_COMM_FILTERS
      invariant 0 <= i <= MAX_EXEC_COMM_FILTERS && !matched
      invariant forall j :: 0 <= j < i && j < count.value ==>
                  filters[j].enabled == 0 || !(CStr(filters[j].comm) <= comm)
    {
      if i >= count.value { break; }
      assert filters[i] in filters;
      if filters[i].enabled != 0 {
        var eq := CommEq(filters[i].comm, comm);
        if eq {
          matched := true;
          break;
        }
      }
      i := i + 1;
    }
    pass := if m == COMM_MODE_DENY then !matched else matched;
  }

  // --------------------------------------------------------- what it amounts to

  ghost predicate Accepted(name: Bytes) { 1 <= |name| <= 15 && 0 !in name }

  /** A built filter compares as a prefix test with its name, cut at the name's first NUL. */
  lemma BuiltComparesPrefix(name: Bytes)
    requires |name| <= 15
    ensures IsComm(name + Zeros(16 - |name|))
    ensures CStr(name + Zeros(16 - |name|)) == CStr(name)
    ensures 0 !in name ==> CStr(name) == name
  {
    CStrIs(name + Zeros(16 - |name|), CStr(name));
    if 0 !in name { CStrIs(name, name); }
  }

  /** The filter table after the loader stored one filter per name; what was there before stays behind them. */
  ghost predicate Stored(filters: seq<CommFilter>, names: seq<Bytes>)
  {
    && |names| <= |filters| == 32
    && forall i :: 0 <= i < |names| ==>
         Accepted(names[i]) && filters[i] == CommFilter(names[i] + Zeros(16 - |names[i]|), 1)
  }

  /** With the stored names, a process is listed exactly when some name is a prefix of its comm. */
  lemma ListedIffSomePrefix(filters: seq<CommFilter>, names: seq<Bytes>, comm: Bytes)
    requires Stored(filters, names)
    ensures Listed(filters, |names|, comm) <==> exists name :: name in names && name <= comm
  {
    forall i | 0 <= i < |names|
      ensures CStr(filters[i].comm) == names[i]
    {
      BuiltComparesPrefix(names[i]);
    }
    if Listed(filters, |names|, comm) {
      var i :| 0 <= i < |names| && CStr(filters[i].comm) <= comm;
      assert names[i] in names;
    }
    if name :| name in names && name <= comm {
      var i :| 0 <= i < |names| && names[i] == name;
      assert CStr(filters[i].comm) <= comm;
    }
  }

  /** A prefix of the buffer is a prefix of the process name. */
  lemma PrefixOfName(name: Bytes, comm: Bytes)
    requires 0 !in name
    ensures name <= comm <==> name <= CStr(comm)
  {
    if name <= comm { CStrIsLongest(comm, name); }
  }

  /** The comparison is the documented exact one except on processes whose name properly extends the filter's. */
  lemma ExactIff(name: Bytes, comm: Bytes)
    requires Accepted(name) && IsComm(comm)
    ensures ((CStr(name + Zeros(16 - |name|)) <= comm) <==> CStr(comm) == name)
            <==> !(name < CStr(comm))
  {
    BuiltComparesPrefix(name);
    PrefixOfName(name, comm);
  }

  /** "ba" is taken for "bash". */
  lemma PrefixIsNotExact()
    ensures var bash := [0x62, 0x61, 0x73, 0x68] + Zeros(12);
            IsComm(bash) && CStr([0x62, 0x61] + Zeros(14)) <= bash && CStr(bash) != [0x62, 0x61]
  {
    var bash := [0x62, 0x61, 0x73, 0x68] + Zeros(12);
    CStrIs(bash, [0x62, 0x61, 0x73, 0x68]);
    CStrIs([0x62, 0x61] + Zeros(14), [0x62, 0x61]);
  }
}
