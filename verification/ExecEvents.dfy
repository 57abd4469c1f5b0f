/** Exec events from the kernel's scratch buffer to the userspace reader. */
module ExecEvents {
  import opened Prelude
  import opened CStrings

  const MAX_EXEC_CMD_LEN := 96
  const MAX_EXEC_ARGS_LEN := 192
  const MAX_ARGV := 3
  const ARG_CHUNK := 32
  const EVENT_SIZE := 312

  /** What the kernel finds in one argv slot. */
  datatype Arg = SlotFault | NullPointer | StringFault | Chunk(bytes: Bytes)

  /** A string read returns at most a chunk of bytes, without the NUL. */
  predicate FromProbe(s: Bytes, limit: nat) { |s| <= limit && 0 !in s }

  predicate ArgFromProbe(a: Arg) { a.Chunk? ==> FromProbe(a.bytes, 32) }

  // ----------------------------------------------------------- argv packing

  /** The chunks before the first slot that is null, unreadable or empty. */
  function Taken(argv: seq<Arg>): seq<Bytes>
  {
    if argv == [] || !argv[0].Chunk? || argv[0].bytes == [] then []
    else [argv[0].bytes] + Taken(argv[1..])
  }

  function JoinSpaces(chunks: seq<Bytes>): Bytes
  {
    if chunks == [] then []
    else if |chunks| == 1 then chunks[0]
    else JoinSpaces(chunks[..|chunks| - 1]) + [0x20] + chunks[|chunks| - 1]
  }

  /** What `read_argv` is to leave in the args field. */
  function Packed(argv: seq<Arg>): Bytes { JoinSpaces(Taken(argv)) }

  predicate IsWord(a: Arg) { a.Chunk? && a.bytes != [] }

  /** Of three slots: nothing, or the chunks up to the first slot without one, a space between neighbours. */
  lemma PackedOfThree(argv: seq<Arg>)
    requires |argv| == 3
    ensures Packed(argv) ==
            if !IsWord(argv[0]) then []
            else if !IsWord(argv[1]) then argv[0].bytes
            else if !IsWord(argv[2]) then argv[0].bytes + [0x20] + argv[1].bytes
            else argv[0].bytes + [0x20] + argv[1].bytes + [0x20] + argv[2].bytes
  {
    TakenStep(argv, 0);
    TakenStep(argv, 1);
    TakenStep(argv, 2);
    assert argv[0..] == argv && argv[3..] == [];
    var a, b, c := argv[0], argv[1], argv[2];
    assert Taken([]) == [];
    assert Taken(argv) == if !IsWord(a) then [] else if !IsWord(b) then [a.bytes] else if !IsWord(c) then [a.bytes, b.bytes]
                          else [a.bytes, b.bytes, c.bytes];
    hide Taken;
    if IsWord(a) && IsWord(b) {
      assert [a.bytes, b.bytes] == [a.bytes] + [b.bytes];
      JoinSpacesSnoc([a.bytes], b.bytes);
      if IsWord(c) {
        assert [a.bytes, b.bytes, c.bytes] == [a.bytes, b.bytes] + [c.bytes];
        JoinSpacesSnoc([a.bytes, b.bytes], c.bytes);
      }
    }
  }

  lemma JoinSpacesSnoc(chunks: seq<Bytes>, c: Bytes)
    ensures JoinSpaces(chunks + [c]) == JoinSpaces(chunks) + (if chunks == [] then [] else [0x20]) + c
  {
    assert (chunks + [c])[..|chunks|] == chunks;
  }

  lemma TakenStep(argv: seq<Arg>, ai: nat)
    requires ai < |argv|
    ensures argv[ai].Chunk? && argv[ai].bytes != [] ==> Taken(argv[ai..]) == [argv[ai].bytes] + Taken(argv[ai + 1..])
    ensures !(argv[ai].Chunk? && argv[ai].bytes != []) ==> Taken(argv[ai..]) == []
  {
    assert argv[ai..][1..] == argv[ai + 1..];
  }

  /** Copies a chunk to `off`, byte by byte, as far as the field reaches. */
  method CopyChunk(tmp: Bytes, out: array<u8>, off: nat) returns (off': nat)
    requires |tmp| <= 32 && off <= out.Length == 192
    modifies out
    ensures off' == if off + |tmp| <= 192 then off + |tmp| else 192
    ensures out[..off'] == old(out[..off]) + tmp[..off' - off] && out[off'..] == old(out[off'..])
  {
    off' := off;
    var j := 0;
    while j < ARG_CHUNK
      invariant 0 <= j <= |tmp| && off' == off + j <= MAX_EXEC_ARGS_LEN
      invariant out[..off'] == old(out[..off]) + tmp[..j] && out[off'..] == old(out[off'..])
    {
      if j >= |tmp| { break; }
      if off' >= MAX_EXEC_ARGS_LEN { break; }
      ghost var before := out[..off'];
      out[off'] := tmp[j];
      assert out[..off' + 1] == before + [tmp[j]] && tmp[..j + 1] == tmp[..j] + [tmp[j]];
      off' := off' + 1;
      j := j + 1;
    }
  }

  /** Fills `out` with the packed arguments and a NUL; bytes from 99 on stay as they were. */
  method ReadArgv(argv: seq<Arg>, out: array<u8>)
    requires |argv| == 3 && out.Length == 192
    requires forall a :: a in argv ==> ArgFromProbe(a)
    modifies out
    ensures |Packed(argv)| <= 98
    ensures out[..|Packed(argv)| + 1] == Packed(argv) + [0]
    ensures out[99..] == old(out[99..])
    ensures CStr(out[..]) == Packed(argv)
  {
    hide JoinSpaces, Taken, CStr;
    ghost var done: seq<Bytes> := [];
    NothingTaken(argv);
    var off := 0;
    var ai := 0;
    while ai < MAX_ARGV
      invariant 0 <= ai <= MAX_ARGV && Taken(argv) == done + Taken(argv[ai..])
      invariant (done == [] <==> ai == 0) && if ai == 0 then off == 0 else 0 < off < 33 * ai
      invariant out[..off] == JoinSpaces(done) && 0 !in out[..off]
      invariant out[99..] == old(out[99..])
    {
      TakenStep(argv, ai);
      assert argv[ai] in argv;
      if !argv[ai].Chunk? { break; }
      var tmp := argv[ai].bytes;
      if |tmp| == 0 { break; }
      JoinSpacesSnoc(done, tmp);
      if off > 0 {
        if off >= MAX_EXEC_ARGS_LEN { break; }
        out[off] := 0x20;
        off := off + 1;
      }
      assert out[..off] == JoinSpaces(done) + if done == [] then [] else [0x20];
      off := CopyChunk(tmp, out, off);
      assert out[..off] == JoinSpaces(done + [tmp]);
      assert done + ([tmp] + Taken(argv[ai + 1..])) == (done + [tmp]) + Taken(argv[ai + 1..]);
      done := done + [tmp];
      if off >= MAX_EXEC_ARGS_LEN { break; }
      ai := ai + 1;
    }
    NothingLeft(argv, ai, done);
    if off < MAX_EXEC_ARGS_LEN { out[off] := 0; }
    assert out[..off + 1] == JoinSpaces(done) + [0];
    CStrIs(out[..], JoinSpaces(done));
  }

  lemma NothingTaken(argv: seq<Arg>)
    ensures argv[0..] == argv && [] + Taken(argv) == Taken(argv) && JoinSpaces([]) == []
  {
  }

  lemma NothingLeft(argv: seq<Arg>, ai: nat, done: seq<Bytes>)
    requires ai <= |argv| && Taken(argv) == done + Taken(argv[ai..])
    ensures Taken(argv[ai..]) == [] ==> Taken(argv) == done
    ensures ai == |argv| ==> Taken(argv[ai..]) == []
  {
  }

  // -------------------------------------------------------------- the event

  datatype ExecEvent = ExecEvent(pid: u32, pad: u32, comm: Bytes, cmd: Bytes, args: Bytes)

  predicate IsEvent(ev: ExecEvent)
  {
    |ev.comm| == 16 && |ev.cmd| == 96 && |ev.args| == 192
  }

  /** What the kernel finds behind the file name pointer. */
  datatype FileName = NoName | NameFault | FileName(bytes: Bytes)

  /** The per-CPU scratch event; every field is overwritten, the buffers only as far as needed. */
  class Scratch {
    var pid: u32
    var pad: u32
    const comm: array<u8>
    const cmd: array<u8>
    const args: array<u8>

    ghost predicate Valid()
    {
      && comm.Length == MAX_COMM_LEN && cmd.Length == MAX_EXEC_CMD_LEN && args.Length == MAX_EXEC_ARGS_LEN
      && comm != cmd && comm != args && cmd != args
    }

    function Event(): (ev: ExecEvent)
      requires Valid()
      reads this, comm, cmd, args
      ensures IsEvent(ev)
    {
      ExecEvent(pid, pad, comm[..], cmd[..], args[..])
    }

    constructor ()
      ensures Valid() && fresh(comm) && fresh(cmd) && fresh(args)
    {
      pid, pad := 0, 0;
      comm := new u8[MAX_COMM_LEN](_ => 0);
      cmd := new u8[MAX_EXEC_CMD_LEN](_ => 0);
      args := new u8[MAX_EXEC_ARGS_LEN](_ => 0);
    }

    /** Fills the event. What a reader of its strings sees does not depend on the previous contents. */
    method FillEvent(tgid: u32, name: Bytes, filename: FileName, argv: Option<seq<Arg>>)
      requires Valid() && |name| == 16
      requires filename.FileName? ==> FromProbe(filename.bytes, 95)
      requires argv.Some? ==> |argv.value| == 3 && forall a :: a in argv.value ==> ArgFromProbe(a)
      modifies this, comm, cmd, args
      ensures Event().pid == tgid && Event().pad == 0 && Event().comm == name
      ensures CStr(Event().cmd) == if filename.FileName? then filename.bytes else []
      ensures CStr(Event().args) == if argv.Some? then Packed(argv.value) else []
    {
      hide CStr, Packed;
      pid := tgid;
      pad := 0;
      cmd[0] := 0;
      args[0] := 0;
      var i := 0;
      while i < MAX_COMM_LEN
        invariant 0 <= i <= MAX_COMM_LEN && comm[..i] == name[..i]
        invariant cmd[0] == 0 && args[0] == 0 && pid == tgid && pad == 0
      {
        comm[i] := name[i];
        i := i + 1;
      }
      CStrIs(cmd[..], []);
      CStrIs(args[..], []);
      if filename.FileName? {
        ProbeRead(cmd, filename.bytes);
        CStrIs(cmd[..], filename.bytes);
      }
      if argv.Some? { ReadArgv(argv.value, args); }
    }
  }

  /** `bpf_probe_read_user_str_bytes` into a whole buffer: the string and its NUL. */
  method ProbeRead(buf: array<u8>, s: Bytes)
    requires buf.Length > 0 && FromProbe(s, buf.Length - 1)
    modifies buf
    ensures buf[..|s| + 1] == s + [0] && buf[|s| + 1..] == old(buf[|s| + 1..])
  {
    for i := 0 to |s|
      invariant buf[..i] == s[..i] && buf[|s| + 1..] == old(buf[|s| + 1..])
    {
      buf[i] := s[i];
    }
    buf[|s|] := 0;
  }

  // -------------------------------------------------------------- the sample

  /** The event's bytes in memory, in field order. */
  function EventBytes(ev: ExecEvent): Bytes
  {
    LeU32Bytes(ev.pid) + LeU32Bytes(ev.pad) + ev.comm + ev.cmd + ev.args
  }

  /** `read_unaligned` of an event. */
  function EventOf(raw: Bytes): (ev: ExecEvent)
    requires |raw| == 312
    ensures IsEvent(ev)
  {
    ExecEvent(BeU32(raw[3], raw[2], raw[1], raw[0]), BeU32(raw[7], raw[6], raw[5], raw[4]),
              raw[8..24], raw[24..120], raw[120..312])
  }

  lemma LeU32RoundTrip(n: u32)
    ensures var b := LeU32Bytes(n); BeU32(b[3], b[2], b[1], b[0]) == n
  {
  }

  lemma EventRoundTrip(ev: ExecEvent)
    requires IsEvent(ev)
    ensures |EventBytes(ev)| == 312 && EventOf(EventBytes(ev)) == ev
  {
    LeU32RoundTrip(ev.pid);
    LeU32RoundTrip(ev.pad);
    var p, q := LeU32Bytes(ev.pid), LeU32Bytes(ev.pad);
    assert |p| == 4 && |q| == 4;
    hide LeU32Bytes;
    var raw := p + q + ev.comm + ev.cmd + ev.args;
    assert raw[0] == p[0] && raw[1] == p[1] && raw[2] == p[2] && raw[3] == p[3];
    assert raw[4] == q[0] && raw[5] == q[1] && raw[6] == q[2] && raw[7] == q[3];
    assert raw[8..24] == ev.comm && raw[24..120] == ev.cmd && raw[120..312] == ev.args;
  }

  /** The sample arrives in two pieces; the answer depends on the first 312 bytes of the two together. */
  method ParseExecEvent(head: Bytes, tail: Bytes) returns (r: Option<ExecEvent>)
    ensures r == if |head + tail| < 312 then None else Some(EventOf((head + tail)[..312]))
  {
    hide EventOf;
    var need := EVENT_SIZE;
    if |head| + |tail| < need { return None; }
    var raw := new u8[EVENT_SIZE](_ => 0);
    var n := if |head| <= need then |head| else need;
    forall i | 0 <= i < n { raw[i] := head[i]; }
    if n < need {
      forall i | n <= i < need { raw[i] := tail[i - n]; }
    }
    assert raw[..] == (head + tail)[..EVENT_SIZE];
    r := Some(EventOf(raw[..]));
  }

  /** However the sample of an event, with any padding, is cut in two, the reader gets that event back. */
  lemma EverySplitDecodes(ev: ExecEvent, padding: Bytes, head: Bytes, tail: Bytes)
    requires IsEvent(ev) && head + tail == EventBytes(ev) + padding
    ensures |head + tail| >= 312 && EventOf((head + tail)[..312]) == ev
  {
    EventRoundTrip(ev);
    hide EventOf, EventBytes;
    assert (EventBytes(ev) + padding)[..EVENT_SIZE] == EventBytes(ev);
  }
}
