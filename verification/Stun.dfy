/** Bounds-checked frame reads and the two STUN recognisers, in the kernel and in userspace. */
module Stun {
  import opened Prelude

  const STUN_HDR_LEN := 20
  const STUN_MAGIC_COOKIE := 0x2112A442
  const STUN_PORT := 3478
  const IPV4_HDR_LEN := 20

  /** An XDP frame: its bytes, and the address at which the kernel placed the first of them. */
  datatype Ctx = Ctx(data: nat, bytes: Bytes) {
    function DataEnd(): nat { data + |bytes| }

    /** `ptr_at` then a read of one byte; `None` is the error return. */
    function ReadU8(offset: nat): Option<u8>
    {
      if data + offset + 1 > DataEnd() then None else Some(bytes[offset])
    }

    function ReadU16(offset: nat): Option<u16>
    {
      var hi, lo := ReadU8(offset), ReadU8(offset + 1);
      if hi.None? || lo.None? then None else Some(BeU16(hi.value, lo.value))
    }

    function ReadU32(offset: nat): Option<u32>
    {
      var a, b, c, d := ReadU8(offset), ReadU8(offset + 1), ReadU8(offset + 2), ReadU8(offset + 3);
      if a.None? || b.None? || c.None? || d.None? then None
      else Some(BeU32(a.value, b.value, c.value, d.value))
    }
  }

  predicate IsBindingType(msgType: u16)
  {
    msgType == 0x0001 || msgType == 0x0011 || msgType == 0x0101 || msgType == 0x0111
  }

  /** Userspace `is_stun_binding_message`, on the payload of one datagram. */
  predicate IsStunBindingMessage(payload: Bytes, srcPort: u16, dstPort: u16)
  {
    if |payload| < STUN_HDR_LEN then false
    else if !IsBindingType(BeU16(payload[0], payload[1])) then false
    else
      var msgLen := BeU16(payload[2], payload[3]);
      if msgLen > |payload| - STUN_HDR_LEN then false
      else
        var cookie := BeU32(payload[4], payload[5], payload[6], payload[7]);
        cookie == STUN_MAGIC_COOKIE || ((srcPort == STUN_PORT || dstPort == STUN_PORT) && msgLen <= 256)
  }

  /** Length of the IPv4 header in bytes, from the low four bits of its first byte. */
  function HeaderLen(first: u8): nat { first % 0x10 * 4 }

  /** Kernel `is_stun_message`; `None` is the error return. Two bounds compare an offset with an address. */
  function IsStunMessage(ctx: Ctx, ipOff: nat): Option<bool>
  {
    var first := ctx.ReadU8(ipOff);
    if first.None? then None
    else
      var ihl := HeaderLen(first.value);
      if ihl < IPV4_HDR_LEN then Some(false)
      else
        var udpOff := ipOff + ihl;
        if udpOff + 8 > ctx.DataEnd() then Some(false)
        else
          var udpLen := ctx.ReadU16(udpOff + 4);
          if udpLen.None? then None
          else if udpLen.value < 8 then Some(false)
          else IsStunPayload(ctx, udpOff, udpLen.value - 8)
  }

  function IsStunPayload(ctx: Ctx, udpOff: nat, payloadLen: nat): Option<bool>
  {
    var payloadOff := udpOff + 8;
    if payloadLen < STUN_HDR_LEN || payloadOff + payloadLen > ctx.DataEnd() then Some(false)
    else
      var msgType := ctx.ReadU16(payloadOff);
      if msgType.None? then None
      else if !IsBindingType(msgType.value) then Some(false)
      else
        var msgLen := ctx.ReadU16(payloadOff + 2);
        if msgLen.None? then None
        else if msgLen.value > payloadLen - STUN_HDR_LEN then Some(false)
        else
          var cookie := ctx.ReadU32(payloadOff + 4);
          if cookie.None? then None
          else if cookie.value == STUN_MAGIC_COOKIE then Some(true)
          else
            var srcPort, dstPort := ctx.ReadU16(udpOff), ctx.ReadU16(udpOff + 2);
            if srcPort.None? || dstPort.None? then None
            else Some((srcPort.value == STUN_PORT || dstPort.value == STUN_PORT) && msgLen.value <= 256)
  }

  /** The frame holds the UDP header that follows an IPv4 header of the declared length. */
  predicate HasUdpHeader(ctx: Ctx, ipOff: nat)
  {
    && ipOff < |ctx.bytes|
    && ctx.bytes[ipOff] % 0x10 >= 5
    && UdpOffset(ctx, ipOff) + 8 <= |ctx.bytes|
  }

  function UdpOffset(ctx: Ctx, ipOff: nat): nat
    requires ipOff < |ctx.bytes|
  {
    ipOff + 4 * (ctx.bytes[ipOff] % 0x10)
  }

  function U16At(bytes: Bytes, i: nat): u16
    requires i + 1 < |bytes|
  {
    BeU16(bytes[i], bytes[i + 1])
  }

  function U32At(bytes: Bytes, i: nat): u32
    requires i + 3 < |bytes|
  {
    BeU32(bytes[i], bytes[i + 1], bytes[i + 2], bytes[i + 3])
  }

  function UdpLen(ctx: Ctx, ipOff: nat): u16
    requires HasUdpHeader(ctx, ipOff)
  {
    U16At(ctx.bytes, UdpOffset(ctx, ipOff) + 4)
  }

  /** The frame holds every byte the UDP length field declares, at least the UDP header. */
  predicate ContainsDatagram(ctx: Ctx, ipOff: nat)
    requires HasUdpHeader(ctx, ipOff)
  {
    UdpLen(ctx, ipOff) >= 8 && UdpOffset(ctx, ipOff) + UdpLen(ctx, ipOff) <= |ctx.bytes|
  }

  /**
   * The userspace check in plain numbers: at least 20 bytes, a Binding type (method 1, either class bit free), a
   * length that fits, and either the magic cookie or, with a length of at most 256, port 3478 on one side.
   */
  lemma UserStunIff(payload: Bytes, srcPort: u16, dstPort: u16)
    ensures IsStunBindingMessage(payload, srcPort, dstPort) <==>
              && |payload| >= 20
              && payload[0] in {0x00, 0x01} && payload[1] in {0x01, 0x11}
              && 20 + 0x100 * (payload[2] as int) + payload[3] <= |payload|
              && (|| payload[4..8] == [0x21, 0x12, 0xA4, 0x42]
                  || ((srcPort == 3478 || dstPort == 3478) && 0x100 * (payload[2] as int) + payload[3] <= 256))
  {
    if |payload| >= 20 {
      BindingTypeIff(BeU16(payload[0], payload[1]));
      CookieBytes(payload[4], payload[5], payload[6], payload[7]);
      assert payload[4..8] == [payload[4], payload[5], payload[6], payload[7]];
    }
  }

  /** The four types are the words with method 1 and any of the two class bits 4 and 8. */
  lemma BindingTypeIff(w: u16)
    ensures IsBindingType(w) <==> exists indication, response :: 0 <= indication <= 1 && 0 <= response <= 1
                                                                 && w == 1 + 0x10 * indication + 0x100 * response
    ensures IsBindingType(w) <==> w in {0x0001, 0x0011, 0x0101, 0x0111}
  {
    assert 0x0001 == 1 + 0x10 * 0 + 0x100 * 0 && 0x0011 == 1 + 0x10 * 1 + 0x100 * 0;
    assert 0x0101 == 1 + 0x10 * 0 + 0x100 * 1 && 0x0111 == 1 + 0x10 * 1 + 0x100 * 1;
  }

  lemma CookieBytes(a: u8, b: u8, c: u8, d: u8)
    ensures BeU32(a, b, c, d) == 0x2112A442 <==> [a, b, c, d] == [0x21, 0x12, 0xA4, 0x42]
  {
    assert BeU32(a, b, c, d) == BeU16(a, b) * 0x1_0000 + BeU16(c, d);
  }

  /**
   * Some field that the frame holds speaks against STUN. Each field is judged by itself as soon as its bytes
   * are there; the two bounds are those of the source, which compare an offset with the address of the end.
   */
  predicate SpeaksAgainst(ctx: Ctx, ipOff: nat)
    requires ipOff < |ctx.bytes|
  {
    var bytes, udp := ctx.bytes, UdpOffset(ctx, ipOff);
    || bytes[ipOff] % 0x10 < 5
    || udp + 8 > ctx.DataEnd()
    || (udp + 6 <= |bytes| && PayloadSpeaksAgainst(ctx, udp, U16At(bytes, udp + 4)))
  }

  /** The same for what follows the UDP length `len`. */
  predicate PayloadSpeaksAgainst(ctx: Ctx, udp: nat, len: nat)
  {
    var bytes := ctx.bytes;
    || len < 28
    || udp + len > ctx.DataEnd()
    || (udp + 10 <= |bytes| && U16At(bytes, udp + 8) !in {0x0001, 0x0011, 0x0101, 0x0111})
    || (udp + 12 <= |bytes| && U16At(bytes, udp + 10) + 28 > len)
    || (udp + 16 <= |bytes| && U32At(bytes, udp + 12) != 0x2112A442
        && !((U16At(bytes, udp) == 3478 || U16At(bytes, udp + 2) == 3478) && U16At(bytes, udp + 10) <= 256))
  }

  lemma Reads(ctx: Ctx, off: nat)
    ensures ctx.ReadU8(off) == if off + 1 <= |ctx.bytes| then Some(ctx.bytes[off]) else None
    ensures ctx.ReadU16(off) == if off + 2 <= |ctx.bytes| then Some(U16At(ctx.bytes, off)) else None
    ensures ctx.ReadU32(off) == if off + 4 <= |ctx.bytes| then Some(U32At(ctx.bytes, off)) else None
  {
  }

  lemma PayloadAnswerIff(ctx: Ctx, udp: nat, len: nat)
    requires udp + 6 <= |ctx.bytes| && len >= 8
    ensures var r, whole := IsStunPayload(ctx, udp, len - 8), udp + 16 <= |ctx.bytes|;
            && (r == Some(false) <==> PayloadSpeaksAgainst(ctx, udp, len))
            && (r == Some(true) <==> whole && !PayloadSpeaksAgainst(ctx, udp, len))
            && (r == None <==> !whole && !PayloadSpeaksAgainst(ctx, udp, len))
  {
    Reads(ctx, udp);
    Reads(ctx, udp + 2);
    Reads(ctx, udp + 8);
    Reads(ctx, udp + 10);
    Reads(ctx, udp + 12);
    hide BeU16, BeU32, U16At, U32At;
  }

  /**
   * On every frame: no exactly when a field that is there speaks against STUN; yes exactly when none does and
   * the cookie's last byte is there; an error exactly when none does and the frame ends before that.
   */
  lemma AnswerIff(ctx: Ctx, ipOff: nat)
    ensures ipOff >= |ctx.bytes| ==> IsStunMessage(ctx, ipOff) == None
    ensures ipOff < |ctx.bytes| ==>
              var whole := UdpOffset(ctx, ipOff) + 16 <= |ctx.bytes|;
              && (IsStunMessage(ctx, ipOff) == Some(false) <==> SpeaksAgainst(ctx, ipOff))
              && (IsStunMessage(ctx, ipOff) == Some(true) <==> whole && !SpeaksAgainst(ctx, ipOff))
              && (IsStunMessage(ctx, ipOff) == None <==> !whole && !SpeaksAgainst(ctx, ipOff))
  {
    hide IsStunPayload, PayloadSpeaksAgainst;
    Reads(ctx, ipOff);
    if ipOff < |ctx.bytes| {
      var udp := UdpOffset(ctx, ipOff);
      Reads(ctx, udp + 4);
      if udp + 6 <= |ctx.bytes| {
        ShortLength(ctx, udp, U16At(ctx.bytes, udp + 4));
        if U16At(ctx.bytes, udp + 4) >= 8 { PayloadAnswerIff(ctx, udp, U16At(ctx.bytes, udp + 4)); }
      }
    }
  }

  lemma ShortLength(ctx: Ctx, udp: nat, len: nat)
    ensures len < 8 ==> PayloadSpeaksAgainst(ctx, udp, len)
  {
  }

  /** On a frame that holds the whole datagram the kernel check is the userspace check of its payload. */
  lemma KernelAgreesWithUserspace(ctx: Ctx, ipOff: nat)
    requires HasUdpHeader(ctx, ipOff) && ContainsDatagram(ctx, ipOff)
    ensures var udp, len := UdpOffset(ctx, ipOff), UdpLen(ctx, ipOff);
            IsStunMessage(ctx, ipOff) ==
            Some(IsStunBindingMessage(ctx.bytes[udp + 8..udp + len], U16At(ctx.bytes, udp), U16At(ctx.bytes, udp + 2)))
  {
    var udp, len := UdpOffset(ctx, ipOff), UdpLen(ctx, ipOff);
    var payload := ctx.bytes[udp + 8..udp + len];
    AnswerIff(ctx, ipOff);
    hide IsStunMessage, BeU16, BeU32;
    if len >= 28 {
      assert U16At(ctx.bytes, udp + 8) == BeU16(payload[0], payload[1]);
      assert U16At(ctx.bytes, udp + 10) == BeU16(payload[2], payload[3]);
      assert U32At(ctx.bytes, udp + 12) == BeU32(payload[4], payload[5], payload[6], payload[7]);
    }
  }

  /** The kernel check of a whole datagram, in plain numbers. */
  lemma KernelStunIff(ctx: Ctx, ipOff: nat)
    requires HasUdpHeader(ctx, ipOff) && ContainsDatagram(ctx, ipOff)
    ensures var udp, len := ipOff + 4 * (ctx.bytes[ipOff] % 0x10), UdpLen(ctx, ipOff);
            IsStunMessage(ctx, ipOff) == Some(true) <==>
              && len >= 28
              && ctx.bytes[udp + 8] in {0x00, 0x01} && ctx.bytes[udp + 9] in {0x01, 0x11}
              && 28 + U16At(ctx.bytes, udp + 10) <= len
              && (|| ctx.bytes[udp + 12..udp + 16] == [0x21, 0x12, 0xA4, 0x42]
                  || ((U16At(ctx.bytes, udp) == 3478 || U16At(ctx.bytes, udp + 2) == 3478)
                      && U16At(ctx.bytes, udp + 10) <= 256))
  {
    var udp, len := UdpOffset(ctx, ipOff), UdpLen(ctx, ipOff);
    var payload := ctx.bytes[udp + 8..udp + len];
    KernelAgreesWithUserspace(ctx, ipOff);
    UserStunIff(payload, U16At(ctx.bytes, udp), U16At(ctx.bytes, udp + 2));
    hide IsStunMessage, IsStunBindingMessage;
    if len >= 28 {
      assert payload[4..8] == ctx.bytes[udp + 12..udp + 16];
      assert payload[0] == ctx.bytes[udp + 8] && payload[1] == ctx.bytes[udp + 9];
      assert payload[2] == ctx.bytes[udp + 10] && payload[3] == ctx.bytes[udp + 11];
    }
  }

  /** The frame holds a whole datagram, and userspace takes its payload for STUN. */
  predicate StunForUser(ctx: Ctx, ipOff: nat)
  {
    && HasUdpHeader(ctx, ipOff) && ContainsDatagram(ctx, ipOff)
    && var udp, len := UdpOffset(ctx, ipOff), UdpLen(ctx, ipOff);
       IsStunBindingMessage(ctx.bytes[udp + 8..udp + len], U16At(ctx.bytes, udp), U16At(ctx.bytes, udp + 2))
  }

  /**
   * The frame ends before the datagram does, both bounds that should notice compare with an address beyond it,
   * and nothing that is left of the datagram speaks against STUN.
   */
  predicate CutUnnoticed(ctx: Ctx, ipOff: nat)
  {
    && ipOff < |ctx.bytes|
    && (UdpOffset(ctx, ipOff) + 8 > |ctx.bytes|
        || UdpOffset(ctx, ipOff) + U16At(ctx.bytes, UdpOffset(ctx, ipOff) + 4) > |ctx.bytes|)
    && !SpeaksAgainst(ctx, ipOff)
  }

  /** The kernel fails to say no exactly on userspace STUN and on unnoticed cuts. */
  lemma NotRefusedIff(ctx: Ctx, ipOff: nat)
    requires ipOff < |ctx.bytes|
    ensures IsStunMessage(ctx, ipOff) != Some(false) <==> StunForUser(ctx, ipOff) || CutUnnoticed(ctx, ipOff)
  {
    hide IsStunMessage, IsStunBindingMessage;
    AnswerIff(ctx, ipOff);
    if HasUdpHeader(ctx, ipOff) && ContainsDatagram(ctx, ipOff) {
      KernelAgreesWithUserspace(ctx, ipOff);
    }
  }

  /** Compared with the frame's length, as with a frame at address zero, the bounds notice every cut. */
  lemma LengthBoundsNotice(ctx: Ctx, ipOff: nat)
    requires ctx.data == 0
    ensures !CutUnnoticed(ctx, ipOff)
  {
  }

  /** A 50-byte cut of a datagram that declares 1000 bytes is taken for STUN when the frame sits high in memory. */
  lemma CutShortExample(data: nat, filler: Bytes)
    requires data >= 0x1_0000 && |filler| == 14
    ensures var ip := [0x45] + seq(19, _ => 0);
            var udp := [0, 1, 0, 2, 0x03, 0xE8, 0, 0];
            var stun := [0, 1, 0, 0, 0x21, 0x12, 0xA4, 0x42];
            var ctx := Ctx(data, filler + ip + udp + stun);
            IsStunMessage(ctx, 14) == Some(true) && HasUdpHeader(ctx, 14) && !ContainsDatagram(ctx, 14)
  {
    var ip := [0x45] + seq(19, _ => 0);
    var udp := [0, 1, 0, 2, 0x03, 0xE8, 0, 0];
    var stun := [0, 1, 0, 0, 0x21, 0x12, 0xA4, 0x42];
    var ctx := Ctx(data, filler + ip + udp + stun);
    var pre, tail := filler + ip, udp + stun;
    assert ctx.bytes == pre + tail && |pre| == 34 && pre[14] == 0x45;
    assert ctx.bytes[14] == pre[14] && ctx.bytes[34..] == tail;
    FieldsOfTail(ctx.bytes, tail);
    hide *;
    CutFrameIsStun(ctx);
  }

  lemma CutFrameIsStun(ctx: Ctx)
    requires ctx.data >= 0x1_0000 && |ctx.bytes| == 50 && ctx.bytes[14] == 0x45
    requires U16At(ctx.bytes, 38) == 1000 && U16At(ctx.bytes, 42) == 1 && U16At(ctx.bytes, 44) == 0
    requires U32At(ctx.bytes, 46) == 0x2112A442
    ensures IsStunMessage(ctx, 14) == Some(true) && HasUdpHeader(ctx, 14) && !ContainsDatagram(ctx, 14)
  {
    hide IsStunMessage, U16At, U32At;
    assert UdpOffset(ctx, 14) == 34;
    AnswerIff(ctx, 14);
  }

  lemma FieldsOfTail(bytes: Bytes, tail: Bytes)
    requires tail == [0, 1, 0, 2, 0x03, 0xE8, 0, 0] + [0, 1, 0, 0, 0x21, 0x12, 0xA4, 0x42]
    requires |bytes| == 50 && bytes[34..] == tail
    ensures U16At(bytes, 38) == 1000 && U16At(bytes, 42) == 1 && U16At(bytes, 44) == 0
    ensures U32At(bytes, 46) == 0x2112A442
  {
    assert tail[4] == 3 && tail[5] == 0xE8;
    assert bytes[38] == tail[4] && bytes[39] == tail[5];
    assert bytes[42] == tail[8] && bytes[43] == tail[9] && bytes[44] == tail[10] && bytes[45] == tail[11];
    assert bytes[46] == tail[12] && bytes[47] == tail[13] && bytes[48] == tail[14] && bytes[49] == tail[15];
  }
}
