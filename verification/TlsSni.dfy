/** The server name in a TLS ClientHello: the offset-driven parser against the message grammar. */
module TlsSni {
  import opened Prelude

  const TLS_HANDSHAKE := 0x16
  const TLS_CLIENT_HELLO := 0x01
  const TLS_EXT_SERVER_NAME := 0
  const MAX_SNI_LEN := 253

  /** `Panic` is the thread's panic on a slice that runs past the end. */
  datatype Sni = Panic | NoName | Name(name: Bytes)

  // --------------------------------------------------- what the parser computes

  function SniOfExtension(ext: Bytes): Sni
  {
    if |ext| < 5 then NoName
    else
      var listLen := BeU16(ext[0], ext[1]);
      if listLen < 3 || listLen > |ext| then NoName
      else if ext[2] != 0 then NoName
      else
        var nameLen := BeU16(ext[3], ext[4]);
        if nameLen == 0 || nameLen > MAX_SNI_LEN || 5 + nameLen > 2 + listLen then NoName
        else if 5 + nameLen > |ext| then Panic
        else Name(ext[5..5 + nameLen])
  }

  /** The extension loop from `off` to the end of the extension block. */
  function Walk(p: Bytes, off: nat, end: nat): Sni
    requires end <= |p|
    decreases end - off
  {
    if off + 4 > end then NoName
    else
      var next := off + 4 + BeU16(p[off + 2], p[off + 3]);
      if next > end then NoName
      else if BeU16(p[off], p[off + 1]) == TLS_EXT_SERVER_NAME then SniOfExtension(p[off + 4..next])
      else Walk(p, next, end)
  }

  /** Just past a vector with a one-byte length, if it is all there. */
  function Skip8(p: Bytes, off: nat): Option<nat>
  {
    if off >= |p| || off + 1 + p[off] > |p| then None else Some(off + 1 + p[off])
  }

  /** Just past a vector with a two-byte length, if it is all there. */
  function Skip16(p: Bytes, off: nat): Option<nat>
  {
    if off + 1 >= |p| || off + 2 + BeU16(p[off], p[off + 1]) > |p| then None
    else Some(off + 2 + BeU16(p[off], p[off + 1]))
  }

  predicate IsClientHelloHead(p: Bytes)
  {
    |p| >= 43 && p[0] == TLS_HANDSHAKE && p[1] == 0x03 && p[5] == TLS_CLIENT_HELLO
  }

  /** Offset of the length field of the extension block. */
  function BlockOffset(p: Bytes): Option<nat>
  {
    if !IsClientHelloHead(p) then None
    else
      var ciphers := Skip8(p, 43);
      if ciphers.None? then None
      else
        var compression := Skip16(p, ciphers.value);
        if compression.None? then None else Skip8(p, compression.value)
  }

  function SniOf(p: Bytes): Sni
  {
    var block := BlockOffset(p);
    if block.None? || Skip16(p, block.value).None? then NoName
    else Walk(p, block.value + 2, Skip16(p, block.value).value)
  }

  // ------------------------------------------------------------- the parser

  method ParseSniExtension(ext: Bytes) returns (r: Sni)
    ensures r == SniOfExtension(ext)
  {
    if |ext| < 5 { return NoName; }
    var listLen := BeU16(ext[0], ext[1]);
    if listLen < 3 || listLen > |ext| { return NoName; }
    var off := 2;
    var listEnd := off + listLen;
    if off + 3 > listEnd { return NoName; }
    if ext[off] != 0 { return NoName; }
    var nameLen := BeU16(ext[off + 1], ext[off + 2]);
    off := off + 3;
    if nameLen == 0 || nameLen > MAX_SNI_LEN || off + nameLen > listEnd { return NoName; }
    if off + nameLen > |ext| { return Panic; }
    return Name(ext[off..off + nameLen]);
  }

  method ParseTlsSni(payload: Bytes) returns (r: Sni)
    ensures r == SniOf(payload)
  {
    hide SniOfExtension, BeU16;
    if |payload| < 43 || payload[0] != TLS_HANDSHAKE || payload[1] != 0x03 { return NoName; }
    var hsOff := 5;
    if payload[hsOff] != TLS_CLIENT_HELLO { return NoName; }
    var off: nat := hsOff + 4 + 34;

    if off >= |payload| { return NoName; }
    var sessionIdLen := payload[off];
    off := off + 1;
    if off + sessionIdLen > |payload| { return NoName; }
    off := off + sessionIdLen;

    if off + 1 >= |payload| { return NoName; }
    var cipherLen := BeU16(payload[off], payload[off + 1]);
    off := off + 2;
    if off + cipherLen > |payload| { return NoName; }
    off := off + cipherLen;

    if off >= |payload| { return NoName; }
    var compLen := payload[off];
    off := off + 1;
    if off + compLen > |payload| { return NoName; }
    off := off + compLen;

    if off + 1 >= |payload| { return NoName; }
    var extTotalLen := BeU16(payload[off], payload[off + 1]);
    off := off + 2;
    var extEnd := off + extTotalLen;
    if extEnd > |payload| { return NoName; }

    assert Walk(payload, off, extEnd) == SniOf(payload);
    hide SniOf;
    while off + 4 <= extEnd
      invariant Walk(payload, off, extEnd) == SniOf(payload)
      decreases extEnd - off
    {
      var extType := BeU16(payload[off], payload[off + 1]);
      var extLen := BeU16(payload[off + 2], payload[off + 3]);
      off := off + 4;
      if off + extLen > extEnd { break; }
      if extType == TLS_EXT_SERVER_NAME {
        r := ParseSniExtension(payload[off..off + extLen]);
        return;
      }
      off := off + extLen;
    }
    return NoName;
  }

  // ------------------------------------------------------------ the grammar

  datatype Extension = Extension(typ: u16, data: Bytes)

  datatype ClientHello = ClientHello(
    minor: u8, version: Bytes, random: Bytes,
    session: Bytes, ciphers: Bytes, compression: Bytes, extensions: seq<Extension>)

  function Vec8(v: Bytes): Bytes { [|v| % 0x100] + v }

  function Vec16(v: Bytes): Bytes { U16Bytes(|v|) + v }

  function ExtensionBytes(e: Extension): Bytes { U16Bytes(e.typ) + Vec16(e.data) }

  function ExtensionsBytes(es: seq<Extension>): Bytes
  {
    if es == [] then [] else ExtensionBytes(es[0]) + ExtensionsBytes(es[1..])
  }

  predicate Fit(es: seq<Extension>) { forall e :: e in es ==> |e.data| < 0x1_0000 }

  /** The message's vectors fit their length fields. */
  predicate WellFormed(h: ClientHello)
  {
    && |h.version| == 2 && |h.random| == 32
    && |h.session| < 0x100 && |h.ciphers| < 0x1_0000 && |h.compression| < 0x100
    && Fit(h.extensions) && |ExtensionsBytes(h.extensions)| < 0x1_0000
  }

  function Vectors(session: Bytes, ciphers: Bytes, compression: Bytes, block: Bytes): Bytes
  {
    Vec8(session) + Vec16(ciphers) + Vec8(compression) + Vec16(block)
  }

  /** Record and handshake headers, version and random; lengths are cut to their fields as the casts do. */
  function Head(h: ClientHello, vectorsLen: nat): Bytes
  {
    var bodyLen := |h.version| + |h.random| + vectorsLen;
    [0x16, 0x03, h.minor] + U16Bytes(bodyLen + 4)
    + [0x01, bodyLen / 0x1_0000 % 0x100] + U16Bytes(bodyLen)
    + h.version + h.random
  }

  function Serialize(h: ClientHello): Bytes
  {
    var vectors := Vectors(h.session, h.ciphers, h.compression, ExtensionsBytes(h.extensions));
    Head(h, |vectors|) + vectors
  }

  /** What the first server_name extension says. */
  function FirstSni(es: seq<Extension>): Sni
  {
    if es == [] then NoName
    else if es[0].typ == 0 then SniOfExtension(es[0].data)
    else FirstSni(es[1..])
  }

  // -------------------------------------------------- from message to answer

  lemma Skip8At(pre: Bytes, v: Bytes, post: Bytes)
    requires |v| < 0x100
    ensures Skip8(pre + Vec8(v) + post, |pre|) == Some(|pre| + |Vec8(v)|)
  {
    assert (pre + Vec8(v) + post)[|pre|] == Vec8(v)[0];
  }

  lemma Skip16At(pre: Bytes, v: Bytes, post: Bytes)
    requires |v| < 0x1_0000
    ensures Skip16(pre + Vec16(v) + post, |pre|) == Some(|pre| + |Vec16(v)|)
  {
    var p := pre + Vec16(v) + post;
    assert p[|pre|] == Vec16(v)[0] && p[|pre| + 1] == Vec16(v)[1];
    U16BytesRoundTrip(|v|);
  }

  lemma Regroup(head: Bytes, s: Bytes, c: Bytes, m: Bytes, b: Bytes, rest: Bytes)
    ensures var p := head + (s + c + m + b) + rest;
            && p == head + s + (c + m + b + rest)
            && p == (head + s) + c + (m + b + rest)
            && p == (head + s + c) + m + (b + rest)
            && p == (head + s + c + m) + b + rest
  {
  }

  /** The offsets of a message whose vectors fit. */
  lemma BlockOffsetAt(head: Bytes, session: Bytes, ciphers: Bytes, compression: Bytes, block: Bytes, rest: Bytes)
    requires |head| == 43 && IsClientHelloHead(head)
    requires |session| < 0x100 && |ciphers| < 0x1_0000 && |compression| < 0x100 && |block| < 0x1_0000
    ensures var p := head + Vectors(session, ciphers, compression, block) + rest;
            var pre := head + Vec8(session) + Vec16(ciphers) + Vec8(compression);
            && |Vec16(block)| == 2 + |block|
            && p == pre + Vec16(block) + rest
            && SniOf(p) == Walk(p, |pre| + 2, |pre| + 2 + |block|)
  {
    hide Skip8, Skip16, Walk, IsClientHelloHead;
    var p := head + Vectors(session, ciphers, compression, block) + rest;
    var s, c, m, b := Vec8(session), Vec16(ciphers), Vec8(compression), Vec16(block);
    HeadKept(head, Vectors(session, ciphers, compression, block) + rest);
    assert p == head + (Vectors(session, ciphers, compression, block) + rest);
    hide Vec8, Vec16;
    Regroup(head, s, c, m, b, rest);
    Skip8At(head, session, c + m + b + rest);
    Skip16At(head + s, ciphers, m + b + rest);
    Skip8At(head + s + c, compression, b + rest);
    Skip16At(head + s + c + m, block, rest);
  }

  lemma HeadKept(head: Bytes, more: Bytes)
    requires IsClientHelloHead(head)
    ensures IsClientHelloHead(head + more)
  {
  }

  lemma Middle(pre: Bytes, b: Bytes, post: Bytes)
    ensures (pre + b + post)[|pre|..|pre| + |b|] == b
    ensures forall j :: 0 <= j < |b| ==> (pre + b + post)[|pre| + j] == b[j]
  {
  }

  lemma ExtensionShape(e: Extension)
    requires |e.data| < 0x1_0000
    ensures var b := ExtensionBytes(e);
            && |b| == 4 + |e.data| && b[4..] == e.data
            && BeU16(b[0], b[1]) == e.typ && BeU16(b[2], b[3]) == |e.data|
  {
    U16BytesRoundTrip(e.typ);
    U16BytesRoundTrip(|e.data|);
  }

  lemma ExtensionFieldsAt(pre: Bytes, e: Extension, post: Bytes)
    requires |e.data| < 0x1_0000
    ensures var p, i := pre + ExtensionBytes(e) + post, |pre|;
            && |ExtensionBytes(e)| == 4 + |e.data|
            && BeU16(p[i], p[i + 1]) == e.typ
            && BeU16(p[i + 2], p[i + 3]) == |e.data|
            && p[i + 4..i + 4 + |e.data|] == e.data
  {
    hide ExtensionBytes;
    var p, i, b := pre + ExtensionBytes(e) + post, |pre|, ExtensionBytes(e);
    ExtensionShape(e);
    Middle(pre, b, post);
    assert p[i + 4..i + |b|] == b[4..];
    assert p[i + 0] == b[0];
  }

  lemma WalkStep(p: Bytes, pre: Bytes, e: Extension, post: Bytes, end: nat)
    requires p == pre + ExtensionBytes(e) + post && |e.data| < 0x1_0000
    requires |pre| + |ExtensionBytes(e)| <= end <= |p|
    ensures Walk(p, |pre|, end) == if e.typ == 0 then SniOfExtension(e.data)
                                   else Walk(p, |pre + ExtensionBytes(e)|, end)
  {
    hide SniOfExtension, ExtensionBytes;
    ExtensionFieldsAt(pre, e, post);
  }

  /** The loop steps over complete extensions of other types. */
  lemma {:induction false} WalkSkips(p: Bytes, pre: Bytes, es: seq<Extension>, post: Bytes, end: nat)
    requires Fit(es) && forall e :: e in es ==> e.typ != 0
    requires p == pre + ExtensionsBytes(es) + post
    requires |pre| + |ExtensionsBytes(es)| <= end <= |p|
    ensures Walk(p, |pre|, end) == Walk(p, |pre| + |ExtensionsBytes(es)|, end)
    decreases |es|
  {
    hide Walk, ExtensionBytes;
    if es != [] {
      var e, more := ExtensionBytes(es[0]), ExtensionsBytes(es[1..]);
      assert es[0] in es;
      assert p == pre + e + (more + post) && p == (pre + e) + more + post;
      WalkStep(p, pre, es[0], more + post, end);
      WalkSkips(p, pre + e, es[1..], post, end);
    }
  }

  /** The loop answers at the first server_name extension. */
  lemma WalkFinds(p: Bytes, pre: Bytes, skipped: seq<Extension>, e: Extension, post: Bytes, end: nat)
    requires Fit(skipped) && |e.data| < 0x1_0000 && e.typ == 0
    requires forall f :: f in skipped ==> f.typ != 0
    requires p == pre + ExtensionsBytes(skipped) + ExtensionBytes(e) + post
    requires |pre| + |ExtensionsBytes(skipped)| + |ExtensionBytes(e)| <= end <= |p|
    ensures Walk(p, |pre|, end) == SniOfExtension(e.data)
  {
    hide SniOfExtension, Walk, ExtensionBytes, ExtensionsBytes;
    var s := ExtensionsBytes(skipped);
    assert p == pre + s + (ExtensionBytes(e) + post);
    WalkSkips(p, pre, skipped, ExtensionBytes(e) + post, end);
    WalkStep(p, pre + s, e, post, end);
  }

  lemma {:induction false} ExtensionsConcat(es: seq<Extension>, fs: seq<Extension>)
    ensures ExtensionsBytes(es + fs) == ExtensionsBytes(es) + ExtensionsBytes(fs)
  {
    hide ExtensionBytes, ExtensionsBytes;
    NoExtensions();
    if es == [] {
      assert es + fs == fs;
    } else {
      ExtensionsConcat(es[1..], fs);
      ConsExtensions(es[0], es[1..]);
      ConsExtensions(es[0], es[1..] + fs);
      assert es == [es[0]] + es[1..] && es + fs == [es[0]] + (es[1..] + fs);
    }
  }

  /** Splits a list at its first server_name extension. */
  lemma {:induction false} SplitAtFirst(es: seq<Extension>) returns (skipped: seq<Extension>)
    ensures skipped <= es && forall e :: e in skipped ==> e.typ != 0
    ensures |skipped| < |es| ==> es[|skipped|].typ == 0
                                 && FirstSni(es) == SniOfExtension(es[|skipped|].data)
    ensures |skipped| == |es| ==> FirstSni(es) == NoName
  {
    if es == [] || es[0].typ == 0 {
      skipped := [];
    } else {
      var rest := SplitAtFirst(es[1..]);
      skipped := [es[0]] + rest;
      assert es == [es[0]] + es[1..];
    }
  }

  /** Parsing a serialized message, whatever follows it, gives its first server_name extension's answer. */
  lemma RoundTrip(h: ClientHello, trailing: Bytes)
    requires WellFormed(h)
    ensures SniOf(Serialize(h) + trailing) == FirstSni(h.extensions)
  {
    hide SniOf, SniOfExtension, Walk, Head, Vec8, FirstSni, ExtensionsBytes;
    var block := ExtensionsBytes(h.extensions);
    var vectors := Vectors(h.session, h.ciphers, h.compression, block);
    var head := Head(h, |vectors|);
    HeadShape(h, |vectors|);
    BlockOffsetAt(head, h.session, h.ciphers, h.compression, block, trailing);
    var pre := head + Vec8(h.session) + Vec16(h.ciphers) + Vec8(h.compression);
    WalkBlock(Serialize(h) + trailing, pre + U16Bytes(|block|), h.extensions, trailing);
  }

  lemma HeadShape(h: ClientHello, n: nat)
    requires |h.version| == 2 && |h.random| == 32
    ensures |Head(h, n)| == 43 && IsClientHelloHead(Head(h, n))
  {
  }

  lemma WalkEnds(p: Bytes, end: nat)
    requires end <= |p|
    ensures Walk(p, end, end) == NoName
  {
  }

  lemma WalkBlock(p: Bytes, pre: Bytes, es: seq<Extension>, post: Bytes)
    requires Fit(es) && p == pre + ExtensionsBytes(es) + post
    ensures Walk(p, |pre|, |pre| + |ExtensionsBytes(es)|) == FirstSni(es)
  {
    hide SniOfExtension, FirstSni, ExtensionBytes, Walk, ExtensionsBytes;
    var skipped := SplitAtFirst(es);
    var n, end := |skipped|, |pre| + |ExtensionsBytes(es)|;
    assert skipped == es[..n];
    if n == |es| {
      WalkSkips(p, pre, es, post, end);
      WalkEnds(p, end);
    } else {
      var more := ExtensionsBytes(es[n + 1..]);
      SplitBytes(es, n);
      RegroupBlock(pre, ExtensionsBytes(skipped), ExtensionBytes(es[n]), more, post);
      WalkFinds(p, pre, skipped, es[n], more + post, end);
    }
  }

  lemma RegroupBlock(pre: Bytes, s: Bytes, e: Bytes, more: Bytes, post: Bytes)
    ensures pre + (s + e + more) + post == pre + s + e + (more + post)
  {
  }

  lemma SplitBytes(es: seq<Extension>, n: nat)
    requires n < |es|
    ensures ExtensionsBytes(es) == ExtensionsBytes(es[..n]) + ExtensionBytes(es[n]) + ExtensionsBytes(es[n + 1..])
  {
    hide ExtensionBytes;
    assert es == es[..n] + es[n..] && es[n..] == [es[n]] + es[n + 1..];
    ExtensionsConcat(es[..n], es[n..]);
    ConsExtensions(es[n], es[n + 1..]);
  }

  // -------------------------------------------------- from answer to message

  /** How a payload with an answer is made up. */
  datatype Parts = Parts(
    head: Bytes, session: Bytes, ciphers: Bytes, compression: Bytes,
    skipped: seq<Extension>, data: Bytes, after: Bytes, trailing: Bytes)

  function BlockOf(d: Parts): Bytes
  {
    ExtensionsBytes(d.skipped) + ExtensionBytes(Extension(0, d.data)) + d.after
  }

  /**
   * Fixed header, three vectors, and an extension block: complete extensions of other types, then a
   * server_name extension, then bytes of the block that do not matter.
   */
  ghost predicate MadeOf(p: Bytes, d: Parts)
  {
    && |d.head| == 43 && d.head[0] == 0x16 && d.head[1] == 0x03 && d.head[5] == 0x01
    && |d.session| < 0x100 && |d.ciphers| < 0x1_0000 && |d.compression| < 0x100
    && Fit(d.skipped) && (forall e :: e in d.skipped ==> e.typ != 0)
    && |d.data| < 0x1_0000 && |BlockOf(d)| < 0x1_0000
    && p == d.head + Vectors(d.session, d.ciphers, d.compression, BlockOf(d)) + d.trailing
  }

  lemma HeadIs(head: Bytes)
    ensures IsClientHelloHead(head) <==> |head| >= 43 && head[0] == 0x16 && head[1] == 0x03 && head[5] == 0x01
  {
  }

  lemma MadeOfAnswers(p: Bytes, d: Parts)
    requires MadeOf(p, d)
    ensures SniOf(p) == SniOfExtension(d.data)
  {
    hide SniOf, SniOfExtension, Walk, Vec8, ExtensionBytes, ExtensionsBytes, IsClientHelloHead;
    HeadIs(d.head);
    var block := BlockOf(d);
    BlockOffsetAt(d.head, d.session, d.ciphers, d.compression, block, d.trailing);
    var pre := d.head + Vec8(d.session) + Vec16(d.ciphers) + Vec8(d.compression) + U16Bytes(|block|);
    var e := Extension(0, d.data);
    assert p == pre + ExtensionsBytes(d.skipped) + ExtensionBytes(e) + (d.after + d.trailing);
    WalkFinds(p, pre, d.skipped, e, d.after + d.trailing, |pre| + |block|);
  }

  lemma Skip8Splits(p: Bytes, off: nat)
    requires Skip8(p, off).Some?
    ensures var next := Skip8(p, off).value;
            && off < next <= |p| && next - off - 1 < 0x100
            && p[off..next] == Vec8(p[off + 1..next])
  {
  }

  lemma Skip16Splits(p: Bytes, off: nat)
    requires Skip16(p, off).Some?
    ensures var next := Skip16(p, off).value;
            && off + 2 <= next <= |p| && next - off - 2 < 0x1_0000
            && p[off..next] == Vec16(p[off + 2..next])
  {
    BeU16Bytes(p[off], p[off + 1]);
  }

  /** An answer of the loop comes from complete other extensions, then a server_name extension. */
  lemma {:induction false} WalkSplits(p: Bytes, off: nat, end: nat)
    returns (skipped: seq<Extension>, data: Bytes, after: Bytes)
    requires end <= |p| && Walk(p, off, end) != NoName
    ensures off <= end && Walk(p, off, end) == SniOfExtension(data)
    ensures Fit(skipped) && forall e :: e in skipped ==> e.typ != 0
    ensures |data| < 0x1_0000
    ensures p[off..end] == ExtensionsBytes(skipped) + ExtensionBytes(Extension(0, data)) + after
    decreases end - off
  {
    hide SniOfExtension, ExtensionBytes, ExtensionsBytes, BeU16, U16Bytes;
    var typ, next := BeU16(p[off], p[off + 1]), off + 4 + BeU16(p[off + 2], p[off + 3]);
    var e := Extension(typ, p[off + 4..next]);
    ExtensionSplits(p, off);
    assert p[off..end] == p[off..next] + p[next..end];
    if typ == 0 {
      skipped, data, after := [], e.data, p[next..end];
      NoExtensions();
    } else {
      var rest;
      rest, data, after := WalkSplits(p, next, end);
      skipped := [e] + rest;
      ConsExtensions(e, rest);
    }
  }

  lemma NoExtensions()
    ensures ExtensionsBytes([]) == []
  {
  }

  lemma ConsExtensions(e: Extension, es: seq<Extension>)
    ensures ExtensionsBytes([e] + es) == ExtensionBytes(e) + ExtensionsBytes(es)
  {
    assert ([e] + es)[1..] == es;
  }

  lemma ExtensionSplits(p: Bytes, off: nat)
    requires off + 4 <= |p| && off + 4 + BeU16(p[off + 2], p[off + 3]) <= |p|
    ensures var next := off + 4 + BeU16(p[off + 2], p[off + 3]);
            p[off..next] == ExtensionBytes(Extension(BeU16(p[off], p[off + 1]), p[off + 4..next]))
  {
    BeU16Bytes(p[off], p[off + 1]);
    BeU16Bytes(p[off + 2], p[off + 3]);
  }

  /** Whenever the parser answers, or panics, the payload is made of a message with that extension. */
  lemma AnswerIsMadeOf(p: Bytes) returns (d: Parts)
    requires SniOf(p) != NoName
    ensures MadeOf(p, d) && SniOf(p) == SniOfExtension(d.data)
  {
    hide SniOfExtension, Walk, Skip8, Skip16;
    var a := Skip8(p, 43).value;
    var b := Skip16(p, a).value;
    var c := Skip8(p, b).value;
    var end := Skip16(p, c).value;
    Skip8Splits(p, 43);
    Skip16Splits(p, a);
    Skip8Splits(p, b);
    Skip16Splits(p, c);
    var skipped, data, after := WalkSplits(p, c + 2, end);
    d := Parts(p[..43], p[44..a], p[a + 2..b], p[b + 1..c], skipped, data, after, p[end..]);
    assert BlockOf(d) == p[c + 2..end];
    hide Vec8, Vec16, ExtensionBytes, ExtensionsBytes;
    Slices(p, a, b, c, end);
  }

  lemma Slices(p: Bytes, a: nat, b: nat, c: nat, end: nat)
    requires 43 <= a <= b <= c <= end <= |p|
    ensures p == p[..43] + (p[43..a] + p[a..b] + p[b..c] + p[c..end]) + p[end..]
  {
  }

  // -------------------------------------------------- the name in the extension

  /** The extension starts with a list whose first entry is the host name `n`, all of it in the extension. */
  ghost predicate NamesHost(data: Bytes, n: Bytes)
  {
    exists listLen: u16 :: ListStartsWith(data, n, listLen)
  }

  ghost predicate ListStartsWith(data: Bytes, n: Bytes, listLen: u16)
  {
    && 1 <= |n| <= 253
    && 3 + |n| <= listLen <= |data|
    && U16Bytes(listLen) + [0] + Vec16(n) <= data
  }

  lemma NamedIsListed(data: Bytes, n: Bytes)
    requires SniOfExtension(data) == Name(n)
    ensures NamesHost(data, n)
  {
    var listLen := BeU16(data[0], data[1]);
    BeU16Bytes(data[0], data[1]);
    BeU16Bytes(data[3], data[4]);
    hide BeU16, U16Bytes;
    assert U16Bytes(listLen) + [0] + Vec16(n) == data[..5 + |n|];
    assert ListStartsWith(data, n, listLen);
  }

  lemma ListedIsNamed(data: Bytes, n: Bytes, listLen: u16)
    requires ListStartsWith(data, n, listLen)
    ensures SniOfExtension(data) == Name(n)
  {
    var a, b := U16Bytes(listLen), U16Bytes(|n|);
    U16BytesRoundTrip(listLen);
    U16BytesRoundTrip(|n|);
    assert |a| == 2 && |b| == 2;
    hide BeU16, U16Bytes;
    var d := a + [0] + Vec16(n);
    assert d[0] == a[0] && d[1] == a[1] && d[2] == 0 && d[3] == b[0] && d[4] == b[1];
    assert data[0] == d[0] && data[1] == d[1] && data[2] == d[2] && data[3] == d[3] && data[4] == d[4];
    assert data[5..5 + |n|] == d[5..] == n;
  }

  lemma ExtensionNamesIff(data: Bytes, n: Bytes)
    ensures SniOfExtension(data) == Name(n) <==> NamesHost(data, n)
  {
    hide SniOfExtension, ListStartsWith;
    if SniOfExtension(data) == Name(n) { NamedIsListed(data, n); }
    if listLen: u16 :| ListStartsWith(data, n, listLen) { ListedIsNamed(data, n, listLen); }
  }

  /** The declared name ends inside the declared list but past the end of the extension. */
  predicate Overruns(data: Bytes)
  {
    && |data| >= 5
    && 3 <= BeU16(data[0], data[1]) <= |data|
    && data[2] == 0
    && 1 <= BeU16(data[3], data[4]) <= 253
    && |data| < 5 + BeU16(data[3], data[4]) <= 2 + BeU16(data[0], data[1])
  }

  /** Anything but a handshake record of version 3 with a ClientHello of at least 43 bytes goes unanswered. */
  lemma OnlyClientHellos(p: Bytes)
    ensures |p| < 43 || p[0] != 0x16 || p[1] != 0x03 || p[5] != 0x01 ==> SniOf(p) == NoName
  {
  }

  lemma ExtensionPanicsIff(data: Bytes)
    ensures SniOfExtension(data) == Panic <==> Overruns(data)
  {
  }

  /** With the list inside the extension, as the format requires, there is no panic. */
  lemma ListInsideNeverPanics(data: Bytes)
    requires |data| >= 2 && 2 + BeU16(data[0], data[1]) <= |data|
    ensures SniOfExtension(data) != Panic
  {
  }

  /** A message of 62 bytes whose one extension declares a list of six bytes and holds four of them. */
  function OverrunningHello(): ClientHello
  {
    ClientHello(0x01, [3, 3], seq(32, _ => 0), [], [0x13, 0x01], [0],
                [Extension(0, [0, 6, 0, 0, 3, 0x61])])
  }

  lemma PanicExample(trailing: Bytes)
    ensures WellFormed(OverrunningHello()) && |Serialize(OverrunningHello())| == 62
    ensures SniOf(Serialize(OverrunningHello()) + trailing) == Panic
  {
    var h := OverrunningHello();
    assert ExtensionsBytes(h.extensions[1..]) == [];
    RoundTrip(h, trailing);
    hide SniOf, Serialize;
    ExtensionPanicsIff(h.extensions[0].data);
  }

  /** The parser answers `n` exactly on payloads made of a message whose first server_name extension names `n`. */
  lemma NameIff(p: Bytes, n: Bytes)
    ensures SniOf(p) == Name(n) <==> exists d :: MadeOf(p, d) && NamesHost(d.data, n)
  {
    hide SniOf, SniOfExtension, MadeOf, NamesHost;
    if SniOf(p) == Name(n) {
      var d := AnswerIsMadeOf(p);
      ExtensionNamesIff(d.data, n);
    }
    if d :| MadeOf(p, d) && NamesHost(d.data, n) {
      MadeOfAnswers(p, d);
      ExtensionNamesIff(d.data, n);
    }
  }

  /** The parser panics exactly on payloads made of a message whose first server_name extension overruns. */
  lemma PanicIff(p: Bytes)
    ensures SniOf(p) == Panic <==> exists d :: MadeOf(p, d) && Overruns(d.data)
  {
    hide SniOf, SniOfExtension, MadeOf, Overruns;
    if SniOf(p) == Panic {
      var d := AnswerIsMadeOf(p);
      ExtensionPanicsIff(d.data);
    }
    if d :| MadeOf(p, d) && Overruns(d.data) {
      MadeOfAnswers(p, d);
      ExtensionPanicsIff(d.data);
    }
  }

  /** A message whose first server_name extension lists `n` first, and maybe more names, is answered with `n`. */
  lemma HostNameIsFound(h: ClientHello, i: nat, n: Bytes, more: Bytes, trailing: Bytes)
    requires WellFormed(h) && i < |h.extensions| && 1 <= |n| <= 253 && 3 + |n| + |more| < 0x1_0000
    requires forall j :: 0 <= j < i ==> h.extensions[j].typ != 0
    requires h.extensions[i] == Extension(0, Vec16([0] + Vec16(n) + more))
    ensures SniOf(Serialize(h) + trailing) == Name(n)
  {
    hide SniOf, SniOfExtension;
    RoundTrip(h, trailing);
    FirstSniAt(h.extensions, i);
    var list := [0] + Vec16(n) + more;
    assert Vec16(list) == U16Bytes(|list|) + [0] + Vec16(n) + more;
    assert ListStartsWith(Vec16(list), n, |list|);
    ExtensionNamesIff(Vec16(list), n);
  }

  lemma {:induction false} FirstSniAt(es: seq<Extension>, i: nat)
    requires i < |es| && es[i].typ == 0
    requires forall j :: 0 <= j < i ==> es[j].typ != 0
    ensures FirstSni(es) == SniOfExtension(es[i].data)
  {
    if i > 0 { FirstSniAt(es[1..], i - 1); }
  }
}
