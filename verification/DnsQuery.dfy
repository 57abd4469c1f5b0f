/** The question of a DNS query: the label loop against the wire encoding of names. */
module DnsQuery {
  import opened Prelude

  const MAX_LABELS := 32

  /** A full stop, the separator of the joined domain. */
  const DOT: u8 := 0x2E

  type Label = Bytes

  datatype RecordKey = RecordKey(domain: Bytes, qtype: u16)

  // --------------------------------------------------- what the parser computes

  /** `labels.join(".")`. */
  function Join(labels: seq<Label>): Bytes
  {
    if labels == [] then []
    else if |labels| == 1 then labels[0]
    else labels[0] + [DOT] + Join(labels[1..])
  }

  /** The label loop: at most `fuel` rounds from `off`; the labels read and where it stopped. */
  function ReadLabels(pkt: Bytes, off: nat, fuel: nat): Option<(seq<Label>, nat)>
    decreases fuel
  {
    if fuel == 0 then Some(([], off))
    else if off >= |pkt| then None
    else
      var len := pkt[off];
      if len == 0 then Some(([], off + 1))
      else if len > 63 || off + 1 + len > |pkt| then None
      else
        var rest := ReadLabels(pkt, off + 1 + len, fuel - 1);
        if rest.None? then None
        else Some(([pkt[off + 1..off + 1 + len]] + rest.value.0, rest.value.1))
  }

  predicate IsQuery(payload: Bytes)
  {
    |payload| >= 12 && payload[2] < 0x80 && (payload[4] != 0 || payload[5] != 0)
  }

  function QueryOf(payload: Bytes): Option<RecordKey>
  {
    if !IsQuery(payload) then None
    else
      var name := ReadLabels(payload, 12, MAX_LABELS);
      if name.None? || name.value.0 == [] || name.value.1 + 4 > |payload| then None
      else Some(RecordKey(Join(name.value.0), BeU16(payload[name.value.1], payload[name.value.1 + 1])))
  }

  // ------------------------------------------------------------- the parser

  /** `parse_qname`: the labels and the offset it leaves behind. */
  method ParseQname(pkt: Bytes, offset: nat) returns (domain: Option<Bytes>, offset': nat)
    ensures var name := ReadLabels(pkt, offset, MAX_LABELS);
            if name.None? || name.value.0 == [] then domain == None
            else domain == Some(Join(name.value.0)) && offset' == name.value.1
  {
    hide Join, ReadLabels;
    ghost var whole := ReadLabels(pkt, offset, MAX_LABELS);
    PrependNothing(whole);
    var labels: seq<Label> := [];
    offset' := offset;
    for i := 0 to MAX_LABELS
      invariant whole == Prepend(labels, ReadLabels(pkt, offset', MAX_LABELS - i))
    {
      ReadRound(pkt, offset', MAX_LABELS - i);
      if offset' >= |pkt| { return None, offset'; }
      var len := pkt[offset'];
      offset' := offset' + 1;
      if len == 0 { break; }
      if len > 63 || offset' + len > |pkt| { return None, offset'; }
      var l := pkt[offset'..offset' + len];
      offset' := offset' + len;
      PrependSnoc(labels, l, ReadLabels(pkt, offset', MAX_LABELS - i - 1));
      labels := labels + [l];
    }
    ReadNothing(pkt, offset');
    assert labels + [] == labels;
    assert whole == Some((labels, offset'));
    if labels == [] { return None, offset'; }
    domain := Some(Join(labels));
  }

  method ParseDnsQuery(payload: Bytes) returns (r: Option<RecordKey>)
    ensures r == QueryOf(payload)
  {
    hide Join, ReadLabels;
    if |payload| < 12 { return None; }
    var flags := BeU16(payload[2], payload[3]);
    TopBit(payload[2], payload[3]);
    if flags / 0x8000 % 2 != 0 { return None; }
    var qdcount := BeU16(payload[4], payload[5]);
    if qdcount == 0 { return None; }
    var domain, offset := ParseQname(payload, 12);
    if domain.None? { return None; }
    if offset + 4 > |payload| { return None; }
    return Some(RecordKey(domain.value, BeU16(payload[offset], payload[offset + 1])));
  }

  /** The QR bit of the flags word. */
  lemma TopBit(hi: u8, lo: u8)
    ensures BeU16(hi, lo) / 0x8000 % 2 != 0 <==> hi >= 0x80
  {
  }

  ghost function Prepend(labels: seq<Label>, name: Option<(seq<Label>, nat)>): Option<(seq<Label>, nat)>
  {
    if name.None? then None else Some((labels + name.value.0, name.value.1))
  }

  function AfterLabel(l: Label, rest: Option<(seq<Label>, nat)>): Option<(seq<Label>, nat)>
  {
    if rest.None? then None else Some(([l] + rest.value.0, rest.value.1))
  }

  /** One round of the loop. */
  lemma ReadRound(pkt: Bytes, off: nat, fuel: nat)
    requires fuel > 0
    ensures off >= |pkt| ==> ReadLabels(pkt, off, fuel) == None
    ensures off < |pkt| && pkt[off] == 0 ==> ReadLabels(pkt, off, fuel) == Some(([], off + 1))
    ensures off < |pkt| && pkt[off] != 0 ==>
              ReadLabels(pkt, off, fuel) ==
              if pkt[off] > 63 || off + 1 + pkt[off] > |pkt| then None
              else AfterLabel(pkt[off + 1..off + 1 + pkt[off]], ReadLabels(pkt, off + 1 + pkt[off], fuel - 1))
  {
  }

  lemma ReadNothing(pkt: Bytes, off: nat)
    ensures ReadLabels(pkt, off, 0) == Some(([], off))
  {
  }

  lemma PrependNothing(name: Option<(seq<Label>, nat)>)
    ensures Prepend([], name) == name
  {
    if name.Some? { assert [] + name.value.0 == name.value.0; }
  }

  lemma PrependSnoc(labels: seq<Label>, l: Label, name: Option<(seq<Label>, nat)>)
    ensures Prepend(labels + [l], name)
         == Prepend(labels, AfterLabel(l, name))
  {
    if name.Some? { assert labels + ([l] + name.value.0) == labels + [l] + name.value.0; }
  }

  // ---------------------------------------------------------- the encoding

  predicate IsLabel(l: Label) { 1 <= |l| <= 63 }

  predicate AreLabels(labels: seq<Label>) { forall l :: l in labels ==> IsLabel(l) }

  /** Labels with their lengths, without the terminator. */
  function LabelsBytes(labels: seq<Label>): Bytes
    requires AreLabels(labels)
  {
    if labels == [] then []
    else
      assert labels[0] in labels;
      [|labels[0]|] + labels[0] + LabelsBytes(labels[1..])
  }

  /** A query: its twelve-byte header, the name with its terminator, the type, and two bytes of class. */
  function Encode(header: Bytes, labels: seq<Label>, qtype: u16, qclass: u16): Bytes
    requires AreLabels(labels)
  {
    header + LabelsBytes(labels) + [0] + U16Bytes(qtype) + U16Bytes(qclass)
  }

  /** A query's header: QR is 0 and there is at least one question. */
  predicate IsHeader(header: Bytes) { |header| == 12 && header[2] < 0x80 && BeU16(header[4], header[5]) >= 1 }

  /** Reading an encoded name of fewer than `fuel` labels stops just past its terminator. */
  lemma {:induction false} ReadsName(pkt: Bytes, pre: Bytes, labels: seq<Label>, post: Bytes, fuel: nat)
    requires AreLabels(labels) && |labels| < fuel
    requires pkt == pre + LabelsBytes(labels) + [0] + post
    ensures ReadLabels(pkt, |pre|, fuel) == Some((labels, |pre| + |LabelsBytes(labels)| + 1))
    decreases |labels|
  {
    if labels == [] {
      assert pkt[|pre|] == 0;
    } else {
      hide ReadLabels, LabelsBytes;
      var l, more := labels[0], LabelsBytes(labels[1..]);
      LabelsTail(labels);
      assert pkt == pre + ([|l|] + l + more) + ([0] + post);
      ReadsOne(pkt, pre, l, more, [0] + post, fuel);
      Regroup(pre, l, more, [0] + post);
      ReadsName(pkt, pre + ([|l|] + l), labels[1..], post, fuel - 1);
    }
  }

  lemma LabelsTail(labels: seq<Label>)
    requires AreLabels(labels) && labels != []
    ensures IsLabel(labels[0]) && AreLabels(labels[1..]) && labels == [labels[0]] + labels[1..]
    ensures LabelsBytes(labels) == [|labels[0]|] + labels[0] + LabelsBytes(labels[1..])
  {
    assert labels[0] in labels;
  }

  /** Reading exactly `|labels|` labels stops right after them. */
  lemma {:induction false} ReadsFull(pkt: Bytes, pre: Bytes, labels: seq<Label>, post: Bytes)
    requires AreLabels(labels) && pkt == pre + LabelsBytes(labels) + post
    ensures ReadLabels(pkt, |pre|, |labels|) == Some((labels, |pre| + |LabelsBytes(labels)|))
    decreases |labels|
  {
    if labels != [] {
      hide ReadLabels, LabelsBytes;
      var l, more := labels[0], LabelsBytes(labels[1..]);
      LabelsTail(labels);
      ReadsOne(pkt, pre, l, more, post, |labels|);
      Regroup(pre, l, more, post);
      ReadsFull(pkt, pre + ([|l|] + l), labels[1..], post);
    }
  }

  lemma ReadsOne(pkt: Bytes, pre: Bytes, l: Label, more: Bytes, post: Bytes, fuel: nat)
    requires IsLabel(l) && fuel > 0 && pkt == pre + ([|l|] + l + more) + post
    ensures ReadLabels(pkt, |pre|, fuel) == AfterLabel(l, ReadLabels(pkt, |pre| + 1 + |l|, fuel - 1))
  {
    hide ReadLabels, AfterLabel, IsLabel;
    LabelAt(pkt, pre, l, more, post);
    ReadsLabel(pkt, |pre|, l, fuel);
  }

  lemma Regroup(pre: Bytes, l: Label, more: Bytes, post: Bytes)
    requires |l| < 0x100
    ensures pre + ([|l|] + l + more) + post == (pre + ([|l|] + l)) + more + post
  {
  }

  lemma ReadsLabel(pkt: Bytes, off: nat, l: Label, fuel: nat)
    requires IsLabel(l) && fuel > 0 && off + 1 + |l| <= |pkt|
    requires pkt[off] == |l| && pkt[off + 1..off + 1 + |l|] == l
    ensures ReadLabels(pkt, off, fuel) == AfterLabel(l, ReadLabels(pkt, off + 1 + |l|, fuel - 1))
  {
  }

  lemma LabelAt(pkt: Bytes, pre: Bytes, l: Label, more: Bytes, post: Bytes)
    requires IsLabel(l) && pkt == pre + ([|l|] + l + more) + post
    ensures |pre| + 1 + |l| <= |pkt| && pkt[|pre|] == |l|
    ensures pkt[|pre| + 1..|pre| + 1 + |l|] == l
  {
  }

  lemma HeaderKept(header: Bytes, more: Bytes)
    requires IsHeader(header)
    ensures IsQuery(header + more)
  {
  }

  /** A question with 1 to 31 labels is read back, whatever follows it. */
  lemma RoundTrip(header: Bytes, labels: seq<Label>, qtype: u16, qclass: u16, trailing: Bytes)
    requires IsHeader(header) && AreLabels(labels) && 1 <= |labels| <= 31
    ensures var p := Encode(header, labels, qtype, qclass) + trailing;
            && ReadLabels(p, 12, 32) == Some((labels, 12 + |LabelsBytes(labels)| + 1))
            && QueryOf(p) == Some(RecordKey(Join(labels), qtype))
  {
    hide LabelsBytes, Join, IsQuery, ReadLabels;
    var p, n := Encode(header, labels, qtype, qclass) + trailing, LabelsBytes(labels);
    var tail := U16Bytes(qtype) + U16Bytes(qclass) + trailing;
    assert p == header + n + [0] + tail;
    ReadsName(p, header, labels, tail, MAX_LABELS);
    HeaderKept(header, n + [0] + tail);
    assert p == header + (n + [0] + tail);
    assert p[12 + |n| + 1] == tail[0] && p[12 + |n| + 2] == tail[1];
    U16BytesRoundTrip(qtype);
  }

  /** With 32 or more labels the loop stops after 32 and reads the type at the next length byte. */
  lemma ManyLabels(header: Bytes, labels: seq<Label>, qtype: u16, qclass: u16, trailing: Bytes)
    requires IsHeader(header) && AreLabels(labels) && |labels| >= 32
    ensures var p := Encode(header, labels, qtype, qclass) + trailing;
            var off := 12 + |LabelsBytes(labels[..32])|;
            && off + 4 <= |p|
            && QueryOf(p) == Some(RecordKey(Join(labels[..32]), BeU16(p[off], p[off + 1])))
            && (|labels| == 32 ==> BeU16(p[off], p[off + 1]) == qtype / 0x100)
  {
    hide Join, IsQuery, ReadLabels;
    var p := Encode(header, labels, qtype, qclass) + trailing;
    var first, last := labels[..MAX_LABELS], labels[MAX_LABELS..];
    assert labels == first + last;
    LabelsConcat(first, last);
    hide LabelsBytes;
    var n := LabelsBytes(first);
    var tail := LabelsBytes(last) + [0] + U16Bytes(qtype) + U16Bytes(qclass) + trailing;
    assert p == header + n + tail;
    ReadsFull(p, header, first, tail);
    HeaderKept(header, n + tail);
    assert p == header + (n + tail);
    if last == [] {
      NoLabels();
      assert p[12 + |n|] == tail[0] && p[12 + |n| + 1] == tail[1];
    }
  }

  lemma NoLabels()
    ensures LabelsBytes([]) == []
  {
  }

  lemma {:induction false} LabelsConcat(a: seq<Label>, b: seq<Label>)
    requires AreLabels(a + b)
    ensures AreLabels(a) && AreLabels(b) && LabelsBytes(a + b) == LabelsBytes(a) + LabelsBytes(b)
  {
    assert forall l :: l in a ==> l in a + b;
    assert forall l :: l in b ==> l in a + b;
    if a == [] {
      assert a + b == b;
    } else {
      assert (a + b)[1..] == a[1..] + b;
      LabelsConcat(a[1..], b);
    }
  }

  /** A question is read back exactly when it has at most 31 labels, or 32 and type zero. */
  lemma ReadBackIff(header: Bytes, labels: seq<Label>, qtype: u16, qclass: u16, trailing: Bytes)
    requires IsHeader(header) && AreLabels(labels) && labels != []
    ensures QueryOf(Encode(header, labels, qtype, qclass) + trailing) == Some(RecordKey(Join(labels), qtype))
            <==> |labels| <= 31 || (|labels| == 32 && qtype == 0)
  {
    hide QueryOf, Encode, LabelsBytes, Join;
    if |labels| < MAX_LABELS {
      RoundTrip(header, labels, qtype, qclass, trailing);
    } else {
      ManyLabels(header, labels, qtype, qclass, trailing);
      if |labels| == MAX_LABELS {
        assert labels[..MAX_LABELS] == labels;
      } else {
        JoinGrows(labels, MAX_LABELS);
      }
    }
  }

  lemma {:induction false} JoinGrows(labels: seq<Label>, n: nat)
    requires n < |labels|
    ensures n > 0 ==> |Join(labels[..n])| < |Join(labels)|
    decreases n
  {
    if n > 1 {
      JoinGrows(labels[1..], n - 1);
      assert labels[..n][1..] == labels[1..][..n - 1];
    }
  }

  // ------------------------------------------------------- from answer to question

  /** Whatever the loop reads is the encoding of its labels, then a terminator unless the rounds ran out. */
  lemma {:induction false} ReadSplits(pkt: Bytes, off: nat, fuel: nat)
    requires off <= |pkt| && ReadLabels(pkt, off, fuel).Some?
    ensures var (labels, end) := ReadLabels(pkt, off, fuel).value;
            && off <= end <= |pkt| && |labels| <= fuel && AreLabels(labels)
            && pkt[off..end] == LabelsBytes(labels) + if |labels| < fuel then [0] else []
    decreases fuel
  {
    if fuel > 0 && pkt[off] != 0 {
      var next := off + 1 + pkt[off];
      var l := pkt[off + 1..next];
      ReadSplits(pkt, next, fuel - 1);
      var (rest, end) := ReadLabels(pkt, next, fuel - 1).value;
      hide ReadLabels;
      LabelsCons(l, rest);
      assert pkt[off..end] == ([|l|] + l) + pkt[next..end];
    }
  }

  lemma LabelsCons(l: Label, labels: seq<Label>)
    requires IsLabel(l) && AreLabels(labels)
    ensures AreLabels([l] + labels) && LabelsBytes([l] + labels) == [|l|] + l + LabelsBytes(labels)
  {
    assert ([l] + labels)[1..] == labels;
  }

  /** `p` is a query for the labels and type, with room for the class. */
  ghost predicate Asks(p: Bytes, labels: seq<Label>, qtype: u16)
  {
    && 1 <= |labels| <= 32 && AreLabels(labels) && |p| >= 12 && p[2] < 0x80 && BeU16(p[4], p[5]) >= 1
    && var name := LabelsBytes(labels) + if |labels| < 32 then [0] else [];
       12 + |name| + 4 <= |p| && name + U16Bytes(qtype) <= p[12..]
  }

  /** The parser answers a key exactly on queries that ask for it, the terminator missing after 32 labels. */
  lemma AnswersIff(p: Bytes, key: RecordKey)
    ensures QueryOf(p) == Some(key) <==> exists labels :: Asks(p, labels, key.qtype) && key.domain == Join(labels)
  {
    hide Join, LabelsBytes, ReadLabels;
    if QueryOf(p) == Some(key) {
      var (labels, end) := ReadLabels(p, 12, MAX_LABELS).value;
      ReadSplits(p, 12, MAX_LABELS);
      BeU16Bytes(p[end], p[end + 1]);
      assert p[12..][..end - 12 + 2] == p[12..end] + [p[end], p[end + 1]];
      assert Asks(p, labels, key.qtype);
    }
    if labels :| Asks(p, labels, key.qtype) && key.domain == Join(labels) {
      AskedIsAnswered(p, labels, key.qtype);
    }
  }

  lemma IsQueryIff(p: Bytes)
    ensures IsQuery(p) <==> |p| >= 12 && p[2] < 0x80 && BeU16(p[4], p[5]) >= 1
  {
  }

  lemma TwoBytes(n: u16)
    ensures |U16Bytes(n)| == 2
  {
  }

  lemma AskedIsAnswered(p: Bytes, labels: seq<Label>, qtype: u16)
    requires Asks(p, labels, qtype)
    ensures QueryOf(p) == Some(RecordKey(Join(labels), qtype))
  {
    hide Join, IsQuery, LabelsBytes, ReadLabels, BeU16, U16Bytes;
    IsQueryIff(p);
    U16BytesRoundTrip(qtype);
    TwoBytes(qtype);
    var n, header := LabelsBytes(labels), p[..12];
    var name := n + if |labels| < MAX_LABELS then [0] else [];
    var end := 12 + |name|;
    var post := p[end..];
    assert p == header + name + post by { assert p[12..][..|name|] == name; }
    var q := U16Bytes(qtype);
    assert |q| == 2 && (name + q)[|name|] == q[0] && (name + q)[|name| + 1] == q[1];
    assert p[12..][|name|] == q[0] && p[12..][|name| + 1] == q[1];
    assert p[end] == q[0] && p[end + 1] == q[1];
    assert BeU16(p[end], p[end + 1]) == qtype && end + 4 <= |p|;
    if |labels| < MAX_LABELS {
      assert p == header + n + [0] + post;
      ReadsName(p, header, labels, post, MAX_LABELS);
    } else {
      ReadsFull(p, header, labels, post);
    }
  }

  /** Only queries are answered: QR is 0 and there is at least one question. */
  lemma OnlyQueriesAnswered(p: Bytes)
    ensures QueryOf(p).Some? ==> |p| >= 12 && p[2] < 0x80 && BeU16(p[4], p[5]) >= 1
  {
    hide ReadLabels, Join;
  }

  /** The question ex.com of type 1, behind twelve bytes of header. */
  function ExCom(header: Bytes): Bytes
  {
    header + [2, 0x65, 0x78, 3, 0x63, 0x6F, 0x6D, 0, 0, 1, 0, 1]
  }

  /** Asked in a query it is counted under its name and type; in a response, under nothing. */
  lemma ExComExample()
    ensures QueryOf(ExCom([0x12, 0x34, 0x01, 0x00, 0, 1, 0, 0, 0, 0, 0, 0]))
            == Some(RecordKey([0x65, 0x78, 0x2E, 0x63, 0x6F, 0x6D], 1))
    ensures QueryOf(ExCom([0x12, 0x34, 0x81, 0x80, 0, 1, 0, 1, 0, 0, 0, 0])) == None
  {
    var query := [0x12, 0x34, 0x01, 0x00, 0, 1, 0, 0, 0, 0, 0, 0];
    var labels: seq<Label> := [[0x65, 0x78], [0x63, 0x6F, 0x6D]];
    assert labels[1..] == [[0x63, 0x6F, 0x6D]] && labels[1..][1..] == [];
    assert LabelsBytes(labels[1..]) == [3] + labels[1] + LabelsBytes([]);
    assert ExCom(query) == Encode(query, labels, 1, 1) + [];
    assert Join(labels) == [0x65, 0x78, 0x2E, 0x63, 0x6F, 0x6D];
    RoundTrip(query, labels, 1, 1, []);
    OnlyQueriesAnswered(ExCom([0x12, 0x34, 0x81, 0x80, 0, 1, 0, 1, 0, 0, 0, 0]));
  }

  // ------------------------------------------------------------- the record key

  /** A label cut at its dots. */
  function Cut(l: Bytes): (r: seq<Bytes>)
    ensures r != []
  {
    if l == [] then [[]]
    else
      var rest := Cut(l[1..]);
      if l[0] == 0x2E then [[]] + rest else [[l[0]] + rest[0]] + rest[1..]
  }

  /** The pieces of a name: each label cut at its dots. */
  function Pieces(labels: seq<Label>): seq<Bytes>
  {
    if labels == [] then [] else Cut(labels[0]) + Pieces(labels[1..])
  }

  lemma CutStep(b: u8, l: Bytes)
    ensures Cut([b] + l) == if b == 0x2E then [[]] + Cut(l) else [[b] + Cut(l)[0]] + Cut(l)[1..]
  {
    assert ([b] + l)[1..] == l;
  }

  /** Joining the pieces of a string gives it back. */
  lemma {:induction false} JoinCut(l: Bytes)
    ensures Join(Cut(l)) == l
  {
    if l != [] {
      JoinCut(l[1..]);
      var rest := Cut(l[1..]);
      if l[0] == DOT {
        assert Cut(l)[1..] == rest;
      } else if |rest| > 1 {
        assert Cut(l)[1..] == rest[1..];
      }
      assert l == [l[0]] + l[1..];
    }
  }

  /** Cutting what a dot joins is cutting both sides. */
  lemma {:induction false} CutDot(l: Bytes, m: Bytes)
    ensures Cut(l + [DOT] + m) == Cut(l) + Cut(m)
  {
    if l == [] {
      assert [] + [DOT] + m == [DOT] + m;
      CutStep(DOT, m);
    } else {
      hide Cut;
      CutDot(l[1..], m);
      assert l + [DOT] + m == [l[0]] + (l[1..] + [DOT] + m) && l == [l[0]] + l[1..];
      CutStep(l[0], l[1..] + [DOT] + m);
      CutStep(l[0], l[1..]);
      PrependToFirst(l[0], Cut(l[1..]), Cut(m));
    }
  }

  lemma PrependToFirst(b: u8, x: seq<Bytes>, y: seq<Bytes>)
    requires x != []
    ensures (x + y)[0] == x[0] && [[b] + x[0]] + (x + y)[1..] == [[b] + x[0]] + x[1..] + y
    ensures [[]] + (x + y) == [[]] + x + y
  {
    assert (x + y)[1..] == x[1..] + y;
  }

  /** The pieces can be read off the joined domain. */
  lemma {:induction false} CutJoin(labels: seq<Label>)
    requires labels != []
    ensures Cut(Join(labels)) == Pieces(labels)
  {
    hide Cut;
    assert Pieces([]) == [];
    if |labels| == 1 {
      assert labels[1..] == [];
    } else {
      CutJoin(labels[1..]);
      CutDot(labels[0], Join(labels[1..]));
    }
  }

  /** Two names are joined to one domain exactly when cutting all labels at their dots makes them equal. */
  lemma SameDomainIff(a: seq<Label>, b: seq<Label>)
    requires a != [] && b != []
    ensures Join(a) == Join(b) <==> Pieces(a) == Pieces(b)
  {
    hide Join, Cut, Pieces;
    CutJoin(a);
    CutJoin(b);
    JoinCut(Join(a));
    JoinCut(Join(b));
  }

  /** Any two queries get one record key exactly when their names have the same pieces and their types agree. */
  lemma SameKeyIff(p: Bytes, q: Bytes, a: seq<Label>, b: seq<Label>, qa: u16, qb: u16)
    requires Asks(p, a, qa) && Asks(q, b, qb)
    ensures QueryOf(p).Some? && QueryOf(q).Some?
    ensures QueryOf(p) == QueryOf(q) <==> Pieces(a) == Pieces(b) && qa == qb
  {
    AskedIsAnswered(p, a, qa);
    AskedIsAnswered(q, b, qb);
    SameDomainIff(a, b);
  }

  ghost predicate NoDots(labels: seq<Label>) { forall l :: l in labels ==> 0x2E !in l }

  lemma {:induction false} CutNoDot(l: Bytes)
    requires 0x2E !in l
    ensures Cut(l) == [l]
  {
    if l != [] {
      CutNoDot(l[1..]);
      assert l == [l[0]] + l[1..];
    }
  }

  /** Labels without dots are their own pieces. */
  lemma {:induction false} NoDotsPieces(labels: seq<Label>)
    requires NoDots(labels)
    ensures Pieces(labels) == labels
  {
    if labels != [] {
      CutNoDot(labels[0]);
      NoDotsPieces(labels[1..]);
      assert labels == [labels[0]] + labels[1..];
    }
  }

  /** For labels without dots the joined domain determines the labels. */
  lemma JoinInjective(a: seq<Label>, b: seq<Label>)
    requires AreLabels(a) && AreLabels(b) && NoDots(a) && NoDots(b) && Join(a) == Join(b)
    ensures a == b
  {
    if a == [] || b == [] {
      JoinNonEmpty(a);
      JoinNonEmpty(b);
    } else {
      SameDomainIff(a, b);
      NoDotsPieces(a);
      NoDotsPieces(b);
    }
  }

  lemma JoinNonEmpty(a: seq<Label>)
    requires AreLabels(a)
    ensures Join(a) == [] <==> a == []
  {
    if a != [] { assert a[0] in a; }
  }

  /**
   * Two questions of 1 to 31 labels, each in its own packet, share a record key exactly when their names have
   * the same pieces and their types agree; without dots in the labels, exactly when they are the same question.
   */
  lemma DistinctKeys(ha: Bytes, hb: Bytes, a: seq<Label>, b: seq<Label>, qa: u16, qb: u16, ca: u16, cb: u16,
                     ta: Bytes, tb: Bytes)
    requires IsHeader(ha) && IsHeader(hb) && AreLabels(a) && AreLabels(b)
    requires 1 <= |a| <= 31 && 1 <= |b| <= 31
    ensures var p, q := Encode(ha, a, qa, ca) + ta, Encode(hb, b, qb, cb) + tb;
            && QueryOf(p).Some? && QueryOf(q).Some?
            && (QueryOf(p) == QueryOf(q) <==> Pieces(a) == Pieces(b) && qa == qb)
            && (NoDots(a) && NoDots(b) ==> (QueryOf(p) == QueryOf(q) <==> a == b && qa == qb))
  {
    hide QueryOf, Encode, Join, Pieces;
    RoundTrip(ha, a, qa, ca, ta);
    RoundTrip(hb, b, qb, cb, tb);
    SameDomainIff(a, b);
    if NoDots(a) && NoDots(b) {
      NoDotsPieces(a);
      NoDotsPieces(b);
    }
  }

  /** The question for the one label "a.b" and the one for "a" and "b", in any two packets, share a key. */
  lemma DottedLabelCollides(ha: Bytes, hb: Bytes, qtype: u16, ca: u16, cb: u16, ta: Bytes, tb: Bytes)
    requires IsHeader(ha) && IsHeader(hb)
    ensures var a: seq<Label>, b: seq<Label> := [[0x61, 0x2E, 0x62]], [[0x61], [0x62]];
            AreLabels(a) && AreLabels(b) && QueryOf(Encode(ha, a, qtype, ca) + ta) == QueryOf(Encode(hb, b, qtype, cb) + tb)
  {
    var a: seq<Label>, b: seq<Label> := [[0x61, 0x2E, 0x62]], [[0x61], [0x62]];
    assert b[1..] == [[0x62]] && Join(a) == Join(b);
    hide QueryOf, Encode, Join, Pieces;
    SameDomainIff(a, b);
    DistinctKeys(ha, hb, a, b, qtype, qtype, ca, cb, ta, tb);
  }
}
