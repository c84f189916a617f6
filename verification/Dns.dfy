/** DNS queries and responses (net/dns.c), against the message format of section 4.1 of RFC 1035. */
module Dns {
  import opened Bytes

  const HEADER: int := 12
  const TYPE_A: int := 1

  // ---- messages and their printed form ----

  /** How a name ends: the root label, or a pointer to an earlier name. */
  datatype Ending = Root | Pointer(hi: int, lo: Byte)

  datatype Name = Name(labels: seq<seq<Byte>>, ending: Ending) {
    predicate Valid() {
      && (forall i | 0 <= i < |labels| :: 1 <= |labels[i]| <= 63)
      && (ending.Pointer? ==> 0 <= ending.hi < 64)
    }
  }

  datatype Question = Question(name: Name, kind: U16, class_: U16)

  datatype Answer = Answer(name: Name, kind: U16, class_: U16, ttl: U32, data: seq<Byte>)

  /** A response; `tail` holds the other sections and any padding. */
  datatype Response = Response(id: U16, flags: U16, questions: seq<Question>, answers: seq<Answer>,
                               authority: U16, additional: U16, tail: seq<Byte>)
  {
    predicate Valid() {
      && |questions| < TWO_TO_16 && |answers| < TWO_TO_16
      && (forall i | 0 <= i < |questions| :: questions[i].name.Valid())
      && (forall i | 0 <= i < |answers| :: answers[i].name.Valid() && |answers[i].data| < TWO_TO_16)
    }
  }

  function Big16(v: U16): (b: seq<Byte>)
    ensures |b| == 2
  {
    [v / 256, v % 256]
  }

  function Big32(v: U32): (b: seq<Byte>)
    ensures |b| == 4
  {
    Big16(v / TWO_TO_16) + Big16(v % TWO_TO_16)
  }

  function PrintLabels(labels: seq<seq<Byte>>): seq<Byte> {
    if labels == [] then [] else [|labels[0]| % 256] + labels[0] + PrintLabels(labels[1..])
  }

  function PrintEnding(e: Ending): (b: seq<Byte>)
    requires e.Pointer? ==> 0 <= e.hi < 64
    ensures 1 <= |b| <= 2
  {
    match e
    case Root => [0]
    case Pointer(hi, lo) => [192 + hi, lo]
  }

  function PrintName(n: Name): (b: seq<Byte>)
    requires n.Valid()
    ensures |b| >= 1
  {
    PrintLabels(n.labels) + PrintEnding(n.ending)
  }

  function PrintQuestions(qs: seq<Question>): seq<Byte>
    requires forall i | 0 <= i < |qs| :: qs[i].name.Valid()
  {
    if qs == [] then []
    else PrintName(qs[0].name) + (Big16(qs[0].kind) + Big16(qs[0].class_) + PrintQuestions(qs[1..]))
  }

  /** The fixed part of a record: type, class, time to live, data length. */
  function PrintFixed(a: Answer): (b: seq<Byte>)
    requires |a.data| < TWO_TO_16
    ensures |b| == 10
  {
    Big16(a.kind) + Big16(a.class_) + Big32(a.ttl) + Big16(|a.data|)
  }

  function PrintAnswers(answers: seq<Answer>): seq<Byte>
    requires forall i | 0 <= i < |answers| :: answers[i].name.Valid() && |answers[i].data| < TWO_TO_16
  {
    if answers == [] then []
    else PrintName(answers[0].name) + (PrintFixed(answers[0]) + (answers[0].data + PrintAnswers(answers[1..])))
  }

  function PrintHeader(r: Response): (b: seq<Byte>)
    requires r.Valid()
    ensures |b| == HEADER
  {
    Big16(r.id) + Big16(r.flags) + Big16(|r.questions|) + Big16(|r.answers|) + Big16(r.authority) + Big16(r.additional)
  }

  function Print(r: Response): seq<Byte>
    requires r.Valid()
  {
    PrintHeader(r) + (PrintQuestions(r.questions) + (PrintAnswers(r.answers) + r.tail))
  }

  // ---- the walk ----

  /** `skip_name`: the offset behind the name at `off`, beyond the end if the name is cut off. */
  function SkipName(pkt: seq<Byte>, off: nat): (end: nat)
    ensures end >= off
    decreases |pkt| - off
  {
    if off >= |pkt| then off
    else if pkt[off] == 0 then off + 1
    else if pkt[off] >= 192 then off + 2
    else SkipName(pkt, off + pkt[off] + 1)
  }

  datatype Outcome = Ignored | Failed | Resolved(ip: U32)

  function Read16(pkt: seq<Byte>, off: nat): U16
    requires off + 2 <= |pkt|
  {
    var hi: int := pkt[off];
    hi * 256 + pkt[off + 1]
  }

  function Read32(pkt: seq<Byte>, off: nat): U32
    requires off + 4 <= |pkt|
  {
    Read16(pkt, off) * TWO_TO_16 + Read16(pkt, off + 2)
  }

  function WalkQuestions(pkt: seq<Byte>, off: nat, n: nat): (end: nat)
    decreases n
  {
    if n == 0 || off >= |pkt| then off else WalkQuestions(pkt, SkipName(pkt, off) + 4, n - 1)
  }

  function WalkAnswers(pkt: seq<Byte>, off: nat, n: nat): Outcome
    decreases n
  {
    if n == 0 || off + 10 > |pkt| then Failed
    else
      var fixed := SkipName(pkt, off);
      if fixed + 10 > |pkt| then Failed
      else
        var len := Read16(pkt, fixed + 8);
        if Read16(pkt, fixed) == TYPE_A && len == 4 && fixed + 14 <= |pkt| then Resolved(Read32(pkt, fixed + 10))
        else WalkAnswers(pkt, fixed + 10 + len, n - 1)
  }

  /** What `dns_resolve` makes of one received message. */
  function Parse(pkt: seq<Byte>, id: U16): Outcome {
    if |pkt| < HEADER || Read16(pkt, 0) != id || Read16(pkt, 2) / 0x8000 == 0 then Ignored
    else if Read16(pkt, 2) % 16 != 0 || Read16(pkt, 6) == 0 then Failed
    else WalkAnswers(pkt, WalkQuestions(pkt, HEADER, Read16(pkt, 4)), Read16(pkt, 6))
  }

  /** The loops of `dns_resolve` over a received message. */
  method ParseResponse(pkt: seq<Byte>, id: U16) returns (o: Outcome)
    ensures o == Parse(pkt, id)
  {
    if |pkt| < HEADER {
      return Ignored;
    }
    var flags := Read16(pkt, 2);
    if Read16(pkt, 0) != id || flags / 0x8000 == 0 {
      return Ignored;
    }
    if flags % 16 != 0 {
      return Failed;
    }
    var qcount, ancount := Read16(pkt, 4), Read16(pkt, 6);
    if ancount == 0 {
      return Failed;
    }
    var off: nat := HEADER;
    var i := 0;
    while i < qcount && off < |pkt|
      invariant 0 <= i <= qcount
      invariant WalkQuestions(pkt, off, qcount - i) == WalkQuestions(pkt, HEADER, qcount)
    {
      off := SkipName(pkt, off) + 4;
      i := i + 1;
    }
    i := 0;
    ghost var start := off;
    while i < ancount && off + 10 <= |pkt|
      invariant 0 <= i <= ancount
      invariant WalkAnswers(pkt, off, ancount - i) == WalkAnswers(pkt, start, ancount)
    {
      off := SkipName(pkt, off);
      if off + 10 > |pkt| {
        break;
      }
      var kind, len := Read16(pkt, off), Read16(pkt, off + 8);
      off := off + 10;
      if kind == TYPE_A && len == 4 && off + 4 <= |pkt| {
        return Resolved(Read32(pkt, off));
      }
      off := off + len;
      i := i + 1;
    }
    return Failed;
  }

  // ---- the walk on printed messages ----

  /** From `off` on, the packet reads `first` and then `rest`. */
  predicate Reads(pkt: seq<Byte>, off: nat, first: seq<Byte>, rest: seq<Byte>) {
    off <= |pkt| && pkt[off..] == first + rest
  }

  lemma ReadOn(pkt: seq<Byte>, off: nat, a: seq<Byte>, b: seq<Byte>, rest: seq<Byte>)
    requires Reads(pkt, off, a + b, rest)
    ensures Reads(pkt, off, a, b + rest) && Reads(pkt, off + |a|, b, rest)
  {
    assert (a + b) + rest == a + (b + rest);
    assert pkt[off + |a|..] == pkt[off..][|a|..];
  }

  /** The rest behind a part that was read. */
  lemma ReadRest(pkt: seq<Byte>, off: nat, a: seq<Byte>, b: seq<Byte>, rest: seq<Byte>)
    requires Reads(pkt, off, a, b + rest)
    ensures Reads(pkt, off + |a|, b, rest)
  {
    assert pkt[off + |a|..] == pkt[off..][|a|..];
  }

  lemma ByteRead(pkt: seq<Byte>, off: nat, first: seq<Byte>, rest: seq<Byte>, i: nat)
    requires Reads(pkt, off, first, rest) && i < |first|
    ensures off + i < |pkt| && pkt[off + i] == first[i]
  {
    assert pkt[off..][i] == first[i];
  }

  lemma SkipEnding(pkt: seq<Byte>, off: nat, end: Ending, rest: seq<Byte>)
    requires Name([], end).Valid() && Reads(pkt, off, PrintEnding(end), rest)
    ensures SkipName(pkt, off) == off + |PrintEnding(end)|
  {
    ByteRead(pkt, off, PrintEnding(end), rest, 0);
  }

  /** Lengths the walk takes for a label; those from 192 on look like a pointer. */
  predicate Skippable(part: seq<Byte>) { 1 <= |part| <= 191 }

  lemma SkipLabel(pkt: seq<Byte>, off: nat, part: seq<Byte>, rest: seq<Byte>)
    requires Skippable(part) && Reads(pkt, off, [|part| % 256] + part, rest)
    ensures SkipName(pkt, off) == SkipName(pkt, off + 1 + |part|)
  {
    ByteRead(pkt, off, [|part| % 256] + part, rest, 0);
  }

  lemma {:induction false} SkipLabels(pkt: seq<Byte>, off: nat, labels: seq<seq<Byte>>, end: Ending, rest: seq<Byte>)
    requires Name([], end).Valid() && forall i | 0 <= i < |labels| :: Skippable(labels[i])
    requires Reads(pkt, off, PrintLabels(labels) + PrintEnding(end), rest)
    ensures SkipName(pkt, off) == off + |PrintLabels(labels)| + |PrintEnding(end)|
    decreases labels
  {
    hide SkipName, Reads, PrintEnding, PrintLabels;
    if labels == [] {
      NothingPrinted(PrintEnding(end));
      SkipEnding(pkt, off, end, rest);
    } else {
      var head: seq<Byte> := [|labels[0]| % 256] + labels[0];
      var more := PrintLabels(labels[1..]) + PrintEnding(end);
      PrintCut(labels, PrintEnding(end));
      ReadOn(pkt, off, head, more, rest);
      SkipLabel(pkt, off, labels[0], more + rest);
      assert forall i | 0 <= i < |labels| - 1 :: labels[1..][i] == labels[i + 1];
      SkipLabels(pkt, off + |head|, labels[1..], end, rest);
    }
  }

  lemma NothingPrinted(e: seq<Byte>)
    ensures PrintLabels([]) + e == e
  {
  }

  /** The first label in front of the others. */
  lemma PrintCut(labels: seq<seq<Byte>>, e: seq<Byte>)
    requires labels != []
    ensures PrintLabels(labels) + e == ([|labels[0]| % 256] + labels[0]) + (PrintLabels(labels[1..]) + e)
    ensures |PrintLabels(labels)| == 1 + |labels[0]| + |PrintLabels(labels[1..])|
  {
    var head: seq<Byte> := [|labels[0]| % 256] + labels[0];
    Regroup(head, PrintLabels(labels[1..]), e);
  }

  lemma Regroup(a: seq<Byte>, b: seq<Byte>, c: seq<Byte>)
    ensures (a + b) + c == a + (b + c)
  {
  }

  /** A printed name, with labels or a pointer, is skipped exactly. */
  lemma SkipPrintedName(pkt: seq<Byte>, off: nat, n: Name, rest: seq<Byte>)
    requires n.Valid() && Reads(pkt, off, PrintName(n), rest)
    ensures SkipName(pkt, off) == off + |PrintName(n)|
  {
    assert Name(n.labels, n.ending) == n;
    SkipLabels(pkt, off, n.labels, n.ending, rest);
  }

  lemma {:induction false} QuestionsWalked(pkt: seq<Byte>, off: nat, qs: seq<Question>, rest: seq<Byte>)
    requires forall i | 0 <= i < |qs| :: qs[i].name.Valid()
    requires Reads(pkt, off, PrintQuestions(qs), rest)
    ensures WalkQuestions(pkt, off, |qs|) == off + |PrintQuestions(qs)|
    decreases qs
  {
    hide Reads, SkipName, PrintName, Big16;
    if qs != [] {
      var q := qs[0];
      var name, fixed, more := PrintName(q.name), Big16(q.kind) + Big16(q.class_), PrintQuestions(qs[1..]);
      assert PrintQuestions(qs) == name + (fixed + more);
      ReadOn(pkt, off, name, fixed + more, rest);
      SkipPrintedName(pkt, off, q.name, fixed + more + rest);
      ReadOn(pkt, off + |name|, fixed, more, rest);
      QuestionsWalked(pkt, off + |name| + 4, qs[1..], rest);
      ByteRead(pkt, off, name, fixed + more + rest, 0);
    }
  }

  lemma Big16Read(pkt: seq<Byte>, off: nat, v: U16, rest: seq<Byte>)
    requires Reads(pkt, off, Big16(v), rest)
    ensures off + 2 <= |pkt| && Read16(pkt, off) == v
  {
    ByteRead(pkt, off, Big16(v), rest, 0);
    ByteRead(pkt, off, Big16(v), rest, 1);
  }

  /** The address `a.b.c.d`. */
  function Dotted(d: seq<Byte>): (ip: U32)
    requires |d| == 4
  {
    0x100_0000 * Number(d[0]) + 0x1_0000 * Number(d[1]) + 0x100 * Number(d[2]) + Number(d[3])
  }

  function Number(b: Byte): int { b }

  /** The first answer of type A with four bytes of data. */
  function FirstAddress(answers: seq<Answer>): Outcome {
    if answers == [] then Failed
    else if answers[0].kind == 1 && |answers[0].data| == 4 then Resolved(Dotted(answers[0].data))
    else FirstAddress(answers[1..])
  }

  lemma FixedRead(pkt: seq<Byte>, off: nat, a: Answer, rest: seq<Byte>)
    requires |a.data| < TWO_TO_16 && Reads(pkt, off, PrintFixed(a), rest)
    ensures off + 10 <= |pkt| && Read16(pkt, off) == a.kind && Read16(pkt, off + 8) == |a.data|
  {
    hide Reads, Big16, Big32, Read16;
    var mid := Big16(a.class_) + Big32(a.ttl);
    assert PrintFixed(a) == Big16(a.kind) + (mid + Big16(|a.data|));
    ReadOn(pkt, off, Big16(a.kind), mid + Big16(|a.data|), rest);
    Big16Read(pkt, off, a.kind, mid + Big16(|a.data|) + rest);
    ReadOn(pkt, off + 2, mid, Big16(|a.data|), rest);
    Big16Read(pkt, off + 8, |a.data|, rest);
  }

  lemma AddressRead(pkt: seq<Byte>, off: nat, data: seq<Byte>, rest: seq<Byte>)
    requires Reads(pkt, off, data, rest) && |data| == 4
    ensures off + 4 <= |pkt| && Read32(pkt, off) == Dotted(data)
  {
    ByteRead(pkt, off, data, rest, 0);
    ByteRead(pkt, off, data, rest, 1);
    ByteRead(pkt, off, data, rest, 2);
    ByteRead(pkt, off, data, rest, 3);
  }

  lemma {:induction false} AnswersWalked(pkt: seq<Byte>, off: nat, answers: seq<Answer>, rest: seq<Byte>)
    requires forall i | 0 <= i < |answers| :: answers[i].name.Valid() && |answers[i].data| < TWO_TO_16
    requires Reads(pkt, off, PrintAnswers(answers), rest)
    ensures WalkAnswers(pkt, off, |answers|) == FirstAddress(answers)
    decreases answers
  {
    hide Reads, SkipName, PrintName, PrintFixed, Read16, Read32, Dotted;
    if answers != [] {
      var a := answers[0];
      var name, fixed, more := PrintName(a.name), PrintFixed(a), PrintAnswers(answers[1..]);
      assert PrintAnswers(answers) == name + (fixed + (a.data + more));
      ReadOn(pkt, off, name, fixed + (a.data + more), rest);
      SkipPrintedName(pkt, off, a.name, fixed + (a.data + more) + rest);
      ReadOn(pkt, off + |name|, fixed, a.data + more, rest);
      FixedRead(pkt, off + |name|, a, a.data + more + rest);
      ReadOn(pkt, off + |name| + 10, a.data, more, rest);
      if |a.data| == 4 {
        AddressRead(pkt, off + |name| + 10, a.data, more + rest);
      }
      AnswersWalked(pkt, off + |name| + 10 + |a.data|, answers[1..], rest);
    }
  }

  lemma HeaderRead(pkt: seq<Byte>, r: Response, rest: seq<Byte>)
    requires r.Valid() && Reads(pkt, 0, PrintHeader(r), rest)
    ensures HEADER <= |pkt|
    ensures Read16(pkt, 0) == r.id && Read16(pkt, 2) == r.flags
    ensures Read16(pkt, 4) == |r.questions| && Read16(pkt, 6) == |r.answers|
  {
    var h := PrintHeader(r);
    forall i | 0 <= i < HEADER ensures i < |pkt| && pkt[i] == h[i] {
      ByteRead(pkt, 0, h, rest, i);
    }
  }

  /**
   * For every well-formed response: ignored unless it answers this query, an error code
   * is a failure, and otherwise the result is the first A record with four bytes of data.
   */
  lemma ParsePrinted(r: Response, id: U16)
    requires r.Valid()
    ensures Parse(Print(r), id) ==
            if r.id != id || r.flags / 0x8000 == 0 then Ignored
            else if r.flags % 16 != 0 then Failed
            else FirstAddress(r.answers)
  {
    hide Reads, PrintQuestions, PrintAnswers, PrintHeader, Print, WalkQuestions, WalkAnswers, Read16;
    var pkt, h := Print(r), PrintHeader(r);
    var qs, answers := PrintQuestions(r.questions), PrintAnswers(r.answers);
    PrintReads(r);
    NoAddress();
    HeaderRead(pkt, r, qs + (answers + r.tail));
    ReadRest(pkt, 0, h, qs, answers + r.tail);
    QuestionsWalked(pkt, HEADER, r.questions, answers + r.tail);
    ReadRest(pkt, HEADER, qs, answers, r.tail);
    AnswersWalked(pkt, HEADER + |qs|, r.answers, r.tail);
  }

  lemma {:induction false} FirstAddressIs(answers: seq<Answer>, k: nat)
    requires k < |answers| && answers[k].kind == 1 && |answers[k].data| == 4
    requires forall i | 0 <= i < k :: answers[i].kind != 1 || |answers[i].data| != 4
    ensures FirstAddress(answers) == Resolved(Dotted(answers[k].data))
    decreases k
  {
    hide Dotted;
    if k > 0 {
      assert answers[0].kind != 1 || |answers[0].data| != 4;
      assert forall i | 0 <= i < |answers| - 1 :: answers[1..][i] == answers[i + 1];
      FirstAddressIs(answers[1..], k - 1);
    }
  }

  /** A response without an error whose first A record says `a.b.c.d` resolves to that address, first byte on top. */
  lemma ResolvesTo(r: Response, id: U16, k: nat, a: Byte, b: Byte, c: Byte, d: Byte)
    requires r.Valid() && r.id == id && r.flags >= 0x8000 && r.flags % 16 == 0
    requires k < |r.answers| && r.answers[k].kind == 1 && r.answers[k].data == [a, b, c, d]
    requires forall i | 0 <= i < k :: r.answers[i].kind != 1 || |r.answers[i].data| != 4
    ensures Parse(Print(r), id) ==
            Resolved(0x100_0000 * Number(a) + 0x1_0000 * Number(b) + 0x100 * Number(c) + Number(d))
  {
    hide Parse, Print;
    ParsePrinted(r, id);
    FirstAddressIs(r.answers, k);
  }

  // ---- the bytes of a message ----

  /** What the header alone decides: identification, response bit, error code, number of answers. */
  lemma HeaderDecides(pkt: seq<Byte>, id: U16)
    ensures Parse(pkt, id) == Ignored <==> |pkt| < 12 || 256 * Number(pkt[0]) + pkt[1] != id || pkt[2] < 128
    ensures Parse(pkt, id) != Ignored && (pkt[3] % 16 != 0 || (pkt[6] == 0 && pkt[7] == 0)) ==> Parse(pkt, id) == Failed
  {
    hide WalkQuestions, WalkAnswers;
    if |pkt| >= 12 {
      WalkIsNotIgnored(pkt, WalkQuestions(pkt, 12, Read16(pkt, 4)), Read16(pkt, 6));
    }
  }

  lemma {:induction false} WalkIsNotIgnored(pkt: seq<Byte>, off: nat, n: nat)
    ensures WalkAnswers(pkt, off, n) != Ignored
    decreases n
  {
    hide SkipName, Read16, Read32;
    if n > 0 && off + 10 <= |pkt| && SkipName(pkt, off) + 10 <= |pkt| {
      var fixed := SkipName(pkt, off);
      WalkIsNotIgnored(pkt, fixed + 10 + Read16(pkt, fixed + 8), n - 1);
    }
  }

  /** What ten bytes behind a name decide: an A record of four bytes is the answer, any other is stepped over. */
  lemma RecordDecides(pkt: seq<Byte>, off: nat, n: nat)
    requires n > 0 && off + 10 <= |pkt| && SkipName(pkt, off) + 14 <= |pkt|
    ensures var at := SkipName(pkt, off);
            WalkAnswers(pkt, off, n) ==
            if pkt[at..at + 2] == [0, 1] && pkt[at + 8..at + 10] == [0, 4] then
              Resolved(0x100_0000 * Number(pkt[at + 10]) + 0x1_0000 * Number(pkt[at + 11])
                       + 0x100 * Number(pkt[at + 12]) + Number(pkt[at + 13]))
            else WalkAnswers(pkt, at + 10 + 256 * Number(pkt[at + 8]) + pkt[at + 9], n - 1)
  {
    hide SkipName;
    var at := SkipName(pkt, off);
    assert pkt[at..at + 2] == [pkt[at], pkt[at + 1]] && pkt[at + 8..at + 10] == [pkt[at + 8], pkt[at + 9]];
  }

  /** One question for "www", answered through a pointer to it: 93.184.216.34. */
  lemma WireResponse(pkt: seq<Byte>)
    requires pkt == [0x12, 0x34, 0x81, 0x80, 0, 1, 0, 1, 0, 0, 0, 0] + [3, 119, 119, 119, 0, 0, 1, 0, 1]
                    + [0xC0, 0x0C, 0, 1, 0, 1, 0, 0, 0, 60, 0, 4] + [93, 184, 216, 34]
    ensures Parse(pkt, 0x1234) == Resolved(0x5DB8_D822)
  {
    hide WalkAnswers;
    assert pkt[12] == 3 && pkt[16] == 0 && pkt[21] == 0xC0;
    assert SkipName(pkt, 12) == SkipName(pkt, 16) == 17;
    assert WalkQuestions(pkt, 12, 1) == WalkQuestions(pkt, 21, 0) == 21;
    assert SkipName(pkt, 21) == 23;
    RecordDecides(pkt, 21, 1);
  }

  lemma NoAddress()
    ensures FirstAddress([]) == Failed
  {
  }

  lemma PrintReads(r: Response)
    requires r.Valid()
    ensures Reads(Print(r), 0, PrintHeader(r), PrintQuestions(r.questions) + (PrintAnswers(r.answers) + r.tail))
  {
    hide PrintHeader, PrintQuestions, PrintAnswers;
  }

  // ---- the query ----

  const DOT: Byte := 46
  const PAYLOAD: int := 470

  /** The first dot from `i` on; the length if there is none. */
  function DotFrom(h: seq<Byte>, i: nat): (j: nat)
    requires i <= |h|
    ensures i <= j <= |h| && (j < |h| ==> h[j] == DOT) && forall k | i <= k < j :: h[k] != DOT
    decreases |h| - i
  {
    if i == |h| || h[i] == DOT then i else DotFrom(h, i + 1)
  }

  /** The labels of a host name from `i` on; a dot at the very end adds none. */
  function Labels(h: seq<Byte>, i: nat): seq<seq<Byte>>
    requires i <= |h|
    decreases |h| - i
  {
    if i == |h| then []
    else
      var j := DotFrom(h, i);
      [h[i..j]] + (if j == |h| then [] else Labels(h, j + 1))
  }

  /** Labels with dots between them. */
  function Join(labels: seq<seq<Byte>>): seq<Byte> {
    if labels == [] then []
    else if |labels| == 1 then labels[0]
    else labels[0] + [DOT] + Join(labels[1..])
  }

  lemma LabelsStep(h: seq<Byte>, i: nat)
    requires i < |h|
    ensures var j := DotFrom(h, i);
            Labels(h, i) == [h[i..j]] + (if j == |h| then [] else Labels(h, j + 1))
    ensures Labels(h, i) != []
  {
    hide DotFrom;
  }

  lemma NoLabels(h: seq<Byte>)
    ensures Labels(h, |h|) == [] && Join([]) == [] && PrintLabels([]) == []
  {
  }

  lemma JoinStep(first: seq<Byte>, more: seq<seq<Byte>>)
    ensures Join([first] + more) == if more == [] then first else first + [DOT] + Join(more)
  {
    assert ([first] + more)[1..] == more;
  }

  lemma PrintStep(first: seq<Byte>, more: seq<seq<Byte>>)
    ensures PrintLabels([first] + more) == [|first| % 256] + first + PrintLabels(more)
  {
    assert ([first] + more)[1..] == more;
  }

  /** Nothing of the host name is lost but a dot at its end. */
  lemma {:induction false} JoinLabels(h: seq<Byte>, i: nat)
    requires i <= |h|
    ensures Join(Labels(h, i)) == if i < |h| && h[|h| - 1] == DOT then h[i..|h| - 1] else h[i..]
    decreases |h| - i
  {
    hide DotFrom, Labels, Join;
    NoLabels(h);
    if i < |h| {
      var j := DotFrom(h, i);
      LabelsStep(h, i);
      if j >= |h| - 1 {
        JoinStep(h[i..j], []);
        assert [h[i..j]] + [] == [h[i..j]];
        assert h[i..|h|] == h[i..];
      } else {
        JoinLabels(h, j + 1);
        LabelsStep(h, j + 1);
        JoinStep(h[i..j], Labels(h, j + 1));
        SplitAtDot(h, i, j);
      }
    }
  }

  /** And no label has a dot inside, so that there is no other way to cut the name. */
  lemma {:induction false} LabelsHaveNoDot(h: seq<Byte>, i: nat, k: nat)
    requires i <= |h| && k < |Labels(h, i)|
    ensures 46 !in Labels(h, i)[k]
    decreases |h| - i
  {
    hide DotFrom;
    if k > 0 {
      LabelsHaveNoDot(h, DotFrom(h, i) + 1, k - 1);
    }
  }

  lemma SplitAtDot(h: seq<Byte>, i: nat, j: nat)
    requires i <= j < |h| - 1 && h[j] == DOT
    ensures h[i..j] + [DOT] + h[j + 1..] == h[i..]
    ensures h[i..j] + [DOT] + h[j + 1..|h| - 1] == h[i..|h| - 1]
  {
  }

  /** The labels take a byte more than the host name; a dot at its end saves that byte. */
  lemma {:induction false} EncodedLength(h: seq<Byte>, i: nat)
    requires i <= |h|
    ensures |PrintLabels(Labels(h, i))| ==
            if i == |h| then 0 else if h[|h| - 1] == DOT then |h| - i else |h| - i + 1
    decreases |h| - i
  {
    hide DotFrom, Labels, PrintLabels;
    NoLabels(h);
    if i < |h| {
      var j := DotFrom(h, i);
      LabelsStep(h, i);
      PrintStep(h[i..j], if j == |h| then [] else Labels(h, j + 1));
      if j < |h| {
        EncodedLength(h, j + 1);
      }
    }
  }

  /** The name of the query message: labels of the host name, then the root. */
  ghost function QueryName(h: seq<Byte>): seq<Byte> { PrintLabels(Labels(h, 0)) + [0] }

  /** Where the question section ends: behind the name, the type and the class. */
  ghost function QuestionEnd(h: seq<Byte>): nat { HEADER + |QueryName(h)| + 4 }

  /** The question stays inside the frame exactly for host names of up to 452 bytes, or 453 with a dot at the end. */
  lemma QuestionFitsIff(h: seq<Byte>)
    ensures QuestionEnd(h) <= PAYLOAD <==> |h| <= 452 || (|h| == 453 && h[452] == DOT)
  {
    hide Labels, PrintLabels;
    EncodedLength(h, 0);
  }

  /** A host name of 453 letters puts the last byte of its question behind the frame. */
  lemma LongNameOverruns()
    ensures var h: CString := seq(453, _ => 0x61); QuestionEnd(h) == PAYLOAD + 1
  {
    hide Labels, PrintLabels;
    var h: CString := seq(453, _ => 0x61);
    EncodedLength(h, 0);
  }

  /**
   * Encodes the question section of a query behind its header and gives the message length.
   * `mem` begins with the 470 bytes of the frame's payload and goes on with whatever lies
   * behind it; nothing in the code keeps the question inside the payload.
   */
  method EncodeQuestion(h: CString, mem: array<Byte>) returns (off: nat)
    requires PAYLOAD <= mem.Length && QuestionEnd(h) <= mem.Length
    modifies mem
    ensures off == QuestionEnd(h) && mem[HEADER..off] == QueryName(h) + [0, 1, 0, 1]
    ensures forall i | 0 <= i < HEADER || off <= i < mem.Length :: mem[i] == old(mem[i])
    ensures off > PAYLOAD <==> |h| > 453 || (|h| == 453 && h[452] != DOT)
  {
    hide Labels, PrintLabels;
    QuestionFitsIff(h);
    off := EncodeName(h, mem);
    ghost var name := mem[HEADER..off];
    mem[off] := 0;
    mem[off + 1], mem[off + 2] := 0, 1;
    mem[off + 3], mem[off + 4] := 0, 1;
    off := off + 5;
    assert mem[HEADER..off] == name + [0] + [0, 1, 0, 1];
  }

  /** Writes the label at `p` with its length byte in front and gives the place where it ends. */
  method PutLabel(h: seq<Byte>, p: nat, mem: array<Byte>, off: nat) returns (dot: nat)
    requires p < |h| && off + 1 + DotFrom(h, p) - p <= mem.Length
    modifies mem
    ensures dot == DotFrom(h, p)
    ensures forall i | 0 <= i < mem.Length ::
              mem[i] == if i == off then (dot - p) % 256
                            else if off < i <= off + dot - p then h[p + (i - off - 1)]
                            else old(mem[i])
  {
    dot := p;
    while dot < |h| && h[dot] != DOT
      invariant p <= dot <= |h| && DotFrom(h, dot) == DotFrom(h, p)
    {
      dot := dot + 1;
    }
    mem[off] := (dot - p) % 256;
    forall i | 0 <= i < dot - p {
      mem[off + 1 + i] := h[p + i];
    }
  }

  lemma NameStep(h: seq<Byte>, p: nat, done: seq<Byte>)
    requires p < |h|
    ensures var dot := DotFrom(h, p);
            done + PrintLabels(Labels(h, p)) ==
            done + ([(dot - p) % 256] + h[p..dot]) + PrintLabels(Labels(h, if dot < |h| then dot + 1 else dot))
  {
    hide Labels, PrintLabels, DotFrom;
    var dot := DotFrom(h, p);
    NoLabels(h);
    LabelsStep(h, p);
    PrintStep(h[p..dot], if dot == |h| then [] else Labels(h, dot + 1));
  }

  /** Label by label; without a further dot the name is complete. */
  method EncodeName(h: seq<Byte>, mem: array<Byte>) returns (off: nat)
    requires HEADER + |PrintLabels(Labels(h, 0))| <= mem.Length
    modifies mem
    ensures off == HEADER + |PrintLabels(Labels(h, 0))|
    ensures mem[HEADER..off] == PrintLabels(Labels(h, 0))
    ensures forall i | 0 <= i < HEADER || off <= i < mem.Length :: mem[i] == old(mem[i])
  {
    hide Labels, PrintLabels, DotFrom;
    off := HEADER;
    var p := 0;
    ghost var done: seq<Byte> := [];
    NoLabels(h);
    while p < |h|
      invariant 0 <= p <= |h| && off == HEADER + |done|
      invariant done + PrintLabels(Labels(h, p)) == PrintLabels(Labels(h, 0))
      invariant forall i | 0 <= i < |done| :: mem[HEADER + i] == done[i]
      invariant forall i | 0 <= i < HEADER || off <= i < mem.Length :: mem[i] == old(mem[i])
    {
      NameStep(h, p, done);
      var dot := PutLabel(h, p, mem, off);
      done := done + ([(dot - p) % 256] + h[p..dot]);
      off := off + 1 + (dot - p);
      p := if dot < |h| then dot + 1 else dot;
    }
  }

  /** For every host name with labels of 1 to 191 bytes the resolver skips its own question name exactly to the type. */
  lemma QuestionNameSkipped(h: CString, msg: seq<Byte>, rest: seq<Byte>)
    requires forall i | 0 <= i < |Labels(h, 0)| :: Skippable(Labels(h, 0)[i])
    requires Reads(msg, HEADER, QueryName(h), [0, 1, 0, 1] + rest)
    ensures var end := SkipName(msg, HEADER);
            && end == HEADER + |QueryName(h)| && end + 4 <= |msg|
            && Read16(msg, end) == TYPE_A && Read16(msg, end + 2) == 1
  {
    SkipLabels(msg, HEADER, Labels(h, 0), Root, [0, 1, 0, 1] + rest);
    ReadRest(msg, HEADER, QueryName(h), [0, 1, 0, 1], rest);
    TypeAndClass(msg, HEADER + |QueryName(h)|, rest);
    hide *;
  }

  lemma TypeAndClass(msg: seq<Byte>, off: nat, rest: seq<Byte>)
    requires Reads(msg, off, [0, 1, 0, 1], rest)
    ensures off + 4 <= |msg| && Read16(msg, off) == 1 && Read16(msg, off + 2) == 1
  {
    ByteRead(msg, off, [0, 1, 0, 1], rest, 0);
    ByteRead(msg, off, [0, 1, 0, 1], rest, 1);
    ByteRead(msg, off, [0, 1, 0, 1], rest, 2);
    ByteRead(msg, off, [0, 1, 0, 1], rest, 3);
  }

  /** An empty label, or one whose length looks like a pointer, ends the name early. */
  lemma {:induction false} OddLabelStops(msg: seq<Byte>, off: nat, labels: seq<seq<Byte>>, rest: seq<Byte>)
    requires forall i | 0 <= i < |labels| :: |labels[i]| <= 255
    requires exists i | 0 <= i < |labels| :: !Skippable(labels[i])
    requires Reads(msg, off, PrintLabels(labels) + [0], rest)
    ensures SkipName(msg, off) < off + |PrintLabels(labels) + [0]|
    decreases labels
  {
    hide Reads, SkipName, PrintLabels;
    var head: seq<Byte> := [|labels[0]| % 256] + labels[0];
    var more := PrintLabels(labels[1..]) + [0];
    PrintCut(labels, [0]);
    ReadOn(msg, off, head, more, rest);
    if !Skippable(labels[0]) {
      StopsEarly(msg, off, head, more + rest);
    } else {
      SkipLabel(msg, off, labels[0], more + rest);
      var i :| 0 <= i < |labels| && !Skippable(labels[i]);
      assert labels[1..][i - 1] == labels[i];
      OddLabelStops(msg, off + |head|, labels[1..], rest);
    }
  }

  lemma StopsEarly(msg: seq<Byte>, off: nat, first: seq<Byte>, rest: seq<Byte>)
    requires first != [] && (first[0] == 0 || first[0] >= 192) && Reads(msg, off, first, rest)
    ensures SkipName(msg, off) <= off + (if first[0] == 0 then 1 else 2)
  {
    ByteRead(msg, off, first, rest, 0);
  }

  /** For labels of at most 255 bytes, the name is skipped exactly if and only if each has 1 to 191. */
  lemma QuestionNameSkippedIff(h: CString, msg: seq<Byte>, rest: seq<Byte>)
    requires forall i | 0 <= i < |Labels(h, 0)| :: |Labels(h, 0)[i]| <= 255
    requires Reads(msg, HEADER, QueryName(h), [0, 1, 0, 1] + rest)
    ensures SkipName(msg, HEADER) == HEADER + |QueryName(h)|
            <==> forall i | 0 <= i < |Labels(h, 0)| :: Skippable(Labels(h, 0)[i])
  {
    if forall i | 0 <= i < |Labels(h, 0)| :: Skippable(Labels(h, 0)[i]) {
      QuestionNameSkipped(h, msg, rest);
    } else {
      var i :| 0 <= i < |Labels(h, 0)| && !Skippable(Labels(h, 0)[i]);
      assert QueryName(h) == PrintLabels(Labels(h, 0)) + [0];
      OddLabelStops(msg, HEADER, Labels(h, 0), [0, 1, 0, 1] + rest);
      assert SkipName(msg, HEADER) < HEADER + |QueryName(h)|;
    }
  }

  lemma DoubleDotName()
    ensures QueryName([0x61, DOT, DOT, 0x62]) == [1, 0x61, 0, 1, 0x62, 0]
  {
    var h := [0x61, DOT, DOT, 0x62];
    assert DotFrom(h, 3) == 4;
    assert Labels(h, 3) == [h[3..4]];
    assert DotFrom(h, 2) == 2;
    assert Labels(h, 2) == [h[2..2]] + Labels(h, 3);
    assert DotFrom(h, 0) == 1;
    assert Labels(h, 0) == [h[0..1]] + Labels(h, 2);
    assert h[0..1] == [0x61] && h[2..2] == [] && h[3..4] == [0x62];
    PrintStep(h[3..4], []);
    assert [h[3..4]] + [] == [h[3..4]];
    PrintStep(h[2..2], Labels(h, 3));
    PrintStep(h[0..1], Labels(h, 2));
  }

  /** Two dots in a row make an empty label: the name of "a..b" is left after three of its six bytes. */
  lemma DoubleDotStops(msg: seq<Byte>, rest: seq<Byte>)
    requires Reads(msg, HEADER, QueryName([0x61, DOT, DOT, 0x62]), [0, 1, 0, 1] + rest)
    ensures |QueryName([0x61, DOT, DOT, 0x62])| == 6 && SkipName(msg, HEADER) == HEADER + 3
  {
    var h := [0x61, DOT, DOT, 0x62];
    DoubleDotName();
    ByteRead(msg, HEADER, QueryName(h), [0, 1, 0, 1] + rest, 0);
    ByteRead(msg, HEADER, QueryName(h), [0, 1, 0, 1] + rest, 2);
  }

  /** The name of a host that is one label. */
  lemma OneLabelName(h: seq<Byte>)
    requires h != [] && forall k | 0 <= k < |h| :: h[k] != DOT
    ensures Labels(h, 0) == [h] && QueryName(h) == [|h| % 256] + h + [0]
  {
    hide DotFrom, Labels, PrintLabels;
    LabelsStep(h, 0);
    assert DotFrom(h, 0) == |h| && h[0..|h|] == h;
    PrintStep(h, []);
    NoLabels(h);
    assert [h] + [] == [h];
    assert [|h| % 256] + h + [] == [|h| % 256] + h;
  }

  /**
   * From 256 bytes on the length of a label decides nothing: of two host names of one
   * label of 257 bytes, the walk is exact for the one and runs past its name for the other.
   */
  lemma LongLabelsEitherWay(c: Byte, msg: seq<Byte>, rest: seq<Byte>)
    requires c == 127 || c == 97
    requires Reads(msg, HEADER, QueryName(seq(257, _ => c)), [0, 1, 0, 1] + rest)
    ensures SkipName(msg, HEADER) == HEADER + |QueryName(seq(257, _ => c))| <==> c == 127
  {
    var h: seq<Byte> := seq(257, _ => c);
    OneLabelName(h);
    hide Labels, PrintLabels, DotFrom, QueryName;
    var name := QueryName(h);
    forall k | 0 <= k < |name| ensures HEADER + k < |msg| && msg[HEADER + k] == name[k] {
      ByteRead(msg, HEADER, name, [0, 1, 0, 1] + rest, k);
    }
    assert SkipName(msg, HEADER) == SkipName(msg, HEADER + 2);
    assert msg[HEADER + 2] == name[2] == c;
    if c == 127 {
      assert msg[HEADER + 130] == name[130] == c;
      assert SkipName(msg, HEADER + 2) == SkipName(msg, HEADER + 130) == SkipName(msg, HEADER + 258);
      assert msg[HEADER + 258] == name[258] == 0;
    } else {
      assert msg[HEADER + 100] == name[100] == c;
      assert msg[HEADER + 198] == name[198] == c;
      assert SkipName(msg, HEADER + 2) == SkipName(msg, HEADER + 100) == SkipName(msg, HEADER + 198);
      assert SkipName(msg, HEADER + 198) >= HEADER + 296;
    }
  }
}
