/** Whole DNS responses (net-tools/src/nslookup.c): what is written in wire form, questions and records with names
    written out or compressed, is found again by the walk (RFC 1035, section 4.1). */
module Responses {
  import opened Bytes
  import opened DomainNames
  import opened Sequences
  import opened Wrappers

  /** A question: its name as written, its labels, and two bytes each of type and class. */
  datatype Question = Question(bytes: seq<Byte>, labels: seq<Label>, kindAndClass: seq<Byte>)

  /** A resource record: its owner as written, its labels, its type, two bytes of class and four of time to live, and
      its data. */
  datatype Resource = Resource(bytes: seq<Byte>, owner: seq<Label>, kind: nat, classAndTime: seq<Byte>, data: seq<Byte>)

  /** Two bytes, the most significant first. */
  function Big(n: nat): (bytes: seq<Byte>) { [n / 256 % 256, n % 256] }

  predicate Proper(r: Resource) {
    r.kind < 0x1_0000 && |r.classAndTime| == 6 && |r.data| < 0x1_0000
  }

  function QuestionBytes(q: Question): seq<Byte> { q.bytes + q.kindAndClass }

  function ResourceBytes(r: Resource): seq<Byte> {
    r.bytes + (Big(r.kind) + r.classAndTime + Big(|r.data|) + r.data)
  }

  function AllQuestions(qs: seq<Question>): seq<Byte> {
    if qs == [] then [] else QuestionBytes(qs[0]) + AllQuestions(qs[1..])
  }

  function AllResources(rs: seq<Resource>): seq<Byte> {
    if rs == [] then [] else ResourceBytes(rs[0]) + AllResources(rs[1..])
  }

  /** These bytes at this place are read as this name, whatever comes after them. */
  ghost predicate NameHere(m: seq<Byte>, off: nat, bytes: seq<Byte>, labels: seq<Label>) {
    NameAt(m, off, MAX_HOPS) == Some(labels) && NextAt(m, off) == off + |bytes| && Fits(labels, OWNER_SIZE)
  }

  lemma {:induction false} FitsMore(labels: seq<Label>, cap: nat, more: nat)
    requires Fits(labels, cap) && cap <= more
    ensures Fits(labels, more)
  {
    forall k | 0 <= k < |labels| ensures |Join(labels[..k])| + |labels[k]| + 2 <= more {
      assert |Join(labels[..k])| + |labels[k]| + 2 <= cap;
    }
  }

  /** A name written out. */
  lemma PlainHere(m: seq<Byte>, off: nat, labels: seq<Label>)
    requires ProperLabels(labels) && |Wire(labels)| <= MAX_NAME && Has(m, off, Wire(labels))
    ensures NameHere(m, off, Wire(labels), labels)
  {
    PlainName(m, off, labels, MAX_HOPS);
    FitsInWire(labels);
    FitsMore(labels, |Wire(labels)|, OWNER_SIZE);
  }

  /** A name whose ending is a pointer to where that ending is written out. */
  lemma CompressedHere(m: seq<Byte>, off: nat, head: seq<Label>, tail: seq<Label>, target: nat)
    requires ProperLabels(head) && ProperLabels(tail) && |WireLabels(head)| + |Wire(tail)| <= MAX_NAME
    requires target < 0x4000 && Has(m, target, Wire(tail))
    requires Has(m, off, WireLabels(head) + [0xC0 + target / 256, target % 256])
    ensures NameHere(m, off, WireLabels(head) + [0xC0 + target / 256, target % 256], head + tail)
  {
    hide WireLabels, NameAt, NextAt, Fits, Wire;
    var pointer: seq<Byte> := [0xC0 + target / 256, target % 256];
    HasSplit(m, off, WireLabels(head), pointer);
    PointerLeads(m, off + |WireLabels(head)|, target);
    CompressedReads(m, off, head, tail, 1, target);
    WholeFits(head, tail);
  }

  lemma WholeFits(head: seq<Label>, tail: seq<Label>)
    requires ProperLabels(head) && ProperLabels(tail) && |WireLabels(head)| + |Wire(tail)| <= MAX_NAME
    ensures Fits(head + tail, OWNER_SIZE)
  {
    hide WireLabels, Fits;
    WireAppend(head, tail);
    FitsInWire(head + tail);
    FitsMore(head + tail, |Wire(head + tail)|, OWNER_SIZE);
  }

  lemma PointerLeads(m: seq<Byte>, at: nat, target: nat)
    requires target < 0x4000 && Has(m, at, [0xC0 + target / 256, target % 256])
    ensures Chain(m, at, 1, target)
  {
    var pointer: seq<Byte> := [0xC0 + target / 256, target % 256];
    assert m[at] == m[at..at + 2][0] == pointer[0] && m[at + 1] == m[at..at + 2][1] == pointer[1];
    assert Chain(m, target, 0, target) && Target(m, at) == target;
  }

  ghost predicate QuestionsHere(m: seq<Byte>, off: nat, qs: seq<Question>)
    decreases |qs|
  {
    qs == [] ||
    (Has(m, off, QuestionBytes(qs[0])) && |qs[0].kindAndClass| == 4 &&
     NameHere(m, off, qs[0].bytes, qs[0].labels) && QuestionsHere(m, off + |QuestionBytes(qs[0])|, qs[1..]))
  }

  ghost predicate ResourcesHere(m: seq<Byte>, off: nat, rs: seq<Resource>)
    decreases |rs|
  {
    rs == [] ||
    (Proper(rs[0]) && Has(m, off, ResourceBytes(rs[0])) && NameHere(m, off, rs[0].bytes, rs[0].owner) &&
     ResourcesHere(m, off + |ResourceBytes(rs[0])|, rs[1..]))
  }

  lemma {:induction false} QuestionsSkipped(m: seq<Byte>, off: nat, qs: seq<Question>)
    requires QuestionsHere(m, off, qs)
    ensures AfterQuestions(m, off, |qs|) == Some(off + |AllQuestions(qs)|)
    decreases |qs|
  {
    hide NameAt, NextAt, Fits;
    if qs != [] {
      QuestionsSkipped(m, off + |QuestionBytes(qs[0])|, qs[1..]);
    }
  }

  /** A record found by the walk is the one that was written: owner, type and, byte for byte, data. */
  ghost predicate Found(m: seq<Byte>, answer: Answer, r: Resource) {
    answer.owner == r.owner && answer.kind == r.kind && answer.len == |r.data| &&
    answer.off + answer.len <= |m| && m[answer.off..answer.off + answer.len] == r.data
  }

  lemma WordHere(m: seq<Byte>, at: nat, n: nat)
    requires n < 0x1_0000 && Has(m, at, Big(n))
    ensures at + 1 < |m| && Word16(m, at) == n
  {
    assert m[at] == m[at..at + 2][0] == Big(n)[0] && m[at + 1] == m[at..at + 2][1] == Big(n)[1];
  }

  lemma ResourceParts(m: seq<Byte>, off: nat, r: Resource)
    requires Proper(r) && Has(m, off, ResourceBytes(r))
    ensures var fixed := off + |r.bytes|;
            fixed + 10 + |r.data| <= |m| && Word16(m, fixed) == r.kind && Word16(m, fixed + 8) == |r.data| &&
            m[fixed + 10..fixed + 10 + |r.data|] == r.data && |ResourceBytes(r)| == |r.bytes| + 10 + |r.data|
  {
    hide Word16;
    var fixed, kind, len := off + |r.bytes|, Big(r.kind), Big(|r.data|);
    HasSplit(m, off, r.bytes, kind + r.classAndTime + len + r.data);
    HasSplit(m, fixed, kind + r.classAndTime + len, r.data);
    HasSplit(m, fixed, kind + r.classAndTime, len);
    HasSplit(m, fixed, kind, r.classAndTime);
    WordHere(m, fixed, r.kind);
    WordHere(m, fixed + 8, |r.data|);
  }

  lemma {:induction false} ResourcesFound(m: seq<Byte>, off: nat, rs: seq<Resource>)
    requires ResourcesHere(m, off, rs)
    ensures var answers := AnswersAt(m, off, |rs|);
            answers.Some? && |answers.value| == |rs| && forall i :: 0 <= i < |rs| ==> Found(m, answers.value[i], rs[i])
    decreases |rs|
  {
    hide NameAt, NextAt, Fits, Word16, Has, ResourceBytes, Found;
    if rs != [] {
      ResourceParts(m, off, rs[0]);
      ResourcesFound(m, off + |ResourceBytes(rs[0])|, rs[1..]);
      FirstFound(m, off, rs[0], |rs|);
      var rest := AnswersAt(m, off + |ResourceBytes(rs[0])|, |rs| - 1).value;
      var all := AnswersAt(m, off, |rs|).value;
      forall i | 0 <= i < |rs| ensures Found(m, all[i], rs[i]) {
        if i > 0 {
          assert all[i] == rest[i - 1] && rs[i] == rs[1..][i - 1];
        }
      }
    }
  }

  lemma FirstFound(m: seq<Byte>, off: nat, r: Resource, count: nat)
    requires Proper(r) && Has(m, off, ResourceBytes(r)) && NameHere(m, off, r.bytes, r.owner) && count > 0
    requires AnswersAt(m, off + |ResourceBytes(r)|, count - 1).Some?
    ensures var answer := Answer(r.owner, r.kind, off + |r.bytes| + 10, |r.data|);
            Found(m, answer, r) &&
            AnswersAt(m, off, count) == Some([answer] + AnswersAt(m, off + |ResourceBytes(r)|, count - 1).value)
  {
    hide NameAt, NextAt, Fits, Word16, ResourceBytes;
    ResourceParts(m, off, r);
  }

  /** A response with these counts in its header, these questions and these records is walked to exactly these
      records, whatever follows them. */
  lemma ResponseReadBack(m: seq<Byte>, qs: seq<Question>, rs: seq<Resource>)
    requires |m| >= 12 && Has(m, 4, Big(|qs|)) && Has(m, 6, Big(|rs|)) && |qs| < 0x1_0000 && |rs| < 0x1_0000
    requires QuestionsHere(m, 12, qs) && ResourcesHere(m, 12 + |AllQuestions(qs)|, rs)
    ensures var start := AfterQuestions(m, HEADER, Word16(m, 4));
            start.Some? && var answers := AnswersAt(m, start.value, Word16(m, 6));
            answers.Some? && |answers.value| == |rs| && forall i :: 0 <= i < |rs| ==> Found(m, answers.value[i], rs[i])
  {
    hide Word16, AfterQuestions, AnswersAt, Found, Has, Big, AllQuestions, QuestionsHere, ResourcesHere;
    WordHere(m, 4, |qs|);
    WordHere(m, 6, |rs|);
    QuestionsSkipped(m, 12, qs);
    ResourcesFound(m, 12 + |AllQuestions(qs)|, rs);
  }

  // ---- responses without compression -----------------------------------------------------------

  predicate PlainQuestion(q: Question) {
    ProperLabels(q.labels) && |Wire(q.labels)| <= MAX_NAME && q.bytes == Wire(q.labels) && |q.kindAndClass| == 4
  }

  predicate PlainResource(r: Resource) {
    Proper(r) && ProperLabels(r.owner) && |Wire(r.owner)| <= MAX_NAME && r.bytes == Wire(r.owner)
  }

  lemma {:induction false} PlainQuestionsHere(m: seq<Byte>, off: nat, qs: seq<Question>)
    requires Has(m, off, AllQuestions(qs)) && forall i :: 0 <= i < |qs| ==> PlainQuestion(qs[i])
    ensures QuestionsHere(m, off, qs)
    decreases |qs|
  {
    hide Has, NameHere, Wire;
    if qs != [] {
      HasSplit(m, off, QuestionBytes(qs[0]), AllQuestions(qs[1..]));
      HasSplit(m, off, qs[0].bytes, qs[0].kindAndClass);
      PlainHere(m, off, qs[0].labels);
      PlainQuestionsHere(m, off + |QuestionBytes(qs[0])|, qs[1..]);
    }
  }

  lemma {:induction false} PlainResourcesHere(m: seq<Byte>, off: nat, rs: seq<Resource>)
    requires forall i :: 0 <= i < |rs| ==> PlainResource(rs[i])
    requires Has(m, off, AllResources(rs))
    ensures ResourcesHere(m, off, rs)
    decreases |rs|
  {
    hide Has, NameHere, Wire;
    if rs != [] {
      HasSplit(m, off, ResourceBytes(rs[0]), AllResources(rs[1..]));
      HasSplit(m, off, rs[0].bytes, Big(rs[0].kind) + rs[0].classAndTime + Big(|rs[0].data|) + rs[0].data);
      PlainHere(m, off, rs[0].owner);
      PlainResourcesHere(m, off + |ResourceBytes(rs[0])|, rs[1..]);
    }
  }

  /** A response put together from a header, questions and records in wire form is walked back to its records. */
  lemma RoundTrip(ids: seq<Byte>, qs: seq<Question>, rs: seq<Resource>, others: seq<Byte>, rest: seq<Byte>)
    requires |ids| == 4 && |others| == 4 && |qs| < 0x1_0000 && |rs| < 0x1_0000
    requires (forall i :: 0 <= i < |qs| ==> PlainQuestion(qs[i])) && forall i :: 0 <= i < |rs| ==> PlainResource(rs[i])
    ensures var m := (ids + Big(|qs|) + Big(|rs|) + others) + (AllQuestions(qs) + (AllResources(rs) + rest));
            var start := AfterQuestions(m, HEADER, Word16(m, 4));
            |m| >= HEADER && start.Some? && var answers := AnswersAt(m, start.value, Word16(m, 6));
            answers.Some? && |answers.value| == |rs| && forall i :: 0 <= i < |rs| ==> Found(m, answers.value[i], rs[i])
  {
    hide Word16, AfterQuestions, AnswersAt, Found, AllQuestions, AllResources, PlainQuestion, PlainResource, Has, Big,
         QuestionsHere, ResourcesHere;
    var header, tail := ids + Big(|qs|) + Big(|rs|) + others, AllResources(rs) + rest;
    var m := header + (AllQuestions(qs) + tail);
    WholeHere(m);
    HasSplit(m, 0, header, AllQuestions(qs) + tail);
    HeaderHere(m, ids, |qs|, |rs|, others);
    HasSplit(m, 12, AllQuestions(qs), tail);
    HasSplit(m, 12 + |AllQuestions(qs)|, AllResources(rs), rest);
    PlainQuestionsHere(m, 12, qs);
    PlainResourcesHere(m, 12 + |AllQuestions(qs)|, rs);
    ResponseReadBack(m, qs, rs);
  }

  lemma WholeHere(m: seq<Byte>)
    ensures Has(m, 0, m)
  {
  }

  lemma HeaderHere(m: seq<Byte>, ids: seq<Byte>, questions: nat, answers: nat, others: seq<Byte>)
    requires |ids| == 4 && |others| == 4 && Has(m, 0, ids + Big(questions) + Big(answers) + others)
    ensures |ids + Big(questions) + Big(answers) + others| == 12 <= |m|
    ensures Has(m, 4, Big(questions)) && Has(m, 6, Big(answers))
  {
    HasSplit(m, 0, ids + Big(questions) + Big(answers), others);
    HasSplit(m, 0, ids + Big(questions), Big(answers));
    HasSplit(m, 0, ids, Big(questions));
  }
}
