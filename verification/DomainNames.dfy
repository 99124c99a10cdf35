/** Domain names in DNS messages (net-tools/src/nslookup.c): writing a dotted name as labels, reading a
    possibly compressed one back (RFC 1035, sections 3.1 and 4.1.4), and walking a message's answers. */
module DomainNames {
  import opened Bytes
  import opened Sequences
  import opened Wrappers

  type Label = seq<Byte>

  const DOT: Byte := 46
  const MAX_LABEL := 63
  const MAX_NAME := 255
  const COMPRESSED := 0xC0
  const MAX_HOPS := 32

  // ---- dotted names and labels ---------------------------------------------------------------

  /** The length of the first label: up to the first dot. */
  function FirstLabel(name: seq<Byte>): (len: nat)
    ensures len <= |name| && DOT !in name[..len] && (len < |name| ==> name[len] == DOT)
  {
    if name == [] || name[0] == DOT then 0
    else
      var rest := FirstLabel(name[1..]);
      assert name[..1 + rest] == [name[0]] + name[1..][..rest];
      1 + rest
  }

  /** What follows the first label and its dot. */
  function AfterLabel(name: seq<Byte>): (rest: seq<Byte>)
    requires name != []
    ensures |rest| < |name| || FirstLabel(name) == 0
  {
    var len := FirstLabel(name);
    if len < |name| then name[len + 1..] else []
  }

  /** The labels of a dotted name: none of them empty or too long; one dot may end the name. */
  function LabelsOf(name: seq<Byte>): Option<seq<Label>>
    decreases |name|
  {
    if name == [] then Some([])
    else
      var len := FirstLabel(name);
      if len == 0 || len > MAX_LABEL then None
      else
        match LabelsOf(AfterLabel(name))
        case None => None
        case Some(rest) => Some([name[..len]] + rest)
  }

  /** Labels joined by dots. */
  function Join(labels: seq<Label>): seq<Byte> {
    if labels == [] then []
    else if |labels| == 1 then labels[0]
    else Join(labels[..|labels| - 1]) + [DOT] + labels[|labels| - 1]
  }

  /** The dotted name; the root is a single dot. */
  function Dotted(labels: seq<Label>): seq<Byte> {
    if Join(labels) == [] then [DOT] else Join(labels)
  }

  predicate ProperLabels(labels: seq<Label>) {
    forall i :: 0 <= i < |labels| ==> 0 < |labels[i]| <= MAX_LABEL && DOT !in labels[i]
  }

  /** Each label after its length. */
  function WireLabels(labels: seq<Label>): seq<Byte>
    requires ProperLabels(labels)
  {
    if labels == [] then []
    else WireLabels(labels[..|labels| - 1]) + [|labels[|labels| - 1]|] + labels[|labels| - 1]
  }

  function Wire(labels: seq<Label>): seq<Byte>
    requires ProperLabels(labels)
  {
    WireLabels(labels) + [0]
  }

  /** Both forms, label by label: printed, labels with dots between them and a dot alone for the root; on the wire,
      each label after its length and a zero at the end. */
  lemma FormsInBytes(labels: seq<Label>, last: Label)
    ensures Dotted([]) == [46] && Join([last]) == last
    ensures labels != [] ==> Join(labels + [last]) == Join(labels) + [46] + last
    ensures Join(labels) != [] ==> Dotted(labels) == Join(labels)
    ensures ProperLabels(labels + [last]) ==>
              ProperLabels(labels) && Wire([]) == [0] && 0 < |last| <= 63 &&
              Wire(labels) == WireLabels(labels) + [0] &&
              Wire(labels + [last]) == WireLabels(labels) + [|last|] + last + [0]
  {
    var all := labels + [last];
    assert all[..|labels|] == labels;
    if ProperLabels(all) {
      assert forall i :: 0 <= i < |labels| ==> labels[i] == all[i];
      assert all[|labels|] == last;
    }
  }

  lemma {:induction false} LabelsAreProper(name: seq<Byte>)
    ensures LabelsOf(name).Some? ==> ProperLabels(LabelsOf(name).value) && (name != [] ==> LabelsOf(name).value != [])
    decreases |name|
  {
    if name != [] && FirstLabel(name) > 0 {
      LabelsAreProper(AfterLabel(name));
    }
  }

  lemma {:induction false} JoinCons(first: Label, rest: seq<Label>)
    requires rest != []
    ensures Join([first] + rest) == first + [DOT] + Join(rest)
  {
    var all := [first] + rest;
    if |rest| == 1 {
      assert all[..1] == [first];
    } else {
      var init, last := rest[..|rest| - 1], rest[|rest| - 1];
      JoinCons(first, init);
      assert all[..|all| - 1] == [first] + init;
      assert Join(all) == first + [DOT] + Join(init) + [DOT] + last;
      assert Join(rest) == Join(init) + [DOT] + last;
    }
  }

  lemma NameSplits(name: seq<Byte>)
    requires name != [] && FirstLabel(name) > 0
    ensures var part, rest := name[..FirstLabel(name)], AfterLabel(name);
            if FirstLabel(name) == |name| then name == part && rest == [] && name[|name| - 1] != DOT
            else name == part + ([DOT] + rest)
  {
    hide FirstLabel;
    var len := FirstLabel(name);
    if len == |name| {
      SplitLast(name);
      assert name[..len] == name;
    } else {
      SplitAt(name, len);
    }
  }

  lemma LabelsStep(name: seq<Byte>)
    requires name != [] && LabelsOf(name).Some?
    ensures 0 < FirstLabel(name) <= MAX_LABEL && LabelsOf(AfterLabel(name)).Some?
    ensures LabelsOf(name).value == [name[..FirstLabel(name)]] + LabelsOf(AfterLabel(name)).value
    ensures AfterLabel(name) == [] ==> LabelsOf(name).value == [name[..FirstLabel(name)]]
  {
  }

  /** Splitting a name into labels and joining them gives the name back, but for an ending dot. */
  lemma {:induction false} JoinOfLabels(name: seq<Byte>)
    requires name != [] && LabelsOf(name).Some?
    ensures Join(LabelsOf(name).value) == if name[|name| - 1] == DOT then name[..|name| - 1] else name
    decreases |name|
  {
    hide FirstLabel, LabelsOf, AfterLabel;
    LabelsStep(name);
    NameSplits(name);
    var part, rest := name[..FirstLabel(name)], AfterLabel(name);
    if rest != [] {
      LabelsAreProper(rest);
      JoinOfLabels(rest);
      JoinCons(part, LabelsOf(rest).value);
      DropLastOfJoin(name, part, rest);
    } else if FirstLabel(name) < |name| {
      AppendNothing([DOT]);
      InitAndLast(part, DOT);
    }
  }

  lemma DropLastOfJoin(name: seq<Byte>, part: seq<Byte>, rest: seq<Byte>)
    requires rest != [] && name == part + ([DOT] + rest)
    ensures name[|name| - 1] == rest[|rest| - 1] && name == part + [DOT] + rest
    ensures name[..|name| - 1] == part + [DOT] + rest[..|rest| - 1]
  {
    AppendAssociates(part, [DOT], rest);
  }

  lemma JoinSnoc(done: seq<Label>, part: Label)
    ensures Join(done + [part]) == if done == [] then part else Join(done) + [DOT] + part
  {
    assert (done + [part])[..|done|] == done;
  }

  ghost predicate NonEmpty(labels: seq<Label>) {
    forall i :: 0 <= i < |labels| ==> labels[i] != []
  }

  lemma JoinNonEmpty(labels: seq<Label>)
    requires NonEmpty(labels)
    ensures Join(labels) == [] <==> labels == []
  {
    if labels != [] {
      assert labels[|labels| - 1] != [];
    }
  }

  /** A first label and its dot are split off. */
  lemma {:induction false} FirstLabelOf(part: Label, rest: seq<Byte>)
    requires DOT !in part && (rest == [] || rest[0] == DOT)
    ensures FirstLabel(part + rest) == |part|
  {
    if part != [] {
      assert (part + rest)[1..] == part[1..] + rest;
      FirstLabelOf(part[1..], rest);
    }
  }

  /** Joining proper labels and splitting the name gives the labels back. */
  lemma {:induction false} LabelsOfJoin(labels: seq<Label>)
    requires ProperLabels(labels)
    ensures LabelsOf(Join(labels)) == Some(labels)
  {
    hide FirstLabel;
    if labels != [] {
      var part, rest := labels[0], labels[1..];
      SplitFirst(labels);
      LabelsOfJoin(rest);
      if rest == [] {
        AppendNothing(part);
        FirstLabelOf(part, []);
      } else {
        JoinCons(part, rest);
        AppendAssociates(part, [DOT], Join(rest));
        FirstLabelOf(part, [DOT] + Join(rest));
        SplitAfter(part, Join(rest));
      }
    }
  }

  lemma SplitAfter(part: seq<Byte>, rest: seq<Byte>)
    ensures var all := part + ([DOT] + rest);
            all[..|part|] == part && all[|part| + 1..] == rest
  {
  }

  /** The dotted form of a name says what its labels are exactly when there are some and all are proper: names
      read from a message with a dot or more than 63 bytes in a label do not survive being printed. */
  lemma DottedReadsBackExactly(labels: seq<Label>)
    ensures LabelsOf(Dotted(labels)) == Some(labels) <==> labels != [] && ProperLabels(labels)
  {
    hide LabelsOf;
    LabelsAreProper(Dotted(labels));
    if labels != [] && ProperLabels(labels) {
      JoinNonEmpty(labels);
      LabelsOfJoin(labels);
    }
  }

  /** Two names with the same dotted form: one label with a dot in it, and two labels. */
  lemma SameDottedForm()
    ensures var one, two: seq<Label> := [[97, DOT, 98]], [[97], [98]];
            one != two && Dotted(one) == Dotted(two)
  {
    assert Join([[97], [98]]) == Join([[97]]) + [DOT] + [98] by {
      JoinSnoc([[97]], [98]);
    }
    assert [97] + [DOT] + [98] == [97, DOT, 98];
    assert [[97, DOT, 98]] != [[97], [98]];
  }

  // ---- writing a name ------------------------------------------------------------------------

  lemma WireSnoc(labels: seq<Label>, part: Label)
    requires ProperLabels(labels) && 0 < |part| <= MAX_LABEL && DOT !in part
    ensures ProperLabels(labels + [part]) && WireLabels(labels + [part]) == WireLabels(labels) + [|part|] + part
  {
    assert (labels + [part])[..|labels|] == labels;
  }

  lemma {:induction false} WireCons(part: Label, rest: seq<Label>)
    requires ProperLabels(rest) && 0 < |part| <= MAX_LABEL && DOT !in part
    ensures ProperLabels([part] + rest) && WireLabels([part] + rest) == [|part|] + part + WireLabels(rest)
  {
    hide WireLabels;
    if rest == [] {
      AppendNothing([part]);
      WireSnoc([], part);
      WireOfNone();
      AppendNothing([|part|] + part);
    } else {
      var init, last := rest[..|rest| - 1], rest[|rest| - 1];
      WireCons(part, init);
      SplitLast(rest);
      AppendAssociates([part], init, [last]);
      WireSnoc([part] + init, last);
      WireSnoc(init, last);
      AppendAssociates4([|part|] + part, WireLabels(init), [|last|], last);
    }
  }

  lemma WireOfNone()
    ensures WireLabels([]) == []
  {
  }

  /** Writes a dotted name in wire form from n on. The end of it, or -1 if it is refused or too long. */
  method PutName(q: array<Byte>, n: nat, name: seq<Byte>) returns (end: int)
    requires q.Length > MAX_NAME && n < q.Length
    modifies q
    ensures end >= 0 <==> LabelsOf(name).Some? && (name == [] || n + |WireOf(name)| <= MAX_NAME)
    ensures end >= 0 ==> end == n + |WireOf(name)| + 1 && end <= q.Length && q[n..end] == WireOf(name) + [0]
    ensures q[..n] == old(q[..n])
  {
    hide FirstLabel, WireLabels, LabelsOf, Prepend, WireOf, AfterLabel;
    var p, at := name, n;
    ghost var done: seq<Label> := [];
    StartPrepend(name);
    while p != []
      invariant ProperLabels(done) && at == n + |WireLabels(done)| && (done == [] || at <= MAX_NAME)
      invariant at < q.Length && q[n..at] == WireLabels(done) && q[..n] == old(q[..n])
      invariant LabelsOf(name) == Prepend(done, LabelsOf(p)) && (p != [] ==> name != [])
      decreases |p|
    {
      var len := FirstLabel(p);
      if len == 0 || len > MAX_LABEL || at + 1 + len > MAX_NAME {
        CannotPut(name, done, p, n, at);
        return -1;
      }
      WireSnoc(done, p[..len]);
      PrependStep(done, p);
      AfterIsShorter(p);
      AppendLabel(q, n, at, p[..len]);
      done := done + [p[..len]];
      at := at + 1 + len;
      p := AfterLabel(p);
    }
    AllPut(name, done);
    CloseName(q, n, at);
    end := at + 1;
  }

  method CloseName(q: array<Byte>, n: nat, at: nat)
    requires n <= at < q.Length
    modifies q
    ensures q[n..at + 1] == old(q[n..at]) + [0] && q[..n] == old(q[..n])
  {
    q[at] := 0;
  }

  method AppendLabel(q: array<Byte>, n: nat, at: nat, part: Label)
    requires 0 < |part| <= MAX_LABEL && n <= at && at + 1 + |part| <= q.Length
    modifies q
    ensures q[n..at + 1 + |part|] == old(q[n..at]) + [|part|] + part && q[..n] == old(q[..n])
  {
    CopyLabel(q, at, part);
    assert q[n..at + 1 + |part|] == q[..at][n..] + q[at..at + 1 + |part|];
    assert q[..n] == q[..at][..n];
  }

  lemma StartPrepend(name: seq<Byte>)
    ensures LabelsOf(name) == Prepend([], LabelsOf(name)) && WireLabels([]) == []
  {
    assert LabelsOf(name).Some? ==> [] + LabelsOf(name).value == LabelsOf(name).value;
  }

  lemma EndPrepend(done: seq<Label>)
    ensures Prepend(done, LabelsOf([])) == Some(done)
  {
    var none: seq<Label> := [];
    assert LabelsOf([]) == Some(none);
    assert Prepend(done, Some(none)) == Some(done + none);
    assert done + none == done;
  }

  lemma PrependStep(done: seq<Label>, p: seq<Byte>)
    requires p != [] && 0 < FirstLabel(p) <= MAX_LABEL
    ensures Prepend(done, LabelsOf(p)) == Prepend(done + [p[..FirstLabel(p)]], LabelsOf(AfterLabel(p)))
  {
    hide FirstLabel, AfterLabel, Prepend;
    var part := p[..FirstLabel(p)];
    FirstThenRest(p);
    hide LabelsOf;
    PrependTwice(done, [part], LabelsOf(AfterLabel(p)));
  }

  lemma FirstThenRest(p: seq<Byte>)
    requires p != [] && 0 < FirstLabel(p) <= MAX_LABEL
    ensures LabelsOf(p) == Prepend([p[..FirstLabel(p)]], LabelsOf(AfterLabel(p)))
  {
    hide FirstLabel, AfterLabel;
  }

  /** A label that is refused, or does not fit, makes the whole name refused or too long. */
  lemma Refused(done: seq<Label>, p: seq<Byte>, used: nat)
    requires p != [] && ProperLabels(done) && used == |WireLabels(done)|
    ensures FirstLabel(p) == 0 || FirstLabel(p) > MAX_LABEL ==> LabelsOf(p).None?
    ensures LabelsOf(p).Some? ==> ProperLabels(done + LabelsOf(p).value)
    ensures LabelsOf(p).Some? ==> |WireLabels(done + LabelsOf(p).value)| >= used + 1 + FirstLabel(p)
  {
    LabelsAreProper(p);
    if LabelsOf(p).Some? {
      TooLong(done, LabelsOf(p).value);
    }
  }

  /** A name that was only put as far as these labels is refused or does not fit. */
  lemma CannotPut(name: seq<Byte>, done: seq<Label>, p: seq<Byte>, n: nat, at: nat)
    requires name != [] && p != [] && ProperLabels(done) && at == n + |WireLabels(done)|
    requires LabelsOf(name) == Prepend(done, LabelsOf(p))
    requires FirstLabel(p) == 0 || FirstLabel(p) > MAX_LABEL || at + 1 + FirstLabel(p) > MAX_NAME
    ensures LabelsOf(name).None? || n + |WireOf(name)| > MAX_NAME
  {
    hide FirstLabel, WireLabels, LabelsOf;
    Refused(done, p, at - n);
  }

  lemma AllPut(name: seq<Byte>, done: seq<Label>)
    requires ProperLabels(done) && LabelsOf(name) == Prepend(done, LabelsOf([]))
    ensures LabelsOf(name) == Some(done) && WireOf(name) == WireLabels(done)
    ensures done == [] <==> name == []
  {
    hide FirstLabel, WireLabels, LabelsOf;
    EndPrepend(done);
    LabelsAreProper(name);
    NoLabels(name);
  }

  lemma NoLabels(name: seq<Byte>)
    ensures name == [] ==> LabelsOf(name) == Some([])
  {
  }

  lemma AfterIsShorter(p: seq<Byte>)
    requires p != [] && FirstLabel(p) > 0
    ensures |AfterLabel(p)| < |p|
  {
  }

  function Prepend(done: seq<Label>, rest: Option<seq<Label>>): Option<seq<Label>> {
    match rest
    case None => None
    case Some(labels) => Some(done + labels)
  }

  /** A name's labels on the wire, without the closing root. */
  function WireOf(name: seq<Byte>): seq<Byte> {
    LabelsAreProper(name);
    if LabelsOf(name).Some? then WireLabels(LabelsOf(name).value) else []
  }

  lemma {:induction false} WireAppend(done: seq<Label>, rest: seq<Label>)
    requires ProperLabels(done) && ProperLabels(rest)
    ensures ProperLabels(done + rest) && WireLabels(done + rest) == WireLabels(done) + WireLabels(rest)
    decreases |rest|
  {
    hide WireLabels;
    if rest == [] {
      AppendNothing(done);
      WireOfNone();
      AppendNothing(WireLabels(done));
    } else {
      var init, last := rest[..|rest| - 1], rest[|rest| - 1];
      WireAppend(done, init);
      SplitLast(rest);
      AppendAssociates(done, init, [last]);
      WireSnoc(done + init, last);
      WireSnoc(init, last);
      AppendAssociates4(WireLabels(done), WireLabels(init), [|last|], last);
    }
  }

  lemma TooLong(done: seq<Label>, rest: seq<Label>)
    requires ProperLabels(done) && ProperLabels(rest) && rest != []
    ensures ProperLabels(done + rest)
    ensures |WireLabels(done + rest)| >= |WireLabels(done)| + 1 + |rest[0]|
  {
    hide WireLabels;
    WireAppend(done, rest);
    ProperParts(rest);
  }

  method CopyLabel(q: array<Byte>, at: nat, part: Label)
    requires 0 < |part| <= MAX_LABEL && at + 1 + |part| <= q.Length
    modifies q
    ensures q[..at] == old(q[..at]) && q[at..at + 1 + |part|] == [|part|] + part
    ensures q[at + 1 + |part|..] == old(q[at + 1 + |part|..])
  {
    q[at] := |part|;
    for i := 0 to |part|
      invariant q[at] == |part| && q[at + 1..at + 1 + i] == part[..i]
      invariant q[..at] == old(q[..at]) && q[at + 1 + |part|..] == old(q[at + 1 + |part|..])
    {
      q[at + 1 + i] := part[i];
      assert q[at + 1..at + 2 + i] == q[at + 1..at + 1 + i] + [part[i]];
    }
    assert q[at..at + 1 + |part|] == [q[at]] + q[at + 1..at + 1 + |part|];
  }

  // ---- what a message encodes ----------------------------------------------------------------

  /** The word of a compression pointer at pos. */
  function Target(m: seq<Byte>, pos: nat): nat
    requires pos + 1 < |m| && m[pos] >= COMPRESSED
  {
    (m[pos] - COMPRESSED) * 0x100 + m[pos + 1]
  }

  /** At pos the message has these labels, through at most `hops` compression pointers, where any byte below
      a pointer's is a length: RFC 1035 reserves the lengths from 64 on. */
  ghost predicate Encodes(m: seq<Byte>, pos: nat, labels: seq<Label>, hops: nat)
    decreases hops, |labels|
  {
    pos < |m| &&
    ((m[pos] == 0 && labels == []) ||
     (m[pos] >= COMPRESSED && hops > 0 && pos + 1 < |m| && Encodes(m, Target(m, pos), labels, hops - 1)) ||
     (0 < m[pos] < COMPRESSED && labels != [] && pos + 1 + m[pos] <= |m| && m[pos + 1..pos + 1 + m[pos]] == labels[0] &&
      Encodes(m, pos + 1 + m[pos], labels[1..], hops)))
  }

  /** The labels at pos, if they are encoded: pointer hops left, then bytes left, go down. */
  function NameAt(m: seq<Byte>, pos: nat, hops: nat): Option<seq<Label>>
    decreases hops, if pos <= |m| then |m| - pos else 0
  {
    if pos >= |m| then None
    else if m[pos] == 0 then Some([])
    else if m[pos] >= COMPRESSED then
      if pos + 1 >= |m| || hops == 0 then None else NameAt(m, Target(m, pos), hops - 1)
    else if pos + 1 + m[pos] > |m| then None
    else
      match NameAt(m, pos + 1 + m[pos], hops)
      case None => None
      case Some(rest) => Some([m[pos + 1..pos + 1 + m[pos]]] + rest)
  }

  /** A name has exactly one reading. */
  lemma {:induction false} NameAtIsEncoded(m: seq<Byte>, pos: nat, labels: seq<Label>, hops: nat)
    ensures Encodes(m, pos, labels, hops) <==> NameAt(m, pos, hops) == Some(labels)
    decreases hops, if pos <= |m| then |m| - pos else 0
  {
    if pos < |m| && m[pos] >= COMPRESSED && pos + 1 < |m| && hops > 0 {
      NameAtIsEncoded(m, Target(m, pos), labels, hops - 1);
    } else if pos < |m| && 0 < m[pos] < COMPRESSED && pos + 1 + m[pos] <= |m| {
      var first := m[pos + 1..pos + 1 + m[pos]];
      var rest := NameAt(m, pos + 1 + m[pos], hops);
      if labels != [] {
        NameAtIsEncoded(m, pos + 1 + m[pos], labels[1..], hops);
        assert rest.Some? ==> ([first] + rest.value)[1..] == rest.value;
        assert labels == [labels[0]] + labels[1..];
      }
    }
  }

  /** How long a name is written out, with its length bytes and its root. */
  function WireLength(labels: seq<Label>): nat {
    if labels == [] then 1 else 1 + |labels[0]| + WireLength(labels[1..])
  }

  /** The grammar of RFC 1035, sections 3.1 and 4.1.4: the same with labels of at most 63 bytes, and pointers that
      lead back to one of the places where the names of the message, and their endings, begin. */
  ghost predicate IsName(m: seq<Byte>, pos: nat, labels: seq<Label>, hops: nat, names: set<nat>)
    decreases hops, |labels|
  {
    pos < |m| &&
    ((m[pos] == 0 && labels == []) ||
     (m[pos] >= COMPRESSED && hops > 0 && pos + 1 < |m| && Target(m, pos) < pos && Target(m, pos) in names &&
      IsName(m, Target(m, pos), labels, hops - 1, names)) ||
     (0 < m[pos] <= MAX_LABEL && labels != [] && pos + 1 + m[pos] <= |m| && m[pos + 1..pos + 1 + m[pos]] == labels[0] &&
      IsName(m, pos + 1 + m[pos], labels[1..], hops, names)))
  }

  /** Every pointer that is followed leads back to such a place. */
  ghost predicate PointsBack(m: seq<Byte>, pos: nat, hops: nat, names: set<nat>)
    decreases hops, if pos <= |m| then |m| - pos else 0
  {
    if pos >= |m| || m[pos] == 0 then true
    else if m[pos] >= COMPRESSED then
      hops == 0 || pos + 1 >= |m| ||
      (Target(m, pos) < pos && Target(m, pos) in names && PointsBack(m, Target(m, pos), hops - 1, names))
    else PointsBack(m, pos + 1 + m[pos], hops, names)
  }

  /** There are more than `hops` pointers to follow. */
  ghost predicate MorePointers(m: seq<Byte>, pos: nat, hops: nat)
    decreases hops, if pos <= |m| then |m| - pos else 0
  {
    if pos >= |m| || m[pos] == 0 then false
    else if m[pos] >= COMPRESSED then hops == 0 || (pos + 1 < |m| && MorePointers(m, Target(m, pos), hops - 1))
    else MorePointers(m, pos + 1 + m[pos], hops)
  }

  ghost predicate ShortLabels(labels: seq<Label>) {
    forall i :: 0 <= i < |labels| ==> |labels[i]| <= MAX_LABEL
  }

  /** A name by those sections: in that grammar, through any number of pointers, and of at most 255 bytes. */
  ghost predicate IsStandardName(m: seq<Byte>, pos: nat, labels: seq<Label>, names: set<nat>) {
    WireLength(labels) <= MAX_NAME && exists k :: IsName(m, pos, labels, k, names)
  }

  /** What is read is a name by RFC 1035 exactly when no label is longer than 63 bytes, the whole is no longer
      than 255, and all pointers lead back to where the message has names. */
  lemma ReadsByTheStandard(m: seq<Byte>, pos: nat, labels: seq<Label>, hops: nat, names: set<nat>)
    requires NameAt(m, pos, hops) == Some(labels)
    ensures IsStandardName(m, pos, labels, names) <==>
              ShortLabels(labels) && WireLength(labels) <= MAX_NAME && PointsBack(m, pos, hops, names)
  {
    InGrammar(m, pos, labels, hops, names);
    if k: nat :| IsName(m, pos, labels, k, names) {
      HopsSuffice(m, pos, labels, k, hops, names);
    }
  }

  /** A name by RFC 1035 is read exactly when it takes no more pointers than the reader follows. */
  lemma StandardNameIsReadExactly(m: seq<Byte>, pos: nat, labels: seq<Label>, hops: nat, names: set<nat>)
    requires IsStandardName(m, pos, labels, names)
    ensures NameAt(m, pos, hops) == Some(labels) <==> !MorePointers(m, pos, hops)
    ensures MorePointers(m, pos, hops) ==> NameAt(m, pos, hops).None?
  {
    var k :| IsName(m, pos, labels, k, names);
    HopsSuffice(m, pos, labels, k, hops, names);
  }

  lemma ShortFirst(labels: seq<Label>)
    requires labels != []
    ensures ShortLabels(labels) <==> |labels[0]| <= MAX_LABEL && ShortLabels(labels[1..])
  {
    assert forall i :: 0 < i < |labels| ==> labels[i] == labels[1..][i - 1];
  }

  lemma {:induction false} InGrammar(m: seq<Byte>, pos: nat, labels: seq<Label>, hops: nat, names: set<nat>)
    requires NameAt(m, pos, hops) == Some(labels)
    ensures IsName(m, pos, labels, hops, names) <==> ShortLabels(labels) && PointsBack(m, pos, hops, names)
    decreases hops, |labels|
  {
    if m[pos] >= COMPRESSED {
      InGrammar(m, Target(m, pos), labels, hops - 1, names);
    } else if m[pos] > 0 {
      var rest := NameAt(m, pos + 1 + m[pos], hops).value;
      assert labels[1..] == rest;
      InGrammar(m, pos + 1 + m[pos], rest, hops, names);
      assert |labels[0]| == m[pos];
      ShortFirst(labels);
    }
  }

  /** A name that needs up to k pointers, read with another number of them. */
  lemma {:induction false} HopsSuffice(m: seq<Byte>, pos: nat, labels: seq<Label>, k: nat, hops: nat, names: set<nat>)
    requires IsName(m, pos, labels, k, names)
    ensures NameAt(m, pos, hops) == if MorePointers(m, pos, hops) then None else Some(labels)
    ensures NameAt(m, pos, hops).Some? ==> IsName(m, pos, labels, hops, names)
    decreases k, |labels|
  {
    if m[pos] >= COMPRESSED {
      if hops > 0 {
        HopsSuffice(m, Target(m, pos), labels, k - 1, hops - 1, names);
      }
    } else if m[pos] > 0 {
      HopsSuffice(m, pos + 1 + m[pos], labels[1..], k, hops, names);
      assert labels == [labels[0]] + labels[1..];
    }
  }

  /** A message that is read although it is no name: one label of 64 bytes, and the root. */
  lemma ReservedLengthIsRead(label64: Label, hops: nat)
    requires |label64| == MAX_LABEL + 1
    ensures var m := [MAX_LABEL + 1] + label64 + [0];
            NameAt(m, 0, hops) == Some([label64]) && forall labels, names :: !IsStandardName(m, 0, labels, names)
  {
    var m: seq<Byte> := [MAX_LABEL + 1] + label64 + [0];
    assert m[1..1 + m[0]] == label64 && m[|m| - 1] == 0;
    assert NameAt(m, |m| - 1, hops) == Some([]);
    assert [label64] + [] == [label64];
  }

  /** A message that is read although its pointer leads forward: the name is the one label behind it. */
  lemma ForwardPointerIsRead(hops: nat)
    requires hops > 0
    ensures var m: seq<Byte> := [COMPRESSED, 2, 1, 97, 0];
            NameAt(m, 0, hops) == Some([[97]]) && forall labels, names :: !IsStandardName(m, 0, labels, names)
  {
    var m: seq<Byte> := [COMPRESSED, 2, 1, 97, 0];
    assert NameAt(m, 4, hops - 1) == Some([]) && m[3..4] == [97];
    assert NameAt(m, 2, hops - 1) == Some([[97]] + []) && [[97]] + [] == [[97]];
    assert m[0] == COMPRESSED && Target(m, 0) == 2;
  }

  /** n pointers, each to the one before it, and the first to a root. */
  function PointerLadder(n: nat): (m: seq<Byte>)
    requires n <= 0x1000
    ensures |m| == 1 + 2 * n
  {
    if n == 0 then [0] else PointerLadder(n - 1) + [COMPRESSED + LastRung(n - 1) / 0x100, LastRung(n - 1) % 0x100]
  }

  function LastRung(n: nat): nat { if n == 0 then 0 else 2 * n - 1 }

  lemma {:induction false} LadderReads(m: seq<Byte>, n: nat, hops: nat, names: set<nat>)
    requires n <= 0x1000 && PointerLadder(n) <= m && forall p :: 0 <= p < |m| ==> p in names
    ensures IsName(m, LastRung(n), [], n, names) && (MorePointers(m, LastRung(n), hops) <==> n > hops)
    decreases n
  {
    if n == 0 {
      assert m[0] == PointerLadder(0)[0];
    } else {
      LastPointer(m, n);
      hide PointerLadder;
      LadderReads(m, n - 1, if hops > 0 then hops - 1 else 0, names);
    }
  }

  lemma LastPointer(m: seq<Byte>, n: nat)
    requires 0 < n <= 0x1000 && PointerLadder(n) <= m
    ensures PointerLadder(n - 1) <= m && LastRung(n) + 1 < |m| && m[LastRung(n)] >= COMPRESSED
    ensures Target(m, LastRung(n)) == LastRung(n - 1)
  {
    var ladder := PointerLadder(n);
    assert m[LastRung(n)] == ladder[LastRung(n)] && m[LastRung(n) + 1] == ladder[LastRung(n) + 1];
    assert PointerLadder(n - 1) <= ladder;
  }

  /** A name by the standard that is not read: it takes 33 pointers. */
  lemma LadderIsNotRead(names: set<nat>)
    requires forall p :: 0 <= p < 3 + 2 * MAX_HOPS ==> p in names
    ensures var m, pos := PointerLadder(MAX_HOPS + 1), LastRung(MAX_HOPS + 1);
            IsStandardName(m, pos, [], names) && NameAt(m, pos, MAX_HOPS).None?
  {
    var m, pos := PointerLadder(MAX_HOPS + 1), LastRung(MAX_HOPS + 1);
    LadderReads(m, MAX_HOPS + 1, MAX_HOPS, names);
    StandardNameIsReadExactly(m, pos, [], MAX_HOPS, names);
  }

  /** Where reading resumes: after the name's root or its first pointer. */
  function NextAt(m: seq<Byte>, pos: nat): (next: nat)
    ensures pos <= next
    decreases if pos <= |m| then |m| - pos else 0
  {
    if pos >= |m| then pos
    else if m[pos] == 0 then pos + 1
    else if m[pos] >= COMPRESSED then pos + 2
    else NextAt(m, pos + 1 + m[pos])
  }

  /** Every label finds room for a dot before it and the closing zero. */
  predicate Fits(labels: seq<Label>, cap: nat) {
    forall k :: 0 <= k < |labels| ==> |Join(labels[..k])| + |labels[k]| + 2 <= cap
  }

  /** One more label fits if there is room for it, and a label without room spoils every longer name. */
  lemma FitsStep(done: seq<Label>, part: Label, rest: seq<Label>, cap: nat)
    requires Fits(done, cap)
    ensures |Join(done)| + |part| + 2 <= cap ==> Fits(done + [part], cap)
    ensures |Join(done)| + |part| + 2 > cap ==> !Fits(done + ([part] + rest), cap)
  {
    var more, all := done + [part], done + ([part] + rest);
    assert forall k :: 0 <= k <= |done| ==> more[..k] == done[..k];
    assert all[..|done|] == done && all[|done|] == part;
  }

  lemma {:induction false} JoinGrows(labels: seq<Label>, k: nat)
    requires k <= |labels|
    ensures |Join(labels[..k])| <= |Join(labels)|
  {
    if k < |labels| {
      var init := labels[..|labels| - 1];
      JoinGrows(init, k);
      assert init[..k] == labels[..k];
    } else {
      assert labels[..k] == labels;
    }
  }

  /** A label needs room for the names before it and itself, joined, and the closing zero; the first one a byte
      more. */
  lemma RoomAt(labels: seq<Label>, k: nat)
    requires k < |labels|
    ensures |Join(labels[..k])| + |labels[k]| + 2 ==
            if k == 0 then |labels[0]| + 2 else |Join(labels[..k + 1])| + 1
  {
    assert labels[..k + 1] == labels[..k] + [labels[k]];
    JoinSnoc(labels[..k], labels[k]);
  }

  /** A name fits exactly when its dotted form and the closing zero do; a single label needs a byte more, which is
      kept for a dot before it. */
  lemma FitsExactly(labels: seq<Label>, cap: nat)
    ensures Fits(labels, cap) <==>
            (labels == [] || (|labels[0]| + 2 <= cap && (|labels| > 1 ==> |Join(labels)| + 1 <= cap)))
  {
    hide Join;
    var n := |labels|;
    if n > 0 {
      RoomAt(labels, 0);
      RoomAt(labels, n - 1);
      assert labels[..n] == labels;
      if |labels[0]| + 2 <= cap && (n > 1 ==> |Join(labels)| + 1 <= cap) {
        forall k | 0 <= k < n ensures |Join(labels[..k])| + |labels[k]| + 2 <= cap {
          RoomAt(labels, k);
          JoinGrows(labels, k + 1);
        }
      }
    }
  }

  // ---- reading a name ------------------------------------------------------------------------

  method AppendPart(out: array<Byte>, o: nat, m: seq<Byte>, pos: nat, len: nat) returns (o': nat)
    requires 0 < len && pos + len <= |m| && o + len + 2 <= out.Length
    modifies out
    ensures o' == o + len + (if o > 0 then 1 else 0)
    ensures out[..o'] == if o > 0 then old(out[..o]) + [DOT] + m[pos..pos + len] else m[pos..pos + len]
  {
    var at := o;
    if o > 0 {
      out[at] := DOT;
      at := at + 1;
    }
    ghost var head := out[..at];
    for i := 0 to len
      invariant out[..at + i] == head + m[pos..pos + i]
    {
      out[at + i] := m[pos + i];
      assert out[..at + i + 1] == out[..at + i] + [m[pos + i]];
      assert m[pos..pos + i + 1] == m[pos..pos + i] + [m[pos + i]];
      AppendAssociates(head, m[pos..pos + i], [m[pos + i]]);
    }
    o' := at + len;
  }

  /** Puts the dotted form of the name at off into out, with a zero behind it, and finds where the bytes after
      the name begin. */
  method GetName(m: seq<Byte>, off: nat, out: array<Byte>) returns (ok: bool, next: nat)
    requires out.Length >= 2
    modifies out
    ensures ok <==> NameAt(m, off, MAX_HOPS).Some? && Fits(NameAt(m, off, MAX_HOPS).value, out.Length)
    ensures ok ==> next == NextAt(m, off) && off < next <= |m|
    ensures next == off || next == NextAt(m, off)
    ensures ok ==> var name := Dotted(NameAt(m, off, MAX_HOPS).value);
                   |name| < out.Length && out[..|name|] == name && out[|name|] == 0
  {
    hide NameAt, NextAt, Join, Fits, NonEmpty;
    var pos: nat, jumped, o: nat, hops := off, false, 0, 0;
    next := off;
    ghost var done: seq<Label> := [];
    StartReading(m, off);
    while true
      invariant 0 <= hops <= MAX_HOPS && o < out.Length
      invariant NameAt(m, off, MAX_HOPS) == Prepend(done, NameAt(m, pos, MAX_HOPS - hops))
      invariant NonEmpty(done) && Fits(done, out.Length) && out[..o] == Join(done)
      invariant if jumped then next == NextAt(m, off) && off < next <= |m|
                else next == off <= pos && NextAt(m, off) == NextAt(m, pos)
      decreases MAX_HOPS - hops, if pos <= |m| then |m| - pos else 0
    {
      ReadTurn(m, pos, MAX_HOPS - hops);
      if pos >= |m| {
        return false, next;
      }
      var c := m[pos];
      if c == 0 {
        if !jumped {
          next := pos + 1;
        }
        break;
      }
      if c >= COMPRESSED {
        if pos + 1 >= |m| || hops + 1 > MAX_HOPS {
          return false, next;
        }
        hops := hops + 1;
        if !jumped {
          next := pos + 2;
        }
        pos := Target(m, pos);
        jumped := true;
        continue;
      }
      ReadStep(m, pos, hops, done, o, out.Length);
      pos := pos + 1;
      if pos + c > |m| || o + c + 2 > out.Length {
        return false, next;
      }
      o := AppendPart(out, o, m, pos, c);
      done := done + [m[pos..pos + c]];
      pos := pos + c;
    }
    JoinNonEmpty(done);
    assert done + [] == done;
    if o == 0 {
      out[o] := DOT;
      o := o + 1;
    }
    out[o] := 0;
    ok := true;
  }

  lemma StartReading(m: seq<Byte>, off: nat)
    ensures NameAt(m, off, MAX_HOPS) == Prepend([], NameAt(m, off, MAX_HOPS)) && Join([]) == []
    ensures forall cap :: Fits([], cap)
    ensures NonEmpty([])
  {
    assert NameAt(m, off, MAX_HOPS).Some? ==> [] + NameAt(m, off, MAX_HOPS).value == NameAt(m, off, MAX_HOPS).value;
  }

  /** Reading the root, a pointer, or past the end. */
  lemma ReadTurn(m: seq<Byte>, pos: nat, hops: nat)
    ensures pos >= |m| ==> NameAt(m, pos, hops).None?
    ensures pos < |m| && m[pos] == 0 ==> NameAt(m, pos, hops) == Some([]) && NextAt(m, pos) == pos + 1
    ensures pos < |m| && m[pos] >= COMPRESSED && (pos + 1 >= |m| || hops == 0) ==> NameAt(m, pos, hops).None?
    ensures pos < |m| && m[pos] >= COMPRESSED && pos + 1 < |m| && hops > 0 ==>
              NameAt(m, pos, hops) == NameAt(m, Target(m, pos), hops - 1) && NextAt(m, pos) == pos + 2
    ensures pos < |m| && 0 < m[pos] < COMPRESSED ==> NextAt(m, pos) == NextAt(m, pos + 1 + m[pos])
  {
  }

  /** Reading one label: it moves from the name ahead to the name read so far. */
  lemma ReadStep(m: seq<Byte>, pos: nat, hops: nat, done: seq<Label>, o: nat, cap: nat)
    requires pos < |m| && 0 < m[pos] < COMPRESSED && hops <= MAX_HOPS && NonEmpty(done) && Fits(done, cap) &&
             o == |Join(done)|
    ensures pos + 1 + m[pos] > |m| ==> NameAt(m, pos, MAX_HOPS - hops).None?
    ensures pos + 1 + m[pos] <= |m| ==>
              var part := m[pos + 1..pos + 1 + m[pos]];
              NonEmpty(done + [part]) && (o > 0 <==> done != []) &&
              Join(done + [part]) == (if o > 0 then Join(done) + [DOT] + part else part) &&
              Prepend(done, NameAt(m, pos, MAX_HOPS - hops)) == Prepend(done + [part],
                NameAt(m, pos + 1 + m[pos], MAX_HOPS - hops)) &&
              (o + |part| + 2 <= cap ==> Fits(done + [part], cap)) &&
              (o + |part| + 2 > cap && Prepend(done, NameAt(m, pos, MAX_HOPS - hops)).Some? ==>
                 !Fits(Prepend(done, NameAt(m, pos, MAX_HOPS - hops)).value, cap))
  {
    hide Fits, Join;
    if pos + 1 + m[pos] <= |m| {
      var part := m[pos + 1..pos + 1 + m[pos]];
      var ahead := NameAt(m, pos + 1 + m[pos], MAX_HOPS - hops);
      JoinSnoc(done, part);
      JoinNonEmpty(done);
      var rest: seq<Label> := if ahead.Some? then ahead.value else [];
      FitsStep(done, part, rest, cap);
      assert done + ([part] + rest) == (done + [part]) + rest;
    }
  }

  // ---- writing and reading back --------------------------------------------------------------

  /** The message has these bytes at pos. */
  ghost predicate Has(m: seq<Byte>, pos: nat, bytes: seq<Byte>) {
    pos + |bytes| <= |m| && m[pos..pos + |bytes|] == bytes
  }

  lemma HasSplit(m: seq<Byte>, pos: nat, a: seq<Byte>, b: seq<Byte>)
    requires Has(m, pos, a + b)
    ensures Has(m, pos, a) && Has(m, pos + |a|, b)
  {
    var all := m[pos..pos + |a + b|];
    assert all[..|a|] == a && all[|a|..] == b;
    assert m[pos..pos + |a|] == all[..|a|];
    assert m[pos + |a|..pos + |a| + |b|] == all[|a|..];
  }

  lemma LabelInFront(m: seq<Byte>, pos: nat, first: Label, hops: nat)
    requires 0 < |first| <= MAX_LABEL && Has(m, pos, [|first|] + first)
    ensures pos + 1 + |first| <= |m|
    ensures NameAt(m, pos, hops) == Prepend([first], NameAt(m, pos + 1 + |first|, hops))
    ensures NextAt(m, pos) == NextAt(m, pos + 1 + |first|)
  {
    HasSplit(m, pos, [|first|], first);
    assert m[pos] == m[pos..pos + 1][0] == |first|;
  }

  lemma PrependTwice(a: seq<Label>, b: seq<Label>, rest: Option<seq<Label>>)
    ensures Prepend(a, Prepend(b, rest)) == Prepend(a + b, rest)
    ensures Prepend([], rest) == rest
  {
    if rest.Some? {
      assert a + (b + rest.value) == (a + b) + rest.value;
      assert [] + rest.value == rest.value;
    }
  }

  lemma ProperParts(labels: seq<Label>)
    requires ProperLabels(labels) && labels != []
    ensures 0 < |labels[0]| <= MAX_LABEL && ProperLabels(labels[1..]) && labels == [labels[0]] + labels[1..]
    ensures WireLabels(labels) == ([|labels[0]|] + labels[0]) + WireLabels(labels[1..])
    ensures |WireLabels(labels)| == 1 + |labels[0]| + |WireLabels(labels[1..])|
  {
    hide WireLabels;
    SplitFirst(labels);
    WireCons(labels[0], labels[1..]);
  }

  /** Labels written plainly at pos are read in front of whatever follows them. */
  lemma {:induction false} LabelsInFront(m: seq<Byte>, pos: nat, head: seq<Label>, hops: nat)
    requires ProperLabels(head) && Has(m, pos, WireLabels(head))
    ensures NameAt(m, pos, hops) == Prepend(head, NameAt(m, pos + |WireLabels(head)|, hops))
    ensures NextAt(m, pos) == NextAt(m, pos + |WireLabels(head)|)
    decreases |head|
  {
    hide NameAt, NextAt, WireLabels, Prepend, Has, ProperLabels;
    if head == [] {
      WireOfNone();
      PrependTwice([], [], NameAt(m, pos, hops));
    } else {
      var first, rest := head[0], head[1..];
      ProperParts(head);
      HasSplit(m, pos, [|first|] + first, WireLabels(rest));
      LabelInFront(m, pos, first, hops);
      var after := pos + 1 + |first|;
      assert pos + |[|first|] + first| == after;
      LabelsInFront(m, after, rest, hops);
      PrependTwice([first], rest, NameAt(m, pos + |WireLabels(head)|, hops));
    }
  }

  lemma PlainName(m: seq<Byte>, pos: nat, labels: seq<Label>, hops: nat)
    requires ProperLabels(labels) && Has(m, pos, Wire(labels))
    ensures NameAt(m, pos, hops) == Some(labels) && NextAt(m, pos) == pos + |Wire(labels)|
  {
    HasSplit(m, pos, WireLabels(labels), [0]);
    LabelsInFront(m, pos, labels, hops);
    var end := pos + |WireLabels(labels)|;
    assert m[end] == m[end..end + 1][0] == 0;
    assert labels + [] == labels;
  }

  /** A chain of `hops` compression pointers leads from pos to target. */
  ghost predicate Chain(m: seq<Byte>, pos: nat, hops: nat, target: nat)
    decreases hops
  {
    if hops == 0 then pos == target
    else pos + 1 < |m| && m[pos] >= COMPRESSED && Chain(m, Target(m, pos), hops - 1, target)
  }

  lemma {:induction false} FollowChain(m: seq<Byte>, pos: nat, hops: nat, target: nat, left: nat)
    requires Chain(m, pos, hops, target)
    ensures NameAt(m, pos, hops + left) == NameAt(m, target, left)
    decreases hops
  {
    if hops > 0 {
      FollowChain(m, Target(m, pos), hops - 1, target, left);
    }
  }

  lemma {:induction false} FitsInWire(labels: seq<Label>)
    requires ProperLabels(labels)
    ensures Fits(labels, |Wire(labels)|) && (labels != [] ==> |Join(labels)| == |WireLabels(labels)| - 1)
    decreases |labels|
  {
    if labels != [] {
      var init, last := labels[..|labels| - 1], labels[|labels| - 1];
      FitsInWire(init);
      assert labels == init + [last];
      JoinSnoc(init, last);
      forall k | 0 <= k < |labels| ensures |Join(labels[..k])| + |labels[k]| + 2 <= |Wire(labels)| {
        if k < |init| {
          assert labels[..k] == init[..k];
        } else {
          assert labels[..k] == init;
        }
      }
    }
  }

  function WithoutEndingDot(name: seq<Byte>): seq<Byte>
    requires name != []
  {
    if name[|name| - 1] == DOT then name[..|name| - 1] else name
  }

  /** A written name, with any ending part of it replaced by a chain of compression pointers to where
      that part is written, reads back as the name: its first labels, then the labels at the end of the
      chain. */
  lemma CompressedRoundTrip(m: seq<Byte>, pos: nat, name: seq<Byte>, head: seq<Label>, tail: seq<Label>,
                            hops: nat, target: nat)
    requires name != [] && LabelsOf(name) == Some(head + tail) && ProperLabels(head) && ProperLabels(tail)
    requires Has(m, pos, WireLabels(head)) && hops <= MAX_HOPS
    requires Chain(m, pos + |WireLabels(head)|, hops, target) && Has(m, target, Wire(tail))
    ensures NameAt(m, pos, MAX_HOPS) == Some(head + tail)
    ensures Dotted(head + tail) == WithoutEndingDot(name) && Fits(head + tail, |WireLabels(head)| + |Wire(tail)|)
    ensures NextAt(m, pos) == pos + |WireLabels(head)| + if hops == 0 then |Wire(tail)| else 2
  {
    hide NameAt, NextAt, WireLabels, Has, Chain, LabelsOf, Join, Fits, NonEmpty;
    CompressedReads(m, pos, head, tail, hops, target);
    WireAppend(head, tail);
    FitsInWire(head + tail);
    JoinOfLabels(name);
    LabelsAreProper(name);
    JoinNonEmpty(head + tail);
  }

  lemma CompressedReads(m: seq<Byte>, pos: nat, head: seq<Label>, tail: seq<Label>, hops: nat, target: nat)
    requires ProperLabels(head) && ProperLabels(tail) && Has(m, pos, WireLabels(head)) && hops <= MAX_HOPS
    requires Chain(m, pos + |WireLabels(head)|, hops, target) && Has(m, target, Wire(tail))
    ensures NameAt(m, pos, MAX_HOPS) == Some(head + tail)
    ensures NextAt(m, pos) == pos + |WireLabels(head)| + if hops == 0 then |Wire(tail)| else 2
  {
    hide NameAt, NextAt, WireLabels, Wire, Has;
    LabelsInFront(m, pos, head, MAX_HOPS);
    FollowChain(m, pos + |WireLabels(head)|, hops, target, MAX_HOPS - hops);
    PlainName(m, target, tail, MAX_HOPS - hops);
    ReadTurn(m, pos + |WireLabels(head)|, MAX_HOPS);
  }

  /** Whatever PutName writes, GetName reads back, in a buffer no larger than the written name. */
  lemma RoundTrip(m: seq<Byte>, pos: nat, name: seq<Byte>)
    requires name != [] && LabelsOf(name).Some? && Has(m, pos, WireOf(name) + [0])
    ensures var labels := LabelsOf(name).value;
            NameAt(m, pos, MAX_HOPS) == Some(labels) && Dotted(labels) == WithoutEndingDot(name) &&
            Fits(labels, |WireOf(name)| + 1) && NextAt(m, pos) == pos + |WireOf(name)| + 1
  {
    hide NameAt, NextAt, WireLabels, Has, LabelsOf, Join, Fits, NonEmpty;
    var labels := LabelsOf(name).value;
    LabelsAreProper(name);
    PlainName(m, pos, labels, MAX_HOPS);
    FitsInWire(labels);
    JoinOfLabels(name);
    JoinNonEmpty(labels);
  }

  // ---- the answers of a message --------------------------------------------------------------

  const HEADER := 12
  const OWNER_SIZE := 512

  datatype Answer = Answer(owner: seq<Label>, kind: nat, off: nat, len: nat)

  function Word16(m: seq<Byte>, at: nat): nat
    requires at + 1 < |m|
  {
    var high: int := m[at];
    high * 0x100 + m[at + 1]
  }

  /** A name that is encoded at off and fits the owner's buffer. */
  function OwnerAt(m: seq<Byte>, off: nat): Option<seq<Label>> {
    match NameAt(m, off, MAX_HOPS)
    case None => None
    case Some(labels) => if Fits(labels, OWNER_SIZE) then Some(labels) else None
  }

  /** Where the answers begin: after each question's name, type and class. */
  function AfterQuestions(m: seq<Byte>, off: nat, count: nat): Option<nat>
    decreases count
  {
    if count == 0 then Some(off)
    else if OwnerAt(m, off).None? then None
    else AfterQuestions(m, NextAt(m, off) + 4, count - 1)
  }

  /** The records at off, if all of them are whole. */
  function AnswersAt(m: seq<Byte>, off: nat, count: nat): Option<seq<Answer>>
    decreases count
  {
    if count == 0 then Some([])
    else if OwnerAt(m, off).None? || NextAt(m, off) + 10 > |m| then None
    else
      var fixed := NextAt(m, off);
      var answer := Answer(OwnerAt(m, off).value, Word16(m, fixed), fixed + 10, Word16(m, fixed + 8));
      if answer.off + answer.len > |m| then None
      else
        match AnswersAt(m, answer.off + answer.len, count - 1)
        case None => None
        case Some(rest) => Some([answer] + rest)
  }

  /** Every record's data lies in the message, after the records before it. */
  lemma {:induction false} AnswersInside(m: seq<Byte>, off: nat, count: nat)
    requires AnswersAt(m, off, count).Some?
    ensures var answers := AnswersAt(m, off, count).value;
            |answers| == count &&
            (forall i :: 0 <= i < count ==> off + 10 < answers[i].off && answers[i].off + answers[i].len <= |m|) &&
            (forall i, j :: 0 <= i < j < count ==> answers[i].off + answers[i].len + 10 < answers[j].off)
    decreases count
  {
    if count > 0 {
      var fixed := NextAt(m, off);
      var answer := Answer(OwnerAt(m, off).value, Word16(m, fixed), fixed + 10, Word16(m, fixed + 8));
      NextAdvances(m, off);
      AnswersInside(m, answer.off + answer.len, count - 1);
    }
  }

  lemma {:induction false} NextAdvances(m: seq<Byte>, pos: nat)
    ensures pos < |m| ==> NextAt(m, pos) > pos
    ensures forall hops :: NameAt(m, pos, hops).Some? ==> pos < |m|
  {
  }

  /** The walk over a response: questions are skipped, then each answer's owner, type and data found. */
  method WalkAnswers(m: seq<Byte>) returns (answers: Option<seq<Answer>>)
    requires |m| >= HEADER
    ensures answers == match AfterQuestions(m, HEADER, Word16(m, 4))
                       case None => None
                       case Some(start) => AnswersAt(m, start, Word16(m, 6))
  {
    hide NameAt, NextAt, Fits, Dotted, AnswersAt, AfterQuestions;
    var owner := new Byte[OWNER_SIZE];
    var skipped, start := SkipQuestions(m, HEADER, Word16(m, 4), owner);
    if !skipped {
      return None;
    }
    answers := TakeAnswers(m, start, Word16(m, 6), owner);
  }

  method SkipQuestions(m: seq<Byte>, from: nat, questions: nat, owner: array<Byte>) returns (ok: bool, off: nat)
    requires owner.Length == OWNER_SIZE
    modifies owner
    ensures AfterQuestions(m, from, questions) == if ok then Some(off) else None
  {
    hide NameAt, NextAt, Fits, Dotted;
    off := from;
    for i := 0 to questions
      invariant AfterQuestions(m, from, questions) == AfterQuestions(m, off, questions - i)
    {
      var read, next := GetName(m, off, owner);
      if !read {
        return false, off;
      }
      off := next + 4;
    }
    ok := true;
  }

  method TakeAnswers(m: seq<Byte>, start: nat, count: nat, owner: array<Byte>) returns (answers: Option<seq<Answer>>)
    requires owner.Length == OWNER_SIZE
    modifies owner
    ensures answers == AnswersAt(m, start, count)
  {
    hide NameAt, NextAt, Fits, Dotted, After, AnswersAt;
    var off: nat := start;
    var found: seq<Answer> := [];
    AfterBegins(m, start, count);
    for i := 0 to count
      invariant AnswersAt(m, start, count) == After(found, AnswersAt(m, off, count - i))
    {
      var read, next := GetName(m, off, owner);
      AfterStops(m, off, count - i, found);
      if !read || next + 10 > |m| {
        return None;
      }
      var kind, len := Word16(m, next), Word16(m, next + 8);
      if next + 10 + len > |m| {
        return None;
      }
      AfterStep(m, off, count - i, found);
      found := found + [Answer(OwnerAt(m, off).value, kind, next + 10, len)];
      off := next + 10 + len;
    }
    AfterDone(m, off, found);
    return Some(found);
  }

  lemma AfterBegins(m: seq<Byte>, off: nat, count: nat)
    ensures After([], AnswersAt(m, off, count)) == AnswersAt(m, off, count)
  {
    var all := AnswersAt(m, off, count);
    assert all.Some? ==> [] + all.value == all.value;
  }

  lemma AfterDone(m: seq<Byte>, off: nat, found: seq<Answer>)
    ensures After(found, AnswersAt(m, off, 0)) == Some(found)
  {
    var none: seq<Answer> := [];
    assert AnswersAt(m, off, 0) == Some(none) && found + none == found;
  }

  lemma AfterStops(m: seq<Byte>, off: nat, count: nat, found: seq<Answer>)
    requires count > 0
    ensures OwnerAt(m, off).None? || NextAt(m, off) + 10 > |m| ||
            NextAt(m, off) + 10 + Word16(m, NextAt(m, off) + 8) > |m| ==>
              After(found, AnswersAt(m, off, count)).None?
  {
  }

  function After(found: seq<Answer>, rest: Option<seq<Answer>>): Option<seq<Answer>> {
    match rest
    case None => None
    case Some(answers) => Some(found + answers)
  }

  lemma AfterStep(m: seq<Byte>, off: nat, count: nat, found: seq<Answer>)
    requires count > 0 && OwnerAt(m, off).Some? && NextAt(m, off) + 10 <= |m|
    requires NextAt(m, off) + 10 + Word16(m, NextAt(m, off) + 8) <= |m|
    ensures var fixed := NextAt(m, off); var len := Word16(m, fixed + 8);
            After(found, AnswersAt(m, off, count)) ==
            After(found + [Answer(OwnerAt(m, off).value, Word16(m, fixed), fixed + 10, len)],
              AnswersAt(m, fixed + 10 + len, count - 1))
  {
    hide AnswersAt, OwnerAt, NextAt, Word16, After;
    var fixed := NextAt(m, off);
    var answer := Answer(OwnerAt(m, off).value, Word16(m, fixed), fixed + 10, Word16(m, fixed + 8));
    var rest := AnswersAt(m, answer.off + answer.len, count - 1);
    AnswersNext(m, off, count);
    AfterTwice(found, [answer], rest);
  }

  lemma AfterTwice(found: seq<Answer>, more: seq<Answer>, rest: Option<seq<Answer>>)
    ensures After(found, After(more, rest)) == After(found + more, rest)
  {
    if rest.Some? {
      AppendAssociates(found, more, rest.value);
    }
  }

  lemma AnswersNext(m: seq<Byte>, off: nat, count: nat)
    requires count > 0 && OwnerAt(m, off).Some? && NextAt(m, off) + 10 <= |m|
    requires NextAt(m, off) + 10 + Word16(m, NextAt(m, off) + 8) <= |m|
    ensures var fixed := NextAt(m, off); var len := Word16(m, fixed + 8);
            AnswersAt(m, off, count) ==
            After([Answer(OwnerAt(m, off).value, Word16(m, fixed), fixed + 10, len)],
              AnswersAt(m, fixed + 10 + len, count - 1))
  {
    hide OwnerAt, NextAt, Word16;
  }
}
