/** Server and host names: what they are, and that the machine reads exactly those. */
module IrcHosts {
  import opened Fifo
  import opened IrcGrammar

  // ----- what they are

  /** A star, or letters, digits and dashes that do not begin with a dash. */
  predicate LabelText(l: seq<Byte>) {
    l == [42] || WordText(l)
  }

  predicate WordText(l: seq<Byte>) {
    |l| > 0 && Alnum(l[0]) && forall i :: 0 <= i < |l| ==> Alnum(l[i]) || l[i] == 45
  }

  /** A dot or a slash. */
  predicate Mark(b: Byte) { b == 46 || b == 47 }

  /** A further label and the mark before it. */
  datatype More = More(mark: Byte, name: seq<Byte>)

  function Labels(first: seq<Byte>, more: seq<More>): seq<Byte> {
    if more == [] then first
    else Labels(first, more[..|more| - 1]) + [more[|more| - 1].mark] + more[|more| - 1].name
  }

  predicate LabelsText(first: seq<Byte>, more: seq<More>) {
    LabelText(first) && forall i :: 0 <= i < |more| ==> Mark(more[i].mark) && LabelText(more[i].name)
  }

  /** Labels with marks between them; or a single one with a mark behind it. */
  ghost predicate NameText(t: seq<Byte>) {
    || (exists first, more :: LabelsText(first, more) && t == Labels(first, more))
    || (exists first, b: Byte :: LabelText(first) && Mark(b) && t == first + [b])
  }

  /** The parts with b between them. */
  function Join(b: Byte, parts: seq<seq<Byte>>): seq<Byte> {
    if parts == [] then []
    else if |parts| == 1 then parts[0]
    else Join(b, parts[..|parts| - 1]) + [b] + parts[|parts| - 1]
  }

  predicate AllHex(t: seq<Byte>) {
    forall i :: 0 <= i < |t| ==> Hex(t[i])
  }

  predicate AllDigits(t: seq<Byte>) {
    forall i :: 0 <= i < |t| ==> Digit(t[i])
  }

  /** f or F */
  predicate Eff(b: Byte) { b == 70 || b == 102 }

  /** Eight groups of hexadecimal digits with colons between them. */
  ghost predicate GroupsText(t: seq<Byte>) {
    exists parts :: GroupParts(parts, 8) && t == Join(COLON, parts)
  }

  predicate GroupParts(parts: seq<seq<Byte>>, n: nat) {
    |parts| == n && forall i :: 0 <= i < n ==> parts[i] != [] && AllHex(parts[i])
  }

  /** 0:0:0:0:0: */
  const ZEROS: seq<Byte> := [48, COLON, 48, COLON, 48, COLON, 48, COLON, 48, COLON]

  predicate TagText(t: seq<Byte>) {
    t == [48] || (|t| == 4 && forall i :: 0 <= i < 4 ==> Eff(t[i]))
  }

  predicate OctetParts(parts: seq<seq<Byte>>, n: nat) {
    |parts| == n && forall i :: 0 <= i < n ==> 1 <= |parts[i]| <= 3 && AllDigits(parts[i])
  }

  /** Five zeros, 0 or ffff, and four numbers of up to three digits with dots between them. */
  ghost predicate MappedText(t: seq<Byte>) {
    exists tag, parts :: TagText(tag) && OctetParts(parts, 4) && t == ZEROS + tag + [COLON] + Join(46, parts)
  }

  /** A dotted address is also a name. */
  ghost predicate HostText(t: seq<Byte>) {
    NameText(t) || GroupsText(t) || MappedText(t)
  }

  // ----- the machine's runs

  function NameRun(s: Name, t: seq<Byte>): Name
    decreases |t|
  {
    if t == [] then s else NameRun(NameNext(s, t[0]), t[1..])
  }

  function GroupsRun(s: Groups, t: seq<Byte>): Groups
    decreases |t|
  {
    if t == [] then s else GroupsRun(GroupsNext(s, t[0]), t[1..])
  }

  function MappedRun(s: Mapped, t: seq<Byte>): Mapped
    decreases |t|
  {
    if t == [] then s else MappedRun(MappedNext(s, t[0]), t[1..])
  }

  function HostRun(h: Host, t: seq<Byte>): Host
    decreases |t|
  {
    if t == [] then h else HostRun(HostNext(h, t[0]), t[1..])
  }

  function MaskRun(mask: Mask, t: seq<Byte>): Mask
    decreases |t|
  {
    if t == [] then mask else MaskRun(MaskNext(mask, t[0]), t[1..])
  }

  lemma {:induction false} NameRunMore(s: Name, t: seq<Byte>, b: Byte)
    ensures NameRun(s, t + [b]) == NameNext(NameRun(s, t), b)
    decreases |t|
  {
    if t == [] {
      assert ([] + [b])[1..] == [];
    } else {
      assert (t + [b])[1..] == t[1..] + [b];
      NameRunMore(NameNext(s, t[0]), t[1..], b);
    }
  }

  lemma {:induction false} HostRunMore(h: Host, t: seq<Byte>, b: Byte)
    ensures HostRun(h, t + [b]) == HostNext(HostRun(h, t), b)
    decreases |t|
  {
    if t == [] {
      assert ([] + [b])[1..] == [];
    } else {
      assert (t + [b])[1..] == t[1..] + [b];
      HostRunMore(HostNext(h, t[0]), t[1..], b);
    }
  }

  lemma {:induction false} MaskRunMore(mask: Mask, t: seq<Byte>, b: Byte)
    ensures MaskRun(mask, t + [b]) == MaskNext(MaskRun(mask, t), b)
    decreases |t|
  {
    if t == [] {
      assert ([] + [b])[1..] == [];
    } else {
      assert (t + [b])[1..] == t[1..] + [b];
      MaskRunMore(MaskNext(mask, t[0]), t[1..], b);
    }
  }

  lemma {:induction false} HostRunParts(h: Host, t: seq<Byte>)
    ensures HostRun(h, t) == Host(NameRun(h.name, t), GroupsRun(h.groups, t), MappedRun(h.mapped, t))
    decreases |t|
  {
    if t != [] {
      HostRunParts(HostNext(h, t[0]), t[1..]);
    }
  }

  lemma MoreBytes(a: seq<Byte>, b: seq<Byte>)
    requires a != []
    ensures (a + b)[0] == a[0] && (a + b)[1..] == a[1..] + b
  {}

  lemma {:induction false} NameRunAppend(s: Name, a: seq<Byte>, b: seq<Byte>)
    ensures NameRun(s, a + b) == NameRun(NameRun(s, a), b)
    decreases |a|
  {
    if a == [] {
      assert a + b == b;
    } else {
      MoreBytes(a, b);
      NameRunAppend(NameNext(s, a[0]), a[1..], b);
    }
  }

  lemma {:induction false} GroupsRunAppend(s: Groups, a: seq<Byte>, b: seq<Byte>)
    ensures GroupsRun(s, a + b) == GroupsRun(GroupsRun(s, a), b)
    decreases |a|
  {
    if a == [] {
      assert a + b == b;
    } else {
      MoreBytes(a, b);
      GroupsRunAppend(GroupsNext(s, a[0]), a[1..], b);
    }
  }

  lemma {:induction false} MappedRunAppend(s: Mapped, a: seq<Byte>, b: seq<Byte>)
    ensures MappedRun(s, a + b) == MappedRun(MappedRun(s, a), b)
    decreases |a|
  {
    if a == [] {
      assert a + b == b;
    } else {
      MoreBytes(a, b);
      MappedRunAppend(MappedNext(s, a[0]), a[1..], b);
    }
  }

  // ----- names: the machine reads them

  lemma {:induction false} WordRuns(first: bool, t: seq<Byte>)
    requires forall i :: 0 <= i < |t| ==> Alnum(t[i]) || t[i] == 45
    ensures NameRun(Label(first), t) == Label(first)
    decreases |t|
  {
    if t != [] {
      WordRuns(first, t[1..]);
    }
  }

  lemma LabelRuns(s: Name, l: seq<Byte>)
    requires (s == NameStart || s.Separator?) && LabelText(l)
    ensures NameRun(s, l) == if l == [42] then Star(s == NameStart) else Label(s == NameStart)
  {
    if l == [42] {
      assert l[1..] == [];
    } else {
      WordRuns(s == NameStart, l[1..]);
    }
  }

  lemma {:induction false} LabelsRun(first: seq<Byte>, more: seq<More>)
    requires LabelsText(first, more)
    ensures var s := NameRun(NameStart, Labels(first, more)); s == Label(more == []) || s == Star(more == [])
    decreases |more|
  {
    if more == [] {
      LabelRuns(NameStart, first);
    } else {
      var init, last := more[..|more| - 1], more[|more| - 1];
      LabelsRun(first, init);
      var t := Labels(first, init);
      NameRunAppend(NameStart, t + [last.mark], last.name);
      NameRunAppend(NameStart, t, [last.mark]);
      var s := NameRun(NameStart, t);
      OneByte(s, last.mark);
      LabelRuns(NameNext(s, last.mark), last.name);
    }
  }

  lemma OneByte(s: Name, b: Byte)
    ensures NameRun(s, [b]) == NameNext(s, b)
  {
    assert [b][1..] == [];
  }

  lemma NameIsRead(t: seq<Byte>)
    requires NameText(t)
    ensures NameEnds(NameRun(NameStart, t))
  {
    if exists first, more :: LabelsText(first, more) && t == Labels(first, more) {
      var first, more :| LabelsText(first, more) && t == Labels(first, more);
      LabelsRun(first, more);
    } else {
      var first: seq<Byte>, b: Byte :| LabelText(first) && Mark(b) && t == first + [b];
      LabelRuns(NameStart, first);
      NameRunAppend(NameStart, first, [b]);
      OneByte(NameRun(NameStart, first), b);
    }
  }

  // ----- names: it reads nothing else

  ghost predicate NameRead(s: Name, t: seq<Byte>) {
    match s
    case NoName => true
    case NameStart => t == []
    case Label(first) =>
      if first then WordText(t)
      else
        exists head, more: seq<More> ::
          MoreRead(head, more) && WordText(more[|more| - 1].name) && t == Labels(head, more)
    case Star(first) =>
      if first then t == [42] else exists head, more :: MoreRead(head, more) && t == Labels(head, more)
    case Separator(first) =>
      if first then exists head, b: Byte :: LabelText(head) && Mark(b) && t == head + [b]
      else exists head, more, b: Byte :: MoreRead(head, more) && Mark(b) && t == Labels(head, more) + [b]
  }

  predicate MoreRead(head: seq<Byte>, more: seq<More>) {
    LabelsText(head, more) && more != []
  }

  lemma LabelsMore(head: seq<Byte>, more: seq<More>, m: More)
    ensures Labels(head, more + [m]) == Labels(head, more) + [m.mark] + m.name
  {
    assert (more + [m])[..|more|] == more;
  }

  /** A byte more of the last label. */
  lemma WordMore(head: seq<Byte>, more: seq<More>, b: Byte)
    requires MoreRead(head, more) && WordText(more[|more| - 1].name) && (Alnum(b) || b == 45)
    ensures NameRead(Label(false), Labels(head, more) + [b])
  {
    var init, last := more[..|more| - 1], more[|more| - 1];
    var m := More(last.mark, last.name + [b]);
    LabelsMore(head, init, m);
    assert MoreRead(head, init + [m]);
    assert (init + [m])[|init + [m]| - 1] == m && WordText(m.name);
    assert Labels(head, init) + [last.mark] + (last.name + [b]) == Labels(head, more) + [b];
  }

  /** A first byte of a further label. */
  lemma LabelMore(head: seq<Byte>, more: seq<More>, mark: Byte, b: Byte)
    requires LabelsText(head, more) && Mark(mark) && LabelStart(false, b) != NoName
    ensures NameRead(LabelStart(false, b), Labels(head, more) + [mark] + [b])
  {
    var m := More(mark, [b]);
    LabelsMore(head, more, m);
    assert MoreRead(head, more + [m]) && (more + [m])[|more|] == m;
  }

  lemma FirstMark(t: seq<Byte>, b: Byte)
    requires LabelText(t)
    ensures Mark(b) ==> NameRead(Separator(true), t + [b])
  {}

  lemma NameReadMore(s: Name, t: seq<Byte>, b: Byte)
    requires NameRead(s, t)
    ensures NameRead(NameNext(s, b), t + [b])
  {
    match s
    case NoName =>
    case NameStart => assert t + [b] == [b];
    case Label(first) =>
      if first {
        FirstMark(t, b);
      } else {
        var head: seq<Byte>, more: seq<More> :|
            MoreRead(head, more) && WordText(more[|more| - 1].name) && t == Labels(head, more);
        if Alnum(b) || b == 45 {
          WordMore(head, more, b);
        }
      }
    case Star(first) =>
      if first {
        FirstMark(t, b);
      } else {
        var head, more :| MoreRead(head, more) && t == Labels(head, more);
      }
    case Separator(first) =>
      if LabelStart(false, b) != NoName {
        if first {
          var head: seq<Byte>, c: Byte :| LabelText(head) && Mark(c) && t == head + [c];
          LabelMore(head, [], c, b);
        } else {
          var head: seq<Byte>, more: seq<More>, c: Byte :|
              MoreRead(head, more) && Mark(c) && t == Labels(head, more) + [c];
          LabelMore(head, more, c, b);
        }
      }
  }

  lemma {:induction false} NameRunReads(s: Name, text: seq<Byte>, t: seq<Byte>)
    requires NameRead(s, text)
    ensures NameRead(NameRun(s, t), text + t)
    decreases |t|
  {
    hide NameRead;
    if t == [] {
      assert text + t == text;
    } else {
      NameReadMore(s, text, t[0]);
      NameRunReads(NameNext(s, t[0]), text + [t[0]], t[1..]);
      assert text + [t[0]] + t[1..] == text + t;
    }
  }

  lemma NameReadEnds(s: Name, t: seq<Byte>)
    requires NameRead(s, t) && NameEnds(s)
    ensures NameText(t)
  {
    if (s.Label? || s.Star?) && s.first {
      assert LabelsText(t, []) && t == Labels(t, []);
    }
  }

  /** The machine reads exactly the names. */
  lemma NamesAreRead(t: seq<Byte>)
    ensures NameEnds(NameRun(NameStart, t)) <==> NameText(t)
  {
    if NameText(t) {
      NameIsRead(t);
    } else {
      NameRunReads(NameStart, [], t);
      assert [] + t == t;
      if NameEnds(NameRun(NameStart, t)) {
        NameReadEnds(NameRun(NameStart, t), t);
      }
    }
  }

  // ----- parts with a byte between them

  lemma JoinMore(b: Byte, parts: seq<seq<Byte>>, part: seq<Byte>)
    requires parts != []
    ensures Join(b, parts + [part]) == Join(b, parts) + [b] + part
  {
    assert (parts + [part])[..|parts|] == parts;
  }

  /** A byte more of the last part. */
  lemma JoinLonger(b: Byte, parts: seq<seq<Byte>>, c: Byte)
    requires parts != []
    ensures var n := |parts| - 1; Join(b, parts[n := parts[n] + [c]]) == Join(b, parts) + [c]
  {
    var n := |parts| - 1;
    var longer := parts[n := parts[n] + [c]];
    assert longer[..n] == parts[..n];
    if n > 0 {
      assert Join(b, parts[..n]) + [b] + (parts[n] + [c]) == Join(b, parts) + [c];
    }
  }

  // ----- eight groups

  lemma {:induction false} HexRuns(group: nat, digits: bool, t: seq<Byte>)
    requires AllHex(t)
    ensures GroupsRun(Groups(group, digits), t) == Groups(group, digits || t != [])
    decreases |t|
  {
    if t != [] {
      HexRuns(group, true, t[1..]);
    }
  }

  lemma OneOfGroups(s: Groups, b: Byte)
    ensures GroupsRun(s, [b]) == GroupsNext(s, b)
  {
    assert [b][1..] == [];
  }

  lemma {:induction false} GroupsRunJoin(parts: seq<seq<Byte>>, n: nat)
    requires 1 <= n <= 8 && GroupParts(parts, n)
    ensures GroupsRun(Groups(1, false), Join(COLON, parts)) == Groups(n, true)
    decreases n
  {
    if n == 1 {
      HexRuns(1, false, parts[0]);
    } else {
      var init, last := parts[..n - 1], parts[n - 1];
      GroupsRunJoin(init, n - 1);
      var t, s := Join(COLON, init), Groups(1, false);
      GroupsRunAppend(s, t + [COLON], last);
      GroupsRunAppend(s, t, [COLON]);
      OneOfGroups(Groups(n - 1, true), COLON);
      HexRuns(n, false, last);
    }
  }

  /** The groups read, the last of them perhaps still without a digit. */
  predicate GroupsSoFar(parts: seq<seq<Byte>>, n: nat, digits: bool) {
    && 1 <= n <= 8 && |parts| == n && (digits <==> parts[n - 1] != [])
    && (forall i :: 0 <= i < n ==> AllHex(parts[i]))
    && forall i :: 0 <= i < n - 1 ==> parts[i] != []
  }

  ghost predicate GroupsRead(s: Groups, t: seq<Byte>) {
    s != NoGroups ==> exists parts :: GroupsSoFar(parts, s.group, s.digits) && t == Join(COLON, parts)
  }

  lemma GroupsReadMore(s: Groups, t: seq<Byte>, b: Byte)
    requires GroupsRead(s, t)
    ensures GroupsRead(GroupsNext(s, b), t + [b])
  {
    if GroupsNext(s, b) != NoGroups {
      var parts :| GroupsSoFar(parts, s.group, s.digits) && t == Join(COLON, parts);
      var n := s.group;
      if Hex(b) {
        JoinLonger(COLON, parts, b);
        assert GroupsSoFar(parts[n - 1 := parts[n - 1] + [b]], n, true);
      } else {
        JoinMore(COLON, parts, []);
        assert GroupsSoFar(parts + [[]], n + 1, false);
        assert t + [b] == Join(COLON, parts + [[]]);
      }
    }
  }

  lemma {:induction false} GroupsRunReads(s: Groups, text: seq<Byte>, t: seq<Byte>)
    requires GroupsRead(s, text)
    ensures GroupsRead(GroupsRun(s, t), text + t)
    decreases |t|
  {
    hide GroupsRead;
    if t == [] {
      assert text + t == text;
    } else {
      GroupsReadMore(s, text, t[0]);
      GroupsRunReads(GroupsNext(s, t[0]), text + [t[0]], t[1..]);
      assert text + [t[0]] + t[1..] == text + t;
    }
  }

  lemma GroupsAreRead(t: seq<Byte>)
    ensures GroupsEnd(GroupsRun(Groups(1, false), t)) <==> GroupsText(t)
  {
    var s := GroupsRun(Groups(1, false), t);
    assert GroupsSoFar([[]], 1, false) && [] == Join(COLON, [[]]);
    GroupsRunReads(Groups(1, false), [], t);
    assert [] + t == t;
    if GroupsEnd(s) {
      var parts :| GroupsSoFar(parts, 8, true) && t == Join(COLON, parts);
      assert GroupParts(parts, 8);
    }
    if GroupsText(t) {
      var parts :| GroupParts(parts, 8) && t == Join(COLON, parts);
      GroupsRunJoin(parts, 8);
    }
  }

  // ----- mapped addresses

  lemma {:induction false} DigitsRun(octet: nat, digits: nat, t: seq<Byte>)
    requires AllDigits(t) && digits + |t| <= 3
    ensures MappedRun(Octets(octet, digits), t) == Octets(octet, digits + |t|)
    decreases |t|
  {
    if t != [] {
      DigitsRun(octet, digits + 1, t[1..]);
    }
  }

  lemma OneOfMapped(s: Mapped, b: Byte)
    ensures MappedRun(s, [b]) == MappedNext(s, b)
  {
    assert [b][1..] == [];
  }

  lemma {:induction false} OctetsRun(parts: seq<seq<Byte>>, n: nat)
    requires 1 <= n <= 4 && OctetParts(parts, n)
    ensures MappedRun(Octets(1, 0), Join(46, parts)) == Octets(n, |parts[n - 1]|)
    decreases n
  {
    if n == 1 {
      DigitsRun(1, 0, parts[0]);
    } else {
      var init, last := parts[..n - 1], parts[n - 1];
      OctetsRun(init, n - 1);
      var t, s := Join(46, init), Octets(1, 0);
      MappedRunAppend(s, t + [46], last);
      MappedRunAppend(s, t, [46]);
      OneOfMapped(Octets(n - 1, |init[n - 2]|), 46);
      DigitsRun(n, 0, last);
    }
  }

  lemma {:induction false} EffsRun(n: nat, t: seq<Byte>)
    requires 1 <= n && n + |t| <= 4 && forall i :: 0 <= i < |t| ==> Eff(t[i])
    ensures MappedRun(Tag(n), t) == Tag(n + |t|)
    decreases |t|
  {
    if t != [] {
      EffsRun(n + 1, t[1..]);
    }
  }

  lemma {:induction false} ZerosRun(n: nat)
    requires n <= 10
    ensures MappedRun(Zeros(0), ZEROS[..n]) == Zeros(n)
  {
    if n > 0 {
      ZerosRun(n - 1);
      assert ZEROS[..n] == ZEROS[..n - 1] + [ZEROS[n - 1]];
      MappedRunAppend(Zeros(0), ZEROS[..n - 1], [ZEROS[n - 1]]);
      OneOfMapped(Zeros(n - 1), ZEROS[n - 1]);
    }
  }

  lemma TagRuns(tag: seq<Byte>)
    requires TagText(tag)
    ensures MappedRun(Zeros(0), ZEROS + tag) == Tag(4)
  {
    ZerosRun(10);
    assert ZEROS[..10] == ZEROS;
    MappedRunAppend(Zeros(0), ZEROS, tag);
    if tag == [48] {
      OneOfMapped(Zeros(10), 48);
    } else {
      EffsRun(1, tag[1..]);
    }
  }

  predicate OctetsSoFar(parts: seq<seq<Byte>>, n: nat, digits: nat) {
    && 1 <= n <= 4 && |parts| == n && digits == |parts[n - 1]| <= 3
    && (forall i :: 0 <= i < n ==> AllDigits(parts[i]))
    && forall i :: 0 <= i < n - 1 ==> 1 <= |parts[i]| <= 3
  }

  ghost predicate MappedRead(s: Mapped, t: seq<Byte>) {
    match s
    case NoMapped => true
    case Zeros(n) => n <= 10 && t == ZEROS[..n]
    case Tag(n) =>
      if n < 4 then n > 0 && exists tag :: |tag| == n && (forall i :: 0 <= i < n ==> Eff(tag[i])) && t == ZEROS + tag
      else n == 4 && exists tag :: TagText(tag) && t == ZEROS + tag
    case Octets(octet, digits) =>
      exists tag, parts :: TagText(tag) && OctetsSoFar(parts, octet, digits)
          && t == ZEROS + tag + [COLON] + Join(46, parts)
  }

  lemma DigitMore(tag: seq<Byte>, parts: seq<seq<Byte>>, octet: nat, digits: nat, b: Byte)
    requires TagText(tag) && OctetsSoFar(parts, octet, digits) && Digit(b) && digits < 3
    ensures MappedRead(Octets(octet, digits + 1), ZEROS + tag + [COLON] + Join(46, parts) + [b])
  {
    var longer := parts[octet - 1 := parts[octet - 1] + [b]];
    JoinLonger(46, parts, b);
    assert OctetsSoFar(longer, octet, digits + 1);
    hide Join, OctetsSoFar, TagText;
    var head := ZEROS + tag + [COLON];
    assert head + Join(46, parts) + [b] == head + (Join(46, parts) + [b]);
  }

  lemma OctetMore(tag: seq<Byte>, parts: seq<seq<Byte>>, octet: nat, digits: nat)
    requires TagText(tag) && OctetsSoFar(parts, octet, digits) && digits > 0 && octet < 4
    ensures MappedRead(Octets(octet + 1, 0), ZEROS + tag + [COLON] + Join(46, parts) + [46])
  {
    JoinMore(46, parts, []);
    assert OctetsSoFar(parts + [[]], octet + 1, 0);
    hide Join, OctetsSoFar, TagText;
    var head := ZEROS + tag + [COLON];
    assert head + Join(46, parts) + [46] == head + (Join(46, parts) + [46] + []);
  }

  lemma OctetsReadMore(octet: nat, digits: nat, t: seq<Byte>, b: Byte)
    requires MappedRead(Octets(octet, digits), t) && MappedNext(Octets(octet, digits), b) != NoMapped
    ensures MappedRead(MappedNext(Octets(octet, digits), b), t + [b])
  {
    hide Join, OctetsSoFar, TagText;
    var tag, parts :|
      TagText(tag) && OctetsSoFar(parts, octet, digits) && t == ZEROS + tag + [COLON] + Join(46, parts);
    if Digit(b) && digits < 3 {
      DigitMore(tag, parts, octet, digits, b);
    } else {
      OctetMore(tag, parts, octet, digits);
    }
  }

  lemma ZerosReadMore(n: nat, t: seq<Byte>, b: Byte)
    requires MappedRead(Zeros(n), t) && MappedNext(Zeros(n), b) != NoMapped
    ensures MappedRead(MappedNext(Zeros(n), b), t + [b])
  {
    if n < 10 {
      assert ZEROS[..n + 1] == ZEROS[..n] + [ZEROS[n]];
    } else {
      assert ZEROS[..10] == ZEROS;
      assert t + [b] == ZEROS + [b] && |[b]| == 1;
      if b != 48 {
        assert forall i :: 0 <= i < 1 ==> Eff([b][i]);
      }
    }
  }

  lemma TagReadMore(n: nat, t: seq<Byte>, b: Byte)
    requires MappedRead(Tag(n), t) && MappedNext(Tag(n), b) != NoMapped
    ensures MappedRead(MappedNext(Tag(n), b), t + [b])
  {
    if n < 4 {
      var tag: seq<Byte> :| |tag| == n && (forall i :: 0 <= i < n ==> Eff(tag[i])) && t == ZEROS + tag;
      assert t + [b] == ZEROS + (tag + [b]);
      assert |tag + [b]| == n + 1 && forall i :: 0 <= i < n + 1 ==> Eff((tag + [b])[i]);
    } else {
      var tag :| TagText(tag) && t == ZEROS + tag;
      assert OctetsSoFar([[]], 1, 0);
      assert t + [b] == ZEROS + tag + [COLON] + Join(46, [[]]);
    }
  }

  lemma MappedReadMore(s: Mapped, t: seq<Byte>, b: Byte)
    requires MappedRead(s, t)
    ensures MappedRead(MappedNext(s, b), t + [b])
  {
    if MappedNext(s, b) != NoMapped {
      match s
      case Zeros(n) => ZerosReadMore(n, t, b);
      case Tag(n) => TagReadMore(n, t, b);
      case Octets(octet, digits) => OctetsReadMore(octet, digits, t, b);
    }
  }

  lemma {:induction false} MappedRunReads(s: Mapped, text: seq<Byte>, t: seq<Byte>)
    requires MappedRead(s, text)
    ensures MappedRead(MappedRun(s, t), text + t)
    decreases |t|
  {
    hide MappedRead;
    if t == [] {
      assert text + t == text;
    } else {
      MappedReadMore(s, text, t[0]);
      MappedRunReads(MappedNext(s, t[0]), text + [t[0]], t[1..]);
      assert text + [t[0]] + t[1..] == text + t;
    }
  }

  lemma MappedIsRead(t: seq<Byte>)
    requires MappedText(t)
    ensures MappedEnds(MappedRun(Zeros(0), t))
  {
    var tag, parts :| TagText(tag) && OctetParts(parts, 4) && t == ZEROS + tag + [COLON] + Join(46, parts);
    TagRuns(tag);
    MappedRunAppend(Zeros(0), ZEROS + tag + [COLON], Join(46, parts));
    MappedRunAppend(Zeros(0), ZEROS + tag, [COLON]);
    OneOfMapped(Tag(4), COLON);
    OctetsRun(parts, 4);
  }

  lemma MappedsAreRead(t: seq<Byte>)
    ensures MappedEnds(MappedRun(Zeros(0), t)) <==> MappedText(t)
  {
    var s := MappedRun(Zeros(0), t);
    MappedRunReads(Zeros(0), [], t);
    assert [] + t == t;
    if MappedEnds(s) {
      var tag, parts :| TagText(tag) && OctetsSoFar(parts, 4, s.digits) && t == ZEROS + tag + [COLON] + Join(46, parts);
      assert OctetParts(parts, 4);
    }
    if MappedText(t) {
      MappedIsRead(t);
    }
  }

  // ----- hosts

  /** The machine reads exactly the hosts. */
  lemma HostsAreRead(t: seq<Byte>)
    ensures HostEnds(HostRun(HOST_START, t)) <==> HostText(t)
  {
    HostRunParts(HOST_START, t);
    NamesAreRead(t);
    GroupsAreRead(t);
    MappedsAreRead(t);
  }
}
