/** The streams the reading loop comes to an end on: beginnings of lines of the grammar. */
module IrcLines {
  import opened Fifo
  import opened IrcGrammar
  import opened IrcMessage
  import opened IrcStream
  import opened IrcHosts
  import opened IrcSenders
  import opened IrcRoundTrip
  import opened IrcAccepts

  const LETTER: Byte := 65

  // ----- every state short of error can be brought to a message's end

  /** Groups and octets are counted no further than they may be. */
  predicate HostCounts(h: Host) {
    && (h.groups.Groups? ==> h.groups.group <= 8)
    && (h.mapped.Zeros? ==> h.mapped.n <= 10)
    && (h.mapped.Tag? ==> h.mapped.n <= 4)
    && (h.mapped.Octets? ==> h.mapped.octet <= 4)
  }

  /** A byte that brings a host nearer to its end. */
  function HostStep(h: Host): (b: Byte)
    requires !HostEnds(h)
  {
    if h.name != NoName then LETTER
    else match h.groups
      case Groups(_, digits) => if digits then COLON else 48
      case NoGroups =>
        match h.mapped
        case Zeros(n) => if n % 2 == 0 then 48 else COLON
        case Tag(n) => if n < 4 then 70 else COLON
        case Octets(_, digits) => if digits == 0 then 48 else 46
        case NoMapped => 0
  }

  function HostToGo(h: Host): nat {
    if HostEnds(h) then 0
    else if h.name != NoName then 1
    else match h.groups
      case Groups(group, digits) => if group > 8 then 0 else 2 * (8 - group) + if digits then 1 else 2
      case NoGroups =>
        match h.mapped
        case Zeros(n) => if n > 10 then 0 else 40 - n
        case Tag(n) => if n > 4 then 0 else 20 - n
        case Octets(octet, digits) => if octet > 4 then 0 else 2 * (4 - octet) + if digits == 0 then 2 else 1
        case NoMapped => 0
  }

  lemma HostStepCloser(h: Host)
    requires HostAlive(h) && HostCounts(h) && !HostEnds(h)
    ensures var next := HostNext(h, HostStep(h)); HostAlive(next) && HostCounts(next) && HostToGo(next) < HostToGo(h)
  {}

  lemma {:induction false} HostCanEnd(h: Host) returns (t: seq<Byte>)
    requires HostAlive(h) && HostCounts(h)
    ensures HostEnds(HostRun(h, t))
    decreases HostToGo(h)
  {
    if HostEnds(h) {
      t := [];
    } else {
      HostStepCloser(h);
      var b := HostStep(h);
      t := HostCanEnd(HostNext(h, b));
      t := [b] + t;
    }
  }

  predicate MaskCounts(mask: Mask) {
    mask.InHost? ==> HostAlive(mask.host) && HostCounts(mask.host)
  }

  lemma HostBegins() returns (t: seq<Byte>)
    ensures MaskEnds(MaskRun(AfterAt, t))
  {
    t := [LETTER];
    MaskRunFirst(AfterAt, LETTER, []);
    assert [LETTER] + [] == t;
  }

  lemma MaskCanEnd(mask: Mask) returns (t: seq<Byte>)
    requires mask != NoMask && mask != MaskStart && MaskCounts(mask)
    ensures MaskEnds(MaskRun(mask, t))
  {
    match mask
    case Nick(_) => t := [];
    case InHost(h) =>
      t := HostCanEnd(h);
      HostInMask(h, t);
    case AfterAt => t := HostBegins();
    case User =>
      t := HostBegins();
      MaskRunFirst(User, AT, t);
      t := [AT] + t;
    case AfterBang =>
      t := HostBegins();
      MaskRunFirst(User, AT, t);
      MaskRunFirst(AfterBang, LETTER, [AT] + t);
      t := [LETTER] + ([AT] + t);
  }

  lemma NameCanEnd(name: Name) returns (t: seq<Byte>)
    requires name != NoName
    ensures NameEnds(NameRun(name, t))
  {
    if NameEnds(name) {
      t := [];
    } else {
      t := [LETTER];
      assert t[1..] == [];
    }
  }

  /** What the counts of a state are kept to. */
  predicate Counts(s: State) {
    && (s.InPrefix? ==> (s.server != NoName || s.mask != NoMask) && s.mask != MaskStart && MaskCounts(s.mask))
    && (s.Digits? ==> 1 <= s.n <= 3)
  }

  lemma CountsKept(s: State, b: Byte)
    requires Counts(s)
    ensures Counts(Next(s, b))
  {}

  // ----- completions

  lemma LineCanEnd(c: Step) returns (t: seq<Byte>)
    requires MayEnd(c.state) || c.state == AfterCr
    ensures Steps(c, t).state == Done
  {
    if c.state == AfterCr {
      t := [LF];
      assert Steps(c, t) == After(c, LF);
    } else {
      t := [CR, LF];
      LineEnds(c);
    }
  }

  lemma BodyCanEnd(c: Step) returns (t: seq<Byte>)
    requires c.state == Start || c.state == AfterPrefix
    ensures Steps(c, t).state == Done
  {
    var d := After(c, LETTER);
    assert d.state == Letters;
    hide After;
    t := LineCanEnd(d);
    StepsFirst(c, LETTER, t);
    t := [LETTER] + t;
  }

  lemma PrefixCanEnd(c: Step) returns (t: seq<Byte>)
    requires c.state.InPrefix? && Counts(c.state)
    ensures Steps(c, t).state == Done
  {
    var a: seq<Byte>;
    if c.state.server != NoName {
      a := NameCanEnd(c.state.server);
    } else {
      a := MaskCanEnd(c.state.mask);
    }
    PrefixRuns(c, a);
    var d := Steps(c, a);
    var e := After(d, SPACE);
    assert e.state == AfterPrefix;
    hide After;
    var b := BodyCanEnd(e);
    StepsFirst(d, SPACE, b);
    StepsAppend(c, a, [SPACE] + b);
    t := a + ([SPACE] + b);
  }

  lemma {:induction false} DigitsCanEnd(c: Step) returns (t: seq<Byte>)
    requires c.state.Digits? && c.state.n <= 3
    ensures Steps(c, t).state == Done
    decreases 3 - c.state.n
  {
    if c.state.n == 3 {
      t := LineCanEnd(c);
    } else {
      var d := After(c, 48);
      assert d.state == Digits(c.state.n + 1);
      t := DigitsCanEnd(d);
      StepsFirst(c, 48, t);
      t := [48] + t;
    }
  }

  lemma GapCanEnd(c: Step) returns (t: seq<Byte>)
    requires c.state.Gap?
    ensures Steps(c, t).state == Done
  {
    var d := After(c, COLON);
    assert d.state == Trailing;
    hide After;
    t := LineCanEnd(d);
    StepsFirst(c, COLON, t);
    t := [COLON] + t;
  }

  lemma ColonCanEnd(c: Step) returns (t: seq<Byte>)
    requires c.state == AfterColon
    ensures Steps(c, t).state == Done
  {
    var d := After(c, LETTER);
    assert d.state.InPrefix? && Counts(d.state);
    hide After;
    t := PrefixCanEnd(d);
    StepsFirst(c, LETTER, t);
    t := [LETTER] + t;
  }

  /** Whatever was read, some bytes complete the message. */
  lemma CanEnd(c: Step) returns (t: seq<Byte>)
    requires c.state != Error && c.state != Done && Counts(c.state)
    ensures Steps(c, t).state == Done
  {
    match c.state
    case Start => t := BodyCanEnd(c);
    case AfterColon => t := ColonCanEnd(c);
    case InPrefix(_, _) => t := PrefixCanEnd(c);
    case AfterPrefix => t := BodyCanEnd(c);
    case Digits(_) => t := DigitsCanEnd(c);
    case Gap(_) => t := GapCanEnd(c);
    case _ => t := LineCanEnd(c);
  }

  // ----- streams

  ghost predicate AllGood(ps: seq<Parts>) {
    forall i :: 0 <= i < |ps| ==> Good(ps[i])
  }

  /** The bytes are lines of the grammar, the last perhaps not complete. */
  ghost predicate BeginsLines(s: seq<Byte>) {
    exists ps, t: seq<Byte> :: AllGood(ps) && s + t == Lines(ps)
  }

  lemma LinesFirst(p: Parts, ps: seq<Parts>)
    ensures Lines([p] + ps) == Line(p) + Lines(ps)
  {
    assert ([p] + ps)[1..] == ps;
  }

  lemma OneLine(p: Parts)
    ensures Lines([p]) == Line(p)
  {
    hide Line;
    LinesFirst(p, []);
    assert [p] + [] == [p];
    assert Line(p) + Lines([]) == Line(p);
  }

  lemma {:induction false} LinesLast(ps: seq<Parts>, p: Parts)
    ensures Lines(ps + [p]) == Lines(ps) + Line(p)
    decreases |ps|
  {
    hide Line;
    if ps == [] {
      OneLine(p);
      assert ps + [p] == [p] && Lines(ps) + Line(p) == Line(p);
    } else {
      LinesLast(ps[1..], p);
      assert (ps + [p])[1..] == ps[1..] + [p];
      assert Line(ps[0]) + (Lines(ps[1..]) + Line(p)) == Line(ps[0]) + Lines(ps[1..]) + Line(p);
    }
  }

  /** What has been read of a stream that is not rejected: lines, and the beginning of one. */
  lemma {:induction false} FoldReadsLines(c: Conf, u: seq<Byte>, s: seq<Byte>) returns (ps: seq<Parts>, v: seq<Byte>)
    requires Read(c.state, u) && Counts(c.state) && Fold(c, s).state != Error
    ensures AllGood(ps) && u + s == Lines(ps) + v
    ensures Read(Fold(c, s).state, v) && Counts(Fold(c, s).state)
    decreases |s|
  {
    hide Read, Good, Line, Lines, Counts, Next, Feed, Act;
    if s == [] {
      ps, v := [], u;
      NoLines(u, s);
    } else {
      var d := Feed(c, s[0]);
      ErrorIfSo(d, s[1..]);
      FeedState(c, s[0]);
      ReadKept(c.state, u, s[0]);
      CountsKept(c.state, s[0]);
      SplitFirst(u, s);
      if Next(c.state, s[0]) == Done {
        var p := DoneIsRead(u + [s[0]]);
        StartIsRead();
        ps, v := FoldReadsLines(d, [], s[1..]);
        LineThen(p, ps, v, s[1..]);
        ps := [p] + ps;
      } else {
        ps, v := FoldReadsLines(d, u + [s[0]], s[1..]);
      }
    }
  }

  lemma NoLines(u: seq<Byte>, s: seq<Byte>)
    requires s == []
    ensures u + s == Lines([]) + u
  {}

  lemma SplitFirst(u: seq<Byte>, s: seq<Byte>)
    requires s != []
    ensures u + s == u + [s[0]] + s[1..]
  {}

  lemma LineThen(p: Parts, ps: seq<Parts>, v: seq<Byte>, s: seq<Byte>)
    requires [] + s == Lines(ps) + v
    ensures Line(p) + s == Lines([p] + ps) + v
  {
    hide Line, Lines;
    LinesFirst(p, ps);
    assert [] + s == s;
    assert Line(p) + (Lines(ps) + v) == Line(p) + Lines(ps) + v;
  }

  lemma FeedState(c: Conf, b: Byte)
    ensures Feed(c, b).state == if Next(c.state, b) == Done then Start else Next(c.state, b)
  {}

  lemma StartIsRead()
    ensures Read(Start, []) && Counts(Start)
  {}

  lemma DoneIsRead(t: seq<Byte>) returns (p: Parts)
    requires Read(Done, t)
    ensures Good(p) && t == Line(p)
  {
    p :| Good(p) && t == Line(p);
  }

  lemma {:induction false} FoldStops(c: Conf, s: seq<Byte>)
    requires c.state != Done
    ensures Fold(c, s).state != Done
    decreases |s|
  {
    if s != [] {
      FoldStops(Feed(c, s[0]), s[1..]);
    }
  }

  /** From between messages, the machine rejects no byte if and only if the bytes begin lines of
      the grammar. */
  lemma NotRejectedIff(c: Conf, s: seq<Byte>)
    requires c.state == Start
    ensures Fold(c, s).state != Error <==> BeginsLines(s)
  {
    hide Fold, Good;
    if Fold(c, s).state != Error {
      RunBeginsLines(c, s);
    }
    if BeginsLines(s) {
      var ps: seq<Parts>, t: seq<Byte> :| AllGood(ps) && s + t == Lines(ps);
      LinesDeliver(c, ps);
      FoldAppend(c, s, t);
      ErrorIfSo(Fold(c, s), t);
    }
  }

  lemma RunBeginsLines(c: Conf, s: seq<Byte>)
    requires c.state == Start && Fold(c, s).state != Error
    ensures BeginsLines(s)
  {
    hide Fold, Read, Good, Line, Counts;
    StartIsRead();
    FoldStops(c, s);
    var ps, v := FoldReadsLines(c, [], s);
    var d := Step(Fold(c, s).state, c.msg);
    var t := CanEnd(d);
    StepsRead(d, v, t);
    var p := DoneIsRead(v + t);
    LinesLast(ps, p);
    assert [] + s == s;
    assert s + t == Lines(ps) + v + t == Lines(ps) + (v + t);
    assert AllGood(ps + [p]);
  }

  /** The reading loop, begun when the bytes u of a message or of several have been read, ends if
      and only if those and the bytes in the ring begin lines of the grammar, however the ring
      cuts them. */
  lemma LoopEndsUnlessRejected(c: Conf, u: seq<Byte>, s: seq<Byte>, pieces: nat -> nat)
    requires c.state == Start && Fold(c, u).state != Error && Positive(pieces)
    ensures BeginsLines(u + s) <==> exists turns :: Turns(Fold(c, u), s, pieces, turns).1 == []
  {
    LoopFollowsRun(Fold(c, u), s, pieces);
    FoldAppend(c, u, s);
    NotRejectedIff(c, u + s);
    FoldNothing(Fold(c, u));
  }

  /** "PING" and a space at the end of the line. */
  const REJECTED: seq<Byte> := [80, 73, 78, 71, SPACE, CR, LF]

  /** A stream the loop never comes to an end on, from between messages and however it is cut. */
  lemma LoopNeverEnds(c: Conf, pieces: nat -> nat)
    requires c.state == Start && Positive(pieces)
    ensures forall turns {:trigger Turns(c, REJECTED, pieces, turns)} :: Turns(c, REJECTED, pieces, turns).1 != []
  {
    var s := REJECTED;
    var c1 := Feed(c, s[0]);
    var c2 := Feed(c1, s[1]);
    var c3 := Feed(c2, s[2]);
    var c4 := Feed(c3, s[3]);
    var c5 := Feed(c4, s[4]);
    var c6 := Feed(c5, s[5]);
    assert c4.state == Letters && c5.state == Gap(0) && c6.state == Error;
    hide Feed;
    FoldSix(c, s, c1, c2, c3, c4, c5, c6);
    LoopFollowsRun(c, s, pieces);
  }

  lemma FoldSix(c: Conf, s: seq<Byte>, c1: Conf, c2: Conf, c3: Conf, c4: Conf, c5: Conf, c6: Conf)
    requires |s| >= 6 && c1 == Feed(c, s[0]) && c2 == Feed(c1, s[1]) && c3 == Feed(c2, s[2])
    requires c4 == Feed(c3, s[3]) && c5 == Feed(c4, s[4]) && c6 == Feed(c5, s[5]) && c6.state == Error
    ensures Fold(c, s).state == Error
  {
    hide Feed;
    assert Fold(c, s) == Fold(c1, s[1..]) == Fold(c2, s[2..]) == Fold(c3, s[3..]);
    assert Fold(c3, s[3..]) == Fold(c4, s[4..]) == Fold(c5, s[5..]) == Fold(c6, s[6..]);
    ErrorStays(c6, s[6..]);
  }
}
