/** Writing a message out and reading it back: the machine accepts every line the grammar of its
    parts can form, and finds the parts again. */
module IrcRoundTrip {
  import opened Fifo
  import opened IrcGrammar
  import opened IrcMessage
  import opened IrcStream
  import opened IrcPrefix
  import opened IrcHosts
  import opened IrcSenders

  /** A message in parts. `last` is a final parameter that may hold spaces. */
  datatype Parts = Parts(prefix: Prefix, code: seq<Byte>, middles: seq<seq<Byte>>, last: Last)

  datatype Prefix = NoPrefix | FromServer(name: seq<Byte>) | FromUser(sender: Sender)

  /** A final parameter is written behind a colon, or bare behind fourteen others. */
  datatype Last = NoLast | Colon(text: seq<Byte>) | Bare(text: seq<Byte>)

  // ----- the parts the grammar allows

  predicate CodeText(t: seq<Byte>) {
    (|t| > 0 && forall i :: 0 <= i < |t| ==> Alpha(t[i])) || (|t| == 3 && forall i :: 0 <= i < 3 ==> Digit(t[i]))
  }

  predicate MiddleText(t: seq<Byte>) {
    |t| > 0 && Plain(t[0]) && forall i :: 0 <= i < |t| ==> Plain(t[i]) || t[i] == COLON
  }

  predicate TrailingText(t: seq<Byte>) {
    forall i :: 0 <= i < |t| ==> Plain(t[i]) || t[i] == COLON || t[i] == SPACE
  }

  ghost predicate PrefixText(p: Prefix) {
    match p
    case NoPrefix => true
    case FromServer(name) => NameText(name)
    case FromUser(sender) => SenderText(sender)
  }

  predicate LastText(last: Last, middles: nat) {
    match last
    case NoLast => true
    case Colon(text) => TrailingText(text)
    case Bare(text) => middles == 14 && TrailingText(text) && (text != [] ==> text[0] != COLON)
  }

  ghost predicate Good(p: Parts) {
    && PrefixText(p.prefix)
    && CodeText(p.code)
    && |p.middles| <= 14 && (forall i :: 0 <= i < |p.middles| ==> MiddleText(p.middles[i]))
    && LastText(p.last, |p.middles|)
  }

  // ----- writing

  function Middles(ms: seq<seq<Byte>>): seq<Byte> {
    if ms == [] then [] else [SPACE] + ms[0] + Middles(ms[1..])
  }

  function LastLine(last: Last): seq<Byte> {
    match last
    case NoLast => []
    case Colon(text) => [SPACE, COLON] + text
    case Bare(text) => [SPACE] + text
  }

  /** All parameters as they are written, each behind a space. */
  function Params(p: Parts): seq<Byte> {
    Middles(p.middles) + LastLine(p.last)
  }

  function PrefixLine(p: Parts): seq<Byte> {
    match p.prefix
    case NoPrefix => []
    case FromServer(name) => [COLON] + name + [SPACE]
    case FromUser(sender) => [COLON] + SenderLine(sender) + [SPACE]
  }

  function Line(p: Parts): seq<Byte> {
    PrefixLine(p) + (p.code + Params(p) + [CR, LF])
  }

  // ----- reading a stretch in which no message ends

  datatype Step = Step(state: State, msg: Msg)

  function After(c: Step, b: Byte): Step {
    Step(Next(c.state, b), Act(c.state, b, c.msg))
  }

  function Steps(c: Step, t: seq<Byte>): Step
    decreases |t|
  {
    if t == [] then c else Steps(After(c, t[0]), t[1..])
  }

  lemma {:induction false} StepsAppend(c: Step, a: seq<Byte>, b: seq<Byte>)
    ensures Steps(c, a + b) == Steps(Steps(c, a), b)
    decreases |a|
  {
    if a == [] {
      assert a + b == b;
    } else {
      assert (a + b)[0] == a[0] && (a + b)[1..] == a[1..] + b;
      StepsAppend(After(c, a[0]), a[1..], b);
    }
  }

  lemma {:induction false} StepsEnded(c: Step, t: seq<Byte>)
    requires c.state == Error || (c.state == Done && t != [])
    ensures Steps(c, t).state == Error
    decreases |t|
  {
    if t != [] {
      StepsEnded(After(c, t[0]), t[1..]);
    }
  }

  /** Where the machine gets to a message's end only with the last byte of t, a call reads t and
      stops. */
  lemma {:induction false} ScanSteps(c: Step, t: seq<Byte>, rest: seq<Byte>)
    requires t != [] && Steps(c, t).state == Done && c.state != Error
    ensures Scan(c.state, c.msg, t + rest) == Scanned(Start, Steps(c, t).msg, |t|, true)
    decreases |t|
  {
    var d := After(c, t[0]);
    assert (t + rest)[0] == t[0] && (t + rest)[1..] == t[1..] + rest;
    if t[1..] == [] {
      assert Steps(d, t[1..]) == d;
    } else {
      if d.state == Error || d.state == Done {
        StepsEnded(d, t[1..]);
      }
      ScanSteps(d, t[1..], rest);
    }
  }

  // ----- the prefix

  lemma NoMore(text: seq<Byte>)
    ensures text + [] == text
  {}

  lemma OneMore(text: seq<Byte>, t: seq<Byte>)
    requires t != []
    ensures text + [t[0]] + t[1..] == text + t
  {}

  lemma StepsFirst(c: Step, b: Byte, t: seq<Byte>)
    ensures Steps(c, [b] + t) == Steps(After(c, b), t)
  {
    assert ([b] + t)[1..] == t;
  }

  lemma {:induction false} ReadingSteps(c: Step, t: seq<Byte>)
    requires Reading(c.state, c.msg)
    ensures Reading(Steps(c, t).state, Steps(c, t).msg)
    decreases |t|
  {
    if t != [] {
      if Next(c.state, t[0]) != Error {
        ReadingKept(c.state, t[0], c.msg);
      }
      ReadingSteps(After(c, t[0]), t[1..]);
    }
  }

  lemma {:induction false} DeadMaskStays(t: seq<Byte>)
    ensures MaskRun(NoMask, t) == NoMask
    decreases |t|
  {
    if t != [] {
      DeadMaskStays(t[1..]);
    }
  }

  lemma {:induction false} DeadNameRuns(t: seq<Byte>)
    ensures NameRun(NoName, t) == NoName
    decreases |t|
  {
    if t != [] {
      DeadNameRuns(t[1..]);
    }
  }

  /** While one of the two readings of a prefix is alive, so is the machine. */
  lemma {:induction false} PrefixRuns(c: Step, t: seq<Byte>)
    requires c.state.InPrefix?
    requires NameRun(c.state.server, t) != NoName || MaskRun(c.state.mask, t) != NoMask
    ensures var d := Steps(c, t);
      && d.state == InPrefix(NameRun(c.state.server, t), MaskRun(c.state.mask, t))
      && d.msg.prefix == c.msg.prefix + t && d.msg.params == c.msg.params
    decreases |t|
  {
    if t == [] {
      NoMore(c.msg.prefix);
    } else {
      var name, mask := NameNext(c.state.server, t[0]), MaskNext(c.state.mask, t[0]);
      if name == NoName {
        DeadNameRuns(t[1..]);
      }
      if mask == NoMask {
        DeadMaskStays(t[1..]);
      }
      OneMore(c.msg.prefix, t);
      PrefixRuns(After(c, t[0]), t[1..]);
    }
  }

  lemma ColonStarts(m: Msg)
    ensures After(Step(Start, m), COLON) == Step(AfterColon, m.(isHostmask := false, isServer := false))
  {}

  /** A name or a sender, from the colon on. */
  lemma PrefixTextPart(m: Msg, t: seq<Byte>)
    requires NameEnds(NameRun(NameStart, t)) || MaskEnds(MaskRun(MaskStart, t))
    ensures var d := Steps(Step(AfterColon, m), t);
      && d.state == InPrefix(NameRun(NameStart, t), MaskRun(MaskStart, t))
      && d.msg.prefix == t && d.msg.params == m.params
  {
    var c := After(Step(AfterColon, m), t[0]);
    var name, mask := NameNext(NameStart, t[0]), MaskNext(MaskStart, t[0]);
    if name == NoName {
      DeadNameRuns(t[1..]);
    }
    if mask == NoMask {
      DeadMaskStays(t[1..]);
    }
    assert c.state == InPrefix(name, mask) && c.msg.prefix == [t[0]];
    hide After, NameEnds, MaskEnds;
    PrefixRuns(c, t[1..]);
    assert [t[0]] + t[1..] == t;
  }

  /** The prefix with its colon and space: each flag says whether the text is of its kind. */
  lemma PrefixPart(m: Msg, t: seq<Byte>)
    requires NameEnds(NameRun(NameStart, t)) || MaskEnds(MaskRun(MaskStart, t))
    ensures var c := Steps(Step(Start, m), [COLON] + t + [SPACE]);
      && c.state == AfterPrefix && c.msg.prefix == t && c.msg.params == m.params && Tiled(c.msg)
      && (c.msg.isServer <==> NameEnds(NameRun(NameStart, t)))
      && (c.msg.isHostmask <==> MaskEnds(MaskRun(MaskStart, t)))
  {
    hide Tiled;
    var b := Step(AfterColon, m.(isHostmask := false, isServer := false));
    ColonStarts(m);
    PrefixTextPart(b.msg, t);
    var c := Steps(b, t);
    ReadingSteps(b, t);
    SpaceEnds(c);
    hide After, NameEnds, MaskEnds, NameRun, MaskRun, Reading;
    StepsFirst(Step(Start, m), COLON, t + [SPACE]);
    StepsAppend(b, t, [SPACE]);
    assert [COLON] + (t + [SPACE]) == [COLON] + t + [SPACE];
    assert Steps(c, [SPACE]) == After(c, SPACE);
  }

  lemma SpaceEnds(c: Step)
    requires c.state.InPrefix? && (NameEnds(c.state.server) || MaskEnds(c.state.mask)) && Reading(c.state, c.msg)
    ensures var d := After(c, SPACE);
      && d == Step(AfterPrefix, c.msg.(isServer := NameEnds(c.state.server), isHostmask := MaskEnds(c.state.mask)))
      && Tiled(d.msg)
  {
    PrefixEnds(c.state, SPACE, c.msg);
  }

  // ----- the code

  /** Where the machine is behind a code. */
  function CodeState(code: seq<Byte>): State
    requires code != []
  {
    if Alpha(code[0]) then Letters else Digits(3)
  }

  lemma {:induction false} LettersRead(m: Msg, t: seq<Byte>)
    requires forall i :: 0 <= i < |t| ==> Alpha(t[i])
    ensures Steps(Step(Letters, m), t) == Step(Letters, m.(code := m.code + t))
    decreases |t|
  {
    if t == [] {
      NoMore(m.code);
    } else {
      LettersRead(m.(code := m.code + [t[0]]), t[1..]);
      OneMore(m.code, t);
    }
  }

  /** A message that begins has its flags cleared. */
  function Begun(s: State, m: Msg): Msg {
    if s == Start then m.(isHostmask := false, isServer := false) else m
  }

  /** The code, at the start of the message or behind its prefix. */
  lemma CodePart(s: State, m: Msg, code: seq<Byte>)
    requires s in {Start, AfterPrefix} && CodeText(code)
    ensures Steps(Step(s, m), code) == Step(CodeState(code), Begun(s, m).(code := code))
  {
    var c := Step(s, m);
    var d := After(c, code[0]);
    if Alpha(code[0]) {
      LettersRead(d.msg, code[1..]);
      assert [code[0]] + code[1..] == code;
    } else {
      var e := After(d, code[1]);
      var f := After(e, code[2]);
      assert Steps(c, code) == Steps(d, code[1..]) == Steps(e, code[1..][1..]) == Steps(f, code[1..][1..][1..]) == f;
      assert [code[0]] + [code[1]] + [code[2]] == code;
    }
  }

  // ----- the parameters

  predicate ParamText(t: seq<Byte>) {
    forall i :: 0 <= i < |t| ==> Plain(t[i]) || t[i] == COLON
  }

  lemma {:induction false} MiddleReads(n: nat, m: Msg, t: seq<Byte>)
    requires ParamText(t) && m.params != []
    ensures Steps(Step(Middle(n), m), t) == Step(Middle(n), m.(params := m.params + t))
    decreases |t|
  {
    if t == [] {
      NoMore(m.params);
    } else {
      MiddleReads(n, m.(params := m.params + [t[0]]), t[1..]);
      OneMore(m.params, t);
    }
  }

  lemma {:induction false} TrailingReads(m: Msg, t: seq<Byte>)
    requires TrailingText(t) && m.params != []
    ensures Steps(Step(Trailing, m), t) == Step(Trailing, m.(params := m.params + t))
    decreases |t|
  {
    if t == [] {
      NoMore(m.params);
    } else {
      TrailingReads(m.(params := m.params + [t[0]]), t[1..]);
      OneMore(m.params, t);
    }
  }

  /** A parameter behind its space. */
  lemma GapReads(n: nat, m: Msg, t: seq<Byte>)
    requires n < 14 && MiddleText(t)
    ensures Steps(Step(Gap(n), m), t) == Step(Middle(n + 1), m.(params := m.params + t))
  {
    var d := After(Step(Gap(n), m), t[0]);
    assert d == Step(Middle(n + 1), m.(params := m.params + [t[0]]));
    hide After;
    MiddleReads(n + 1, d.msg, t[1..]);
    OneMore(m.params, t);
  }

  lemma FirstGap(s: State, m: Msg)
    requires s == Letters || s == Digits(3)
    ensures After(Step(s, m), SPACE) == Step(Gap(0), m.(params := []))
  {}

  lemma NextGap(n: nat, m: Msg)
    requires m.params != []
    ensures After(Step(Middle(n), m), SPACE) == Step(Gap(n), m.(params := m.params + [SPACE]))
  {}

  lemma GapColon(n: nat, m: Msg)
    ensures After(Step(Gap(n), m), COLON) == Step(Trailing, m.(params := m.params + [COLON]))
  {}

  lemma Regroup(a: seq<Byte>, b: seq<Byte>, c: seq<Byte>, d: seq<Byte>)
    ensures a + b + c + d == a + (b + c + d) && b + (c + d) == b + c + d
  {}

  /** Further parameters. */
  lemma {:induction false} MiddlesRead(n: nat, m: Msg, ms: seq<seq<Byte>>)
    requires n + |ms| <= 14 && m.params != [] && forall i :: 0 <= i < |ms| ==> MiddleText(ms[i])
    ensures Steps(Step(Middle(n), m), Middles(ms)) == Step(Middle(n + |ms|), m.(params := m.params + Middles(ms)))
    decreases |ms|
  {
    hide After, MiddleText;
    if ms == [] {
      NoMore(m.params);
    } else {
      hide Steps;
      var c, rest := Step(Middle(n), m), Middles(ms[1..]);
      var d := m.(params := m.params + [SPACE]);
      NextGap(n, m);
      GapReads(n, d, ms[0]);
      MiddlesRead(n + 1, d.(params := d.params + ms[0]), ms[1..]);
      StepsFirst(c, SPACE, ms[0] + rest);
      StepsAppend(Step(Gap(n), d), ms[0], rest);
      Regroup(m.params, [SPACE], ms[0], rest);
    }
  }

  /** The last parameter, behind a gap. */
  lemma LastReads(n: nat, m: Msg, last: seq<Byte>)
    requires TrailingText(last)
    ensures Steps(Step(Gap(n), m), [COLON] + last) == Step(Trailing, m.(params := m.params + ([COLON] + last)))
  {
    GapColon(n, m);
    hide After, TrailingText;
    StepsFirst(Step(Gap(n), m), COLON, last);
    TrailingReads(m.(params := m.params + [COLON]), last);
    assert m.params + [COLON] + last == m.params + ([COLON] + last);
  }

  /** The fifteenth parameter without a colon. */
  lemma BareReads(m: Msg, last: seq<Byte>)
    requires TrailingText(last) && m.params != [] && (last != [] ==> last[0] != COLON)
    ensures var c := Steps(Step(Gap(14), m), last);
      MayEnd(c.state) && c.msg == m.(params := m.params + last)
  {
    hide After, TrailingText;
    if last == [] {
      NoMore(m.params);
    } else {
      BareStarts(m, last);
      TrailingReads(m.(params := m.params + [last[0]]), last[1..]);
      OneMore(m.params, last);
    }
  }

  lemma BareStarts(m: Msg, last: seq<Byte>)
    requires TrailingText(last) && m.params != [] && last != [] && last[0] != COLON
    ensures After(Step(Gap(14), m), last[0]) == Step(Trailing, m.(params := m.params + [last[0]]))
    ensures TrailingText(last[1..])
  {}

  lemma ColonLast(n: nat, m: Msg, text: seq<Byte>)
    requires m.params != [] && TrailingText(text)
    ensures Steps(Step(Middle(n), m), [SPACE, COLON] + text) ==
      Step(Trailing, m.(params := m.params + ([SPACE, COLON] + text)))
  {
    hide After, Steps, TrailingText;
    var t := [COLON] + text;
    NextGap(n, m);
    StepsFirst(Step(Middle(n), m), SPACE, t);
    LastReads(n, m.(params := m.params + [SPACE]), text);
    ColonShape(m.params, text);
  }

  lemma ColonShape(params: seq<Byte>, text: seq<Byte>)
    ensures [SPACE] + ([COLON] + text) == [SPACE, COLON] + text
    ensures params + [SPACE] + ([COLON] + text) == params + ([SPACE, COLON] + text)
  {
    assert [SPACE] + ([COLON] + text) == [SPACE, COLON] + text;
    assert params + [SPACE] + ([COLON] + text) == params + ([SPACE] + ([COLON] + text));
  }

  lemma BareLast(m: Msg, text: seq<Byte>)
    requires m.params != [] && TrailingText(text) && (text != [] ==> text[0] != COLON)
    ensures var c := Steps(Step(Middle(14), m), [SPACE] + text);
      MayEnd(c.state) && c.msg == m.(params := m.params + ([SPACE] + text))
  {
    hide After, Steps, TrailingText, MayEnd;
    NextGap(14, m);
    StepsFirst(Step(Middle(14), m), SPACE, text);
    BareReads(m.(params := m.params + [SPACE]), text);
    assert m.params + [SPACE] + text == m.params + ([SPACE] + text);
  }

  /** The last parameter, if there is one, behind others. */
  lemma LastPart(n: nat, m: Msg, last: Last)
    requires m.params != [] && LastText(last, n)
    ensures var c := Steps(Step(Middle(n), m), LastLine(last));
      MayEnd(c.state) && c.msg == m.(params := m.params + LastLine(last))
  {
    hide After, TrailingText;
    match last {
      case NoLast => NoMore(m.params);
      case Colon(text) => ColonLast(n, m, text);
      case Bare(text) => BareLast(m, text);
    }
  }

  /** The states a message may end in. */
  predicate MayEnd(s: State) {
    s == Letters || s == Digits(3) || s.Middle? || s == Gap(14) || s == Trailing
  }

  /** What the parameters read as: what is written without its first space; if there are none,
      those of the message before stay. */
  function ParamsRead(p: Parts, before: seq<Byte>): seq<Byte> {
    if Params(p) == [] then before else Params(p)[1..]
  }

  lemma ParamsPart(s: State, m: Msg, p: Parts)
    requires (s == Letters || s == Digits(3)) && Good(p)
    ensures var c := Steps(Step(s, m), Params(p));
      MayEnd(c.state) && c.msg == m.(params := ParamsRead(p, m.params))
  {
    hide After;
    if p.middles != [] {
      FirstParam(s, m, p);
    } else if p.last.Colon? {
      var t := [COLON] + p.last.text;
      FirstGap(s, m);
      StepsFirst(Step(s, m), SPACE, t);
      LastReads(0, m.(params := []), p.last.text);
      assert Params(p) == [SPACE] + t;
      assert [] + t == t;
    } else {
      assert Params(p) == [];
    }
  }

  lemma FirstParam(s: State, m: Msg, p: Parts)
    requires (s == Letters || s == Digits(3)) && Good(p) && p.middles != []
    ensures var c := Steps(Step(s, m), Params(p));
      MayEnd(c.state) && c.msg == m.(params := ParamsRead(p, m.params))
  {
    hide After, Steps, Params, Middles, LastLine, PrefixText, MiddleText, TrailingText, CodeText, SenderText, MayEnd;
    var ms := p.middles;
    var more, end := Middles(ms[1..]), LastLine(p.last);
    var d, e := m.(params := []), m.(params := [] + ms[0]);
    FirstGap(s, m);
    StepsFirst(Step(s, m), SPACE, ms[0] + (more + end));
    GapReads(0, d, ms[0]);
    StepsAppend(Step(Gap(0), d), ms[0], more + end);
    FirstNotEmpty(p);
    MiddlesRead(1, e, ms[1..]);
    StepsAppend(Step(Middle(1), e), more, end);
    LastPart(|ms|, e.(params := e.params + more), p.last);
    ParamsShape(p);
  }

  lemma ParamsShape(p: Parts)
    requires p.middles != []
    ensures var first, more, end := p.middles[0], Middles(p.middles[1..]), LastLine(p.last);
      Params(p) == [SPACE] + (first + (more + end)) && Params(p)[1..] == [] + first + more + end
  {}

  lemma FirstNotEmpty(p: Parts)
    requires Good(p) && p.middles != []
    ensures p.middles[0] != []
  {
    assert MiddleText(p.middles[0]);
  }

  // ----- the line

  /** What reading a line leaves in the message. */
  ghost predicate Found(p: Parts, before: Msg, m: Msg) {
    && m.code == p.code && m.params == ParamsRead(p, before.params)
    && match p.prefix
       case NoPrefix => !m.isHostmask && !m.isServer && m.prefix == before.prefix
       case FromServer(name) =>
         && m.isServer && (m.isHostmask <==> SendersText(name))
         && m.prefix == name && Piece(m.server, m.prefix) == name
       case FromUser(s) =>
         && m.isHostmask && (m.isServer <==> NameText(SenderLine(s)))
         && m.prefix == SenderLine(s)
         && Piece(m.nick, m.prefix) == s.nick && Piece(m.user, m.prefix) == s.user && Piece(m.host, m.prefix) == s.host
         && (s.user != [] || s.host != [] ==> !m.isServer)
  }

  lemma ServerIsWhole(m: Msg)
    requires Tiled(m) && m.isServer
    ensures Piece(m.server, m.prefix) == m.prefix && NoMarks(m.prefix)
  {}

  /** The pieces found are the pieces written. */
  lemma SenderFound(s: Sender, m: Msg)
    requires SenderText(s) && Tiled(m) && m.isHostmask && m.prefix == SenderLine(s)
    ensures Piece(m.nick, m.prefix) == s.nick && Piece(m.user, m.prefix) == s.user && Piece(m.host, m.prefix) == s.host
  {
    var nick: seq<Byte>, user: seq<Byte>, host: seq<Byte> :|
      Sliced(m, nick, user, host) && m.prefix == Whole(nick, user, host) && (user != [] ==> host != []);
    WholePieces(m, nick, user, host);
    NickHasNoMarks(s.nick);
    assert AT !in s.user;
    WholeUnique(nick, user, host, s.nick, s.user, s.host);
  }

  lemma LineEnds(c: Step)
    requires MayEnd(c.state)
    ensures Steps(c, [CR, LF]) == Step(Done, c.msg)
  {
    var d := After(c, CR);
    assert [CR, LF][1..] == [LF];
    assert Steps(d, [LF]) == After(d, LF);
  }

  /** Code, parameters and line end. */
  lemma BodyPart(s: State, m: Msg, p: Parts)
    requires s in {Start, AfterPrefix} && Good(p)
    ensures Steps(Step(s, m), p.code + Params(p) + [CR, LF]) ==
      Step(Done, Begun(s, m).(code := p.code, params := ParamsRead(p, m.params)))
  {
    hide Steps, CodeText, SenderText, Params, MayEnd;
    CodePart(s, m, p.code);
    CodeNotEmpty(p.code);
    var c := Step(CodeState(p.code), Begun(s, m).(code := p.code));
    ParamsPart(c.state, c.msg, p);
    var d := Steps(c, Params(p));
    LineEnds(d);
    StepsAppend(Step(s, m), p.code, Params(p));
    StepsAppend(Step(s, m), p.code + Params(p), [CR, LF]);
  }

  lemma CodeNotEmpty(code: seq<Byte>)
    requires CodeText(code)
    ensures code != []
  {}

  /** The round trip: whatever the message held before and whatever bytes follow, one call reads
      exactly the line, completes the message, and finds its parts. */
  lemma LineReads(p: Parts, m: Msg, rest: seq<Byte>)
    requires Good(p)
    ensures var r := Scan(Start, m, Line(p) + rest);
      r.done && r.used == |Line(p)| && r.state == Start && Found(p, m, r.msg)
  {
    hide Steps, SenderText, SendersText, NameText, NameRun, MaskRun, NameEnds, MaskEnds, CodeText, Tiled, Params;
    hide ParamsRead;
    var body := p.code + Params(p) + [CR, LF];
    var c := Step(Start, m);
    match p.prefix {
      case NoPrefix =>
        BodyPart(Start, m, p);
        assert Line(p) == body;
      case FromServer(name) =>
        NamesAreRead(name);
        SendersAreRead(name);
        PrefixPart(m, name);
        var d := Steps(c, PrefixLine(p));
        ServerIsWhole(d.msg);
        BodyPart(AfterPrefix, d.msg, p);
        StepsAppend(c, PrefixLine(p), body);
      case FromUser(s) =>
        var line := SenderLine(s);
        NamesAreRead(line);
        SenderRuns(s);
        SenderMarks(s);
        PrefixPart(m, line);
        var d := Steps(c, PrefixLine(p));
        BodyPart(AfterPrefix, d.msg, p);
        StepsAppend(c, PrefixLine(p), body);
        SenderFound(s, d.msg);
        if d.msg.isServer {
          ServerIsWhole(d.msg);
        }
    }
    ScanSteps(c, Line(p), rest);
  }

  lemma LineFolds(c: Conf, p: Parts)
    requires c.state == Start && Good(p)
    ensures var d := Fold(c, Line(p)); d.state == Start && d.out == c.out + [d.msg] && Found(p, c.msg, d.msg)
  {
    LineReads(p, c.msg, []);
    assert Line(p) + [] == Line(p);
    ScanFolds(c, Line(p));
    assert Line(p)[..|Line(p)|] == Line(p);
  }

  /** The parts are found in the message, whatever it held before. */
  ghost predicate Delivered(p: Parts, m: Msg) {
    exists before :: Found(p, before, m)
  }

  function Lines(ps: seq<Parts>): seq<Byte> {
    if ps == [] then [] else Line(ps[0]) + Lines(ps[1..])
  }

  /** A stream of lines delivers their messages, one for each line and in order. */
  lemma {:induction false} LinesDeliver(c: Conf, ps: seq<Parts>)
    requires c.state == Start && forall i :: 0 <= i < |ps| ==> Good(ps[i])
    ensures var d := Fold(c, Lines(ps));
      && d.state == Start && |d.out| == |c.out| + |ps| && d.out[..|c.out|] == c.out
      && forall i {:trigger ps[i]} :: 0 <= i < |ps| ==> Delivered(ps[i], d.out[|c.out| + i])
    decreases |ps|
  {
    hide Line, Found, Good;
    if ps == [] {
      FoldNothing(c);
    } else {
      LineFolds(c, ps[0]);
      var d := Fold(c, Line(ps[0]));
      FoldAppend(c, Line(ps[0]), Lines(ps[1..]));
      LinesDeliver(d, ps[1..]);
      var e := Fold(d, Lines(ps[1..]));
      assert e.out[|c.out|] == d.out[|c.out|] == d.msg;
      assert e.out[..|c.out|] == e.out[..|d.out|][..|c.out|] == c.out;
      forall i {:trigger ps[i]} | 0 <= i < |ps|
        ensures Delivered(ps[i], e.out[|c.out| + i])
      {
        if i > 0 {
          assert ps[i] == ps[1..][i - 1];
          assert e.out[|c.out| + i] == e.out[|d.out| + (i - 1)];
        }
      }
    }
  }
}
