/** The machine accepts no line but those of the grammar: what is read can be written. */
module IrcAccepts {
  import opened Fifo
  import opened IrcGrammar
  import opened IrcMessage
  import opened IrcPrefix
  import opened IrcHosts
  import opened IrcSenders
  import opened IrcRoundTrip

  lemma {:induction false} MiddlesMore(ms: seq<seq<Byte>>, t: seq<Byte>)
    ensures Middles(ms + [t]) == Middles(ms) + [SPACE] + t
    decreases |ms|
  {
    if ms == [] {
      assert ([] + [t])[1..] == [];
    } else {
      assert (ms + [t])[1..] == ms[1..] + [t];
      MiddlesMore(ms[1..], t);
    }
  }

  // ----- what has been read in each state

  /** Prefix, code and n parameters of the grammar, without a last one. */
  ghost predicate Body(p: Parts, n: nat) {
    PrefixText(p.prefix) && CodeText(p.code) && n == |p.middles| <= 14 && p.last == NoLast
    && forall i :: 0 <= i < n ==> MiddleText(p.middles[i])
  }

  predicate SomeDigits(t: seq<Byte>) {
    forall i :: 0 <= i < |t| ==> Digit(t[i])
  }

  predicate SomeLetters(t: seq<Byte>) {
    forall i :: 0 <= i < |t| ==> Alpha(t[i])
  }

  /** The bytes of a message up to its parameters' end. */
  function Written(p: Parts): seq<Byte> {
    PrefixLine(p) + (p.code + Params(p))
  }

  /** A last parameter has begun. */
  ghost predicate Trails(p: Parts) {
    Good(p) && p.last != NoLast && (p.last.Bare? ==> p.last.text != [])
  }

  ghost predicate Read(s: State, text: seq<Byte>) {
    match s
    case Start => text == []
    case AfterColon => text == [COLON]
    case InPrefix(server, mask) =>
      exists t :: t != [] && text == [COLON] + t && server == NameRun(NameStart, t) && SenderRead(mask, t)
    case AfterPrefix => exists p: Parts :: PrefixText(p.prefix) && text == PrefixLine(p)
    case Letters =>
      exists p: Parts ::
        PrefixText(p.prefix) && p.code != [] && SomeLetters(p.code) && text == PrefixLine(p) + p.code
    case Digits(n) =>
      exists p: Parts ::
        PrefixText(p.prefix) && n == |p.code| <= 3 && SomeDigits(p.code) && text == PrefixLine(p) + p.code
    case Gap(n) => exists p :: Body(p, n) && text == Written(p) + [SPACE]
    case Middle(n) => n > 0 && exists p :: Body(p, n) && text == Written(p)
    case Trailing => exists p :: Trails(p) && text == Written(p)
    case AfterCr => exists p :: Good(p) && text == Written(p) + [CR]
    case Done => exists p :: Good(p) && text == Line(p)
    case Error => true
  }

  // ----- the prefix

  lemma ColonReads(b: Byte)
    requires Next(AfterColon, b) != Error
    ensures Read(Next(AfterColon, b), [COLON] + [b])
  {
    var s := Next(AfterColon, b);
    NameRunMore(NameStart, [], b);
    assert [] + [b] == [b];
    if s.mask != NoMask {
      assert MaskRead(s.mask, [b], Sender([b], [], []));
    }
  }

  lemma PrefixReads(s: State, text: seq<Byte>, b: Byte)
    requires s.InPrefix? && s.mask != MaskStart && Read(s, text) && Next(s, b) != Error
    ensures Read(Next(s, b), text + [b])
  {
    var t: seq<Byte> :| t != [] && text == [COLON] + t && s.server == NameRun(NameStart, t) && SenderRead(s.mask, t);
    if b == SPACE {
      PrefixRead(s.server, s.mask, t);
    } else {
      NameRunMore(NameStart, t, b);
      SenderReadMore(s.mask, t, b);
      assert text + [b] == [COLON] + (t + [b]);
    }
  }

  lemma PrefixRead(server: Name, mask: Mask, t: seq<Byte>)
    requires server == NameRun(NameStart, t) && SenderRead(mask, t) && (NameEnds(server) || MaskEnds(mask))
    ensures Read(AfterPrefix, [COLON] + t + [SPACE])
  {
    hide NameText, HostText, NameRun, HostRun;
    NamesAreRead(t);
    if NameEnds(server) {
      var p := Parts(FromServer(t), [], [], NoLast);
      assert PrefixText(p.prefix) && PrefixLine(p) == [COLON] + t + [SPACE];
    } else {
      var s :| MaskRead(mask, t, s);
      HostsAreRead(s.host);
      var p := Parts(FromUser(s), [], [], NoLast);
      assert SenderLine(s) == t && SenderText(s);
      assert PrefixText(p.prefix) && PrefixLine(p) == [COLON] + t + [SPACE];
    }
  }

  // ----- the code

  lemma CodeStarts(p: Parts, b: Byte)
    requires PrefixText(p.prefix) && CodeStart(b) != Error
    ensures Read(CodeStart(b), PrefixLine(p) + [b])
  {
    var q := p.(code := [b]);
    assert PrefixLine(q) == PrefixLine(p);
    assert q.code[0] == b;
  }

  lemma LettersMore(text: seq<Byte>, b: Byte)
    requires Read(Letters, text) && Alpha(b)
    ensures Read(Letters, text + [b])
  {
    var p: Parts :| PrefixText(p.prefix) && p.code != [] && SomeLetters(p.code) && text == PrefixLine(p) + p.code;
    var q := p.(code := p.code + [b]);
    assert PrefixLine(q) == PrefixLine(p) && text + [b] == PrefixLine(q) + q.code;
  }

  lemma DigitsMore(n: nat, text: seq<Byte>, b: Byte)
    requires Read(Digits(n), text) && Digit(b) && n != 3
    ensures Read(Digits(n + 1), text + [b])
  {
    var p: Parts :| PrefixText(p.prefix) && n == |p.code| <= 3 && SomeDigits(p.code) && text == PrefixLine(p) + p.code;
    var q := p.(code := p.code + [b]);
    assert PrefixLine(q) == PrefixLine(p) && text + [b] == PrefixLine(q) + q.code;
  }

  /** A code that is complete makes a body without parameters. */
  lemma CodeRead(s: State, text: seq<Byte>) returns (p: Parts)
    requires (s == Letters || s == Digits(3)) && Read(s, text)
    ensures Body(p, 0) && text == Written(p)
  {
    if s == Letters {
      p :| PrefixText(p.prefix) && p.code != [] && SomeLetters(p.code) && text == PrefixLine(p) + p.code;
    } else {
      p :| PrefixText(p.prefix) && 3 == |p.code| <= 3 && SomeDigits(p.code) && text == PrefixLine(p) + p.code;
    }
    var q := p.(middles := [], last := NoLast);
    assert PrefixLine(q) == PrefixLine(p) && Params(q) == [];
    assert q.code + Params(q) == q.code;
    p := q;
  }

  // ----- the parameters

  lemma BodyIsGood(p: Parts, n: nat)
    requires Body(p, n)
    ensures Good(p)
  {}

  /** A first byte of a further parameter. */
  lemma MiddleStarts(p: Parts, n: nat, b: Byte)
    requires Body(p, n) && n < 14 && Plain(b)
    ensures Read(Middle(n + 1), Written(p) + [SPACE] + [b])
  {
    var q := p.(middles := p.middles + [[b]]);
    MiddlesMore(p.middles, [b]);
    assert MiddleText([b]);
    assert Body(q, n + 1);
    assert PrefixLine(q) == PrefixLine(p);
    assert Written(q) == Written(p) + [SPACE] + [b];
  }

  lemma MiddleMore(p: Parts, n: nat, b: Byte)
    requires Body(p, n) && n > 0 && (Plain(b) || b == COLON)
    ensures Read(Middle(n), Written(p) + [b])
  {
    var init, last := p.middles[..n - 1], p.middles[n - 1];
    assert p.middles == init + [last];
    var q := p.(middles := init + [last + [b]]);
    MiddlesMore(init, last);
    MiddlesMore(init, last + [b]);
    assert MiddleText(last);
    assert MiddleText(last + [b]);
    assert Body(q, n);
    assert PrefixLine(q) == PrefixLine(p);
    WrittenMore(p, q, b, init, last);
  }

  lemma WrittenMore(p: Parts, q: Parts, b: Byte, init: seq<seq<Byte>>, last: seq<Byte>)
    requires PrefixLine(q) == PrefixLine(p) && q.code == p.code && p.last == q.last == NoLast
    requires Middles(p.middles) == Middles(init) + [SPACE] + last
    requires Middles(q.middles) == Middles(init) + [SPACE] + (last + [b])
    ensures Written(q) == Written(p) + [b]
  {
    assert Params(q) == Params(p) + [b];
  }

  /** The last parameter begins: behind a colon, or, as the fifteenth, without one. */
  lemma LastStarts(p: Parts, n: nat, b: Byte)
    requires Body(p, n) && Next(Gap(n), b) == Trailing
    ensures Read(Trailing, Written(p) + [SPACE] + [b])
  {
    var q := p.(last := if b == COLON then Colon([]) else Bare([b]));
    assert LastText(q.last, n);
    assert Trails(q) && PrefixLine(q) == PrefixLine(p);
    assert Params(p) == Middles(p.middles);
    assert LastLine(q.last) == [SPACE] + [b];
    assert Written(q) == Written(p) + [SPACE] + [b];
  }

  lemma TrailingMore(p: Parts, b: Byte)
    requires Trails(p) && (Plain(b) || b == COLON || b == SPACE)
    ensures Read(Trailing, Written(p) + [b])
  {
    var q := p.(last := if p.last.Colon? then Colon(p.last.text + [b]) else Bare(p.last.text + [b]));
    assert LastText(q.last, |q.middles|);
    assert PrefixLine(q) == PrefixLine(p);
    assert LastLine(q.last) == LastLine(p.last) + [b];
    assert Params(q) == Params(p) + [b];
    assert Trails(q) && Written(q) == Written(p) + [b];
  }

  // ----- the end of the line

  /** An empty fifteenth parameter. */
  lemma GapEnds(p: Parts)
    requires Body(p, 14)
    ensures Read(AfterCr, Written(p) + [SPACE] + [CR])
  {
    var q := p.(last := Bare([]));
    assert LastText(q.last, 14);
    assert PrefixLine(q) == PrefixLine(p);
    assert Params(q) == Params(p) + [SPACE];
    assert Good(q) && Written(q) == Written(p) + [SPACE];
  }

  lemma LineIs(p: Parts)
    ensures Written(p) + [CR] + [LF] == Line(p)
  {}

  /** Behind a code. */
  lemma CodeKept(s: State, text: seq<Byte>, b: Byte)
    requires (s == Letters || s.Digits?) && Read(s, text) && Next(s, b) != Error
    ensures Read(Next(s, b), text + [b])
  {
    if s == Letters && Alpha(b) {
      LettersMore(text, b);
    } else if s.Digits? && s.n != 3 {
      DigitsMore(s.n, text, b);
    } else {
      var p := CodeRead(s, text);
      BodyIsGood(p, 0);
    }
  }

  /** Among the parameters. */
  lemma ParamsKept(s: State, text: seq<Byte>, b: Byte)
    requires (s.Gap? || s.Middle? || s == Trailing) && Read(s, text) && Next(s, b) != Error
    ensures Read(Next(s, b), text + [b])
  {
    hide Written, Body, Good, Trails;
    if s == Trailing {
      var p :| Trails(p) && text == Written(p);
      TrailsIsGood(p);
      if b != CR {
        TrailingMore(p, b);
      }
    } else if s.Gap? {
      var p :| Body(p, s.n) && text == Written(p) + [SPACE];
      BodyLimit(p, s.n);
      if Next(s, b) == Trailing {
        LastStarts(p, s.n, b);
      } else if b == CR {
        GapEnds(p);
      } else {
        MiddleStarts(p, s.n, b);
      }
    } else {
      var p :| Body(p, s.n) && text == Written(p);
      BodyIsGood(p, s.n);
      if Plain(b) || b == COLON {
        MiddleMore(p, s.n, b);
      }
    }
  }

  lemma TrailsIsGood(p: Parts)
    requires Trails(p)
    ensures Good(p)
  {}

  lemma BodyLimit(p: Parts, n: nat)
    requires Body(p, n)
    ensures n <= 14
  {}

  lemma ReadKept(s: State, text: seq<Byte>, b: Byte)
    requires Read(s, text) && Next(s, b) != Error
    ensures Read(Next(s, b), text + [b])
  {
    match s
    case Start =>
      if b != COLON {
        CodeStarts(Parts(NoPrefix, [], [], NoLast), b);
        assert PrefixLine(Parts(NoPrefix, [], [], NoLast)) + [b] == text + [b];
      }
    case AfterColon => ColonReads(b);
    case InPrefix(_, _) => PrefixReads(s, text, b);
    case AfterPrefix =>
      var p: Parts :| PrefixText(p.prefix) && text == PrefixLine(p);
      CodeStarts(p, b);
    case Letters => CodeKept(s, text, b);
    case Digits(_) => CodeKept(s, text, b);
    case Gap(_) => ParamsKept(s, text, b);
    case Middle(_) => ParamsKept(s, text, b);
    case Trailing => ParamsKept(s, text, b);
    case AfterCr =>
      var p :| Good(p) && text == Written(p) + [CR];
      LineIs(p);
  }

  lemma {:induction false} StepsRead(c: Step, text: seq<Byte>, t: seq<Byte>)
    requires Read(c.state, text)
    ensures Read(Steps(c, t).state, text + t)
    decreases |t|
  {
    hide Read;
    if t == [] {
      NoMore(text);
    } else {
      if Next(c.state, t[0]) == Error {
        StepsEnded(After(c, t[0]), t[1..]);
        ErrorReads(text + t);
      } else {
        ReadKept(c.state, text, t[0]);
        StepsRead(After(c, t[0]), text + [t[0]], t[1..]);
        OneMore(text, t);
      }
    }
  }

  lemma ErrorReads(text: seq<Byte>)
    ensures Read(Error, text)
  {}

  /** The bytes of a call that completes a message, read on their own, end the message. */
  lemma {:induction false} ScanIsSteps(c: Step, src: seq<Byte>)
    requires Scan(c.state, c.msg, src).done
    ensures var r := Scan(c.state, c.msg, src); Steps(c, src[..r.used]).state == Done
    decreases |src|
  {
    var r := Scan(c.state, c.msg, src);
    var d := After(c, src[0]);
    assert src[..r.used][0] == src[0];
    if d.state == Done {
      assert src[..r.used][1..] == [];
    } else {
      ScanIsSteps(d, src[1..]);
      assert src[..r.used][1..] == src[1..][..r.used - 1];
    }
  }

  lemma DoneIsLine(m: Msg, src: seq<Byte>) returns (p: Parts)
    requires Scan(Start, m, src).done
    ensures Good(p) && Line(p) == src[..Scan(Start, m, src).used]
  {
    hide Scan, Steps, Good, Line;
    var used := src[..Scan(Start, m, src).used];
    ScanIsSteps(Step(Start, m), src);
    StepsRead(Step(Start, m), [], used);
    assert [] + used == used;
    p :| Good(p) && used == Line(p);
  }

  lemma LineIsDone(p: Parts, m: Msg, src: seq<Byte>)
    requires Good(p) && Line(p) <= src
    ensures Scan(Start, m, src).done
  {
    hide Scan, Good, Line, Found;
    LineReads(p, m, src[|Line(p)|..]);
    assert Line(p) + src[|Line(p)|..] == src;
  }

  /** A call that begins between messages completes one if and only if its bytes begin with a
      line of the grammar; and that line is what it uses. */
  lemma AcceptsExactlyLines(m: Msg, src: seq<Byte>)
    ensures Scan(Start, m, src).done <==> exists p :: Good(p) && Line(p) <= src
    ensures Scan(Start, m, src).done ==> exists p :: Good(p) && Line(p) == src[..Scan(Start, m, src).used]
  {
    hide Scan, Good, Line;
    if Scan(Start, m, src).done {
      var p := DoneIsLine(m, src);
      assert Line(p) <= src;
    }
    forall p | Good(p) && Line(p) <= src
      ensures Scan(Start, m, src).done
    {
      LineIsDone(p, m, src);
    }
  }
}
