/** The senders a prefix may name, and that the machine reads exactly those. */
module IrcSenders {
  import opened Fifo
  import opened IrcGrammar
  import opened IrcMessage
  import opened IrcStream
  import opened IrcPrefix
  import opened IrcHosts

  // ----- what they are

  /** nick, nick@host or nick!user@host. */
  datatype Sender = Sender(nick: seq<Byte>, user: seq<Byte>, host: seq<Byte>)

  predicate NickText(t: seq<Byte>) {
    1 <= |t| <= 16 && NickFirst(t[0]) && forall i :: 0 <= i < |t| ==> NickByte(t[i])
  }

  predicate UserText(t: seq<Byte>) {
    forall i :: 0 <= i < |t| ==> UserByte(t[i])
  }

  ghost predicate SenderText(s: Sender) {
    && NickText(s.nick) && UserText(s.user)
    && (s.host != [] ==> HostText(s.host)) && (s.user != [] ==> s.host != [])
  }

  function SenderLine(s: Sender): seq<Byte> {
    Whole(s.nick, s.user, s.host)
  }

  /** The text names a sender. */
  ghost predicate SendersText(t: seq<Byte>) {
    exists s :: SenderText(s) && t == SenderLine(s)
  }

  lemma NickHasNoMarks(t: seq<Byte>)
    requires NickText(t)
    ensures NoMarks(t)
  {
    assert !NickByte(BANG) && !NickByte(AT);
  }

  lemma MarksInLine(s: Sender)
    requires s.user != [] ==> s.host != []
    ensures s.user != [] || s.host != [] ==> AT in SenderLine(s)
  {
    if s.host != [] {
      assert SenderLine(s)[|SenderLine(s)| - |s.host| - 1] == AT;
    }
  }

  lemma SenderMarks(s: Sender)
    requires SenderText(s)
    ensures s.user != [] || s.host != [] ==> AT in SenderLine(s)
  {
    MarksInLine(s);
  }

  /** A prefix is cut into nick, user and host in one way only. */
  lemma WholeUnique(n: seq<Byte>, u: seq<Byte>, h: seq<Byte>, n': seq<Byte>, u': seq<Byte>, h': seq<Byte>)
    requires NoMarks(n) && NoMarks(n') && AT !in u && AT !in u'
    requires (u != [] ==> h != []) && (u' != [] ==> h' != [])
    requires Whole(n, u, h) == Whole(n', u', h')
    ensures n == n' && u == u' && h == h'
  {
    var w := Whole(n, u, h);
    NickIsFirst(n, u, h);
    NickIsFirst(n', u', h');
    assert |n| == |n'|;
    assert w[..|n|] == n && w[..|n'|] == n';
    if u != [] || u' != [] {
      assert w[|n|] == BANG;
      UserIsNext(n, u, h);
      UserIsNext(n', u', h');
      assert |u| == |u'|;
      assert w[|n| + 1..][..|u|] == u && w[|n| + 1..][..|u'|] == u';
      assert w[|n| + 1 + |u| + 1..] == h && w[|n| + 1 + |u'| + 1..] == h';
    } else if h != [] || h' != [] {
      assert w[|n| + 1..] == h && w[|n'| + 1..] == h';
    }
  }

  lemma NickIsFirst(n: seq<Byte>, u: seq<Byte>, h: seq<Byte>)
    requires NoMarks(n)
    ensures var w := Whole(n, u, h);
      && |n| <= |w|
      && (forall i :: 0 <= i < |n| ==> w[i] != BANG && w[i] != AT)
      && (|n| < |w| ==> w[|n|] == if u != [] then BANG else AT)
  {
    assert forall i :: 0 <= i < |n| ==> n[i] in n;
  }

  lemma UserIsNext(n: seq<Byte>, u: seq<Byte>, h: seq<Byte>)
    requires AT !in u && u != [] && h != []
    ensures var r := Whole(n, u, h)[|n| + 1..];
      |u| < |r| && r[|u|] == AT && forall i :: 0 <= i < |u| ==> r[i] != AT
  {
    var r := Whole(n, u, h)[|n| + 1..];
    assert r == u + [AT] + h;
    assert forall i :: 0 <= i < |u| ==> u[i] in u;
  }

  // ----- what has been read in each state of the mask

  /** The text is the pieces the mask has read, and the mark behind them. */
  predicate MaskRead(mask: Mask, t: seq<Byte>, s: Sender) {
    NickText(s.nick) && UserText(s.user) &&
    match mask
    case Nick(n) => s.user == s.host == [] && t == s.nick && n == |t|
    case AfterBang => s.user == s.host == [] && t == s.nick + [BANG]
    case User => s.user != [] && s.host == [] && t == Whole(s.nick, s.user, [])
    case AfterAt => s.host == [] && t == Whole(s.nick, s.user, []) + [AT]
    case InHost(h) => s.host != [] && h == HostRun(HOST_START, s.host) && t == Whole(s.nick, s.user, s.host)
    case _ => false
  }

  ghost predicate SenderRead(mask: Mask, t: seq<Byte>) {
    mask != NoMask ==> exists s :: MaskRead(mask, t, s)
  }

  lemma SenderReadMore(mask: Mask, t: seq<Byte>, b: Byte)
    requires mask != MaskStart && SenderRead(mask, t)
    ensures SenderRead(MaskNext(mask, b), t + [b])
  {
    var to := MaskNext(mask, b);
    if to != NoMask {
      var s :| MaskRead(mask, t, s);
      match to
      case Nick(n) => assert MaskRead(to, t + [b], s.(nick := s.nick + [b]));
      case AfterBang => assert MaskRead(to, t + [b], s);
      case User => UserReadMore(mask, t, b, s);
      case AfterAt => assert MaskRead(to, t + [b], s);
      case InHost(_) => HostReadMore(mask, t, b, s);
    }
  }

  lemma UserReadMore(mask: Mask, t: seq<Byte>, b: Byte, s: Sender)
    requires MaskRead(mask, t, s) && MaskNext(mask, b) == User
    ensures SenderRead(User, t + [b])
  {
    var r := s.(user := s.user + [b]);
    assert t + [b] == Whole(r.nick, r.user, []);
    assert MaskRead(User, t + [b], r);
  }

  lemma HostReadMore(mask: Mask, t: seq<Byte>, b: Byte, s: Sender)
    requires MaskRead(mask, t, s) && MaskNext(mask, b).InHost?
    ensures SenderRead(MaskNext(mask, b), t + [b])
  {
    var r := s.(host := s.host + [b]);
    HostRunMore(HOST_START, s.host, b);
    assert t + [b] == Whole(r.nick, r.user, r.host);
    assert MaskRead(MaskNext(mask, b), t + [b], r);
  }

  lemma {:induction false} MaskRunReads(t: seq<Byte>)
    requires t != []
    ensures SenderRead(MaskRun(MaskStart, t), t)
    decreases |t|
  {
    var init, b := t[..|t| - 1], t[|t| - 1];
    assert t == init + [b];
    MaskRunMore(MaskStart, init, b);
    if init == [] {
      var mask := MaskNext(MaskStart, b);
      if mask != NoMask {
        assert MaskRead(mask, [b], Sender([b], [], []));
      }
    } else {
      MaskRunReads(init);
      SenderReadMore(MaskRun(MaskStart, init), init, b);
    }
  }

  // ----- and how a sender is read

  lemma MaskRunFirst(mask: Mask, b: Byte, t: seq<Byte>)
    ensures MaskRun(mask, [b] + t) == MaskRun(MaskNext(mask, b), t)
  {
    assert ([b] + t)[1..] == t;
  }

  lemma {:induction false} HostInMask(h: Host, t: seq<Byte>)
    requires HostEnds(HostRun(h, t))
    ensures MaskRun(InHost(h), t) == InHost(HostRun(h, t))
    decreases |t|
  {
    if t != [] {
      HostGoesOn(h, t);
      HostInMask(HostNext(h, t[0]), t[1..]);
    }
  }

  lemma {:induction false} DeadHostStays(h: Host, t: seq<Byte>)
    requires !HostAlive(h)
    ensures !HostEnds(HostRun(h, t))
    decreases |t|
  {
    if t != [] {
      DeadHostStays(HostNext(h, t[0]), t[1..]);
    }
  }

  lemma HostGoesOn(h: Host, t: seq<Byte>)
    requires t != [] && HostEnds(HostRun(h, t))
    ensures HostAlive(HostNext(h, t[0])) && t[0] != SPACE
  {
    if !HostAlive(HostNext(h, t[0])) {
      DeadHostStays(HostNext(h, t[0]), t[1..]);
    }
  }

  lemma {:induction false} MaskRunAppend(mask: Mask, a: seq<Byte>, b: seq<Byte>)
    ensures MaskRun(mask, a + b) == MaskRun(MaskRun(mask, a), b)
    decreases |a|
  {
    if a == [] {
      assert a + b == b;
    } else {
      assert (a + b)[0] == a[0] && (a + b)[1..] == a[1..] + b;
      MaskRunAppend(MaskNext(mask, a[0]), a[1..], b);
    }
  }

  lemma {:induction false} NickRuns(n: nat, t: seq<Byte>)
    requires n + |t| <= 16 && forall i :: 0 <= i < |t| ==> NickByte(t[i])
    ensures MaskRun(Nick(n), t) == Nick(n + |t|)
    decreases |t|
  {
    if t != [] {
      NickRuns(n + 1, t[1..]);
    }
  }

  lemma {:induction false} UserRuns(t: seq<Byte>)
    requires UserText(t)
    ensures MaskRun(User, t) == User
    decreases |t|
  {
    if t != [] {
      UserRuns(t[1..]);
    }
  }

  lemma UserPart(n: nat, user: seq<Byte>)
    requires UserText(user) && user != []
    ensures MaskRun(Nick(n), [BANG] + user) == User
  {
    MaskRunFirst(Nick(n), BANG, user);
    UserRuns(user[1..]);
  }

  lemma HostPart(mask: Mask, host: seq<Byte>)
    requires (mask.Nick? || mask == User) && HostText(host)
    ensures MaskEnds(MaskRun(mask, [AT] + host))
  {
    HostsAreRead(host);
    HostNotEmpty(host);
    MaskRunFirst(mask, AT, host);
    HostGoesOn(HOST_START, host);
    HostInMask(HostNext(HOST_START, host[0]), host[1..]);
  }

  lemma HostNotEmpty(host: seq<Byte>)
    requires HostEnds(HostRun(HOST_START, host))
    ensures host != []
  {}

  lemma SenderRuns(s: Sender)
    requires SenderText(s)
    ensures MaskEnds(MaskRun(MaskStart, SenderLine(s)))
  {
    hide HostText, HostEnds, HostRun;
    var mask, t := Nick(|s.nick|), s.nick;
    NickRuns(1, s.nick[1..]);
    assert MaskRun(MaskStart, t) == mask;
    if s.user != [] {
      UserPart(|s.nick|, s.user);
      MaskRunAppend(MaskStart, t, [BANG] + s.user);
      mask, t := User, t + ([BANG] + s.user);
    }
    if s.host != [] {
      HostPart(mask, s.host);
      MaskRunAppend(MaskStart, t, [AT] + s.host);
      t := t + ([AT] + s.host);
    }
    assert SenderLine(s) == t;
  }

  /** The machine reads exactly the senders. */
  lemma SendersAreRead(t: seq<Byte>)
    ensures MaskEnds(MaskRun(MaskStart, t)) <==> SendersText(t)
  {
    hide HostText, HostEnds, HostRun;
    if MaskEnds(MaskRun(MaskStart, t)) {
      MaskRunReads(t);
      var s :| MaskRead(MaskRun(MaskStart, t), t, s);
      HostsAreRead(s.host);
      assert SenderText(s) && t == SenderLine(s);
    }
    forall s | SenderText(s) && t == SenderLine(s)
      ensures MaskEnds(MaskRun(MaskStart, t))
    {
      SenderRuns(s);
    }
  }

  /** Both flags of a message that read a prefix say whether the prefix is of their kind. */
  ghost predicate FlagsTrue(m: Msg) {
    m.isServer || m.isHostmask ==> (m.isServer <==> NameText(m.prefix)) && (m.isHostmask <==> SendersText(m.prefix))
  }

  /** So it is with every message that is delivered, by any sequence of calls over any bytes. */
  lemma FlagsTellTruth(c: Conf, s: seq<Byte>)
    requires Reading(c.state, c.msg) && forall m :: m in c.out ==> Tiled(m)
    ensures forall m :: m in Fold(c, s).out ==> FlagsTrue(m)
  {
    hide Reading, NameText, SendersText, Fold;
    DeliveredAreTiled(c, s);
    forall m | m in Fold(c, s).out
      ensures FlagsTrue(m)
    {
      NamesAreRead(m.prefix);
      SendersAreRead(m.prefix);
    }
  }
}
