/** The pieces of a prefix: what the slices of a message say about its prefix text. */
module IrcPrefix {
  import opened Fifo
  import opened IrcGrammar
  import opened IrcMessage
  import opened IrcStream
  import opened IrcHosts

  function Piece(s: Slice, text: seq<Byte>): seq<Byte> {
    if s.off + s.len <= |text| then text[s.off..s.off + s.len] else []
  }

  /** nick, nick@host or nick!user@host, as far as it goes. */
  function Whole(nick: seq<Byte>, user: seq<Byte>, host: seq<Byte>): seq<Byte> {
    nick + (if user == [] then [] else [BANG] + user) + (if host == [] then [] else [AT] + host)
  }

  predicate NoMarks(t: seq<Byte>) { BANG !in t && AT !in t }

  /** The slices of the message are where these pieces stand in the whole. */
  predicate Sliced(m: Msg, nick: seq<Byte>, user: seq<Byte>, host: seq<Byte>) {
    && nick != [] && NoMarks(nick) && AT !in user && BANG !in host
    && m.nick == Slice(0, |nick|)
    && m.user.len == |user| && (user != [] ==> m.user.off == |nick| + 1)
    && m.host.len == |host| && (host != [] ==> m.host.off == |Whole(nick, user, [])| + 1)
  }

  /** The mask has read these pieces, and the mark behind them. */
  predicate Spells(mask: Mask, text: seq<Byte>, nick: seq<Byte>, user: seq<Byte>, host: seq<Byte>) {
    match mask
    case NoMask => false
    case MaskStart => false
    case Nick(n) => user == host == [] && text == nick && |nick| == n
    case AfterBang => user == host == [] && text == nick + [BANG]
    case User => user != [] && host == [] && text == Whole(nick, user, [])
    case AfterAt => host == [] && text == Whole(nick, user, []) + [AT]
    case InHost(_) => host != [] && text == Whole(nick, user, host)
  }

  ghost predicate MaskTiles(mask: Mask, m: Msg) {
    mask != NoMask ==>
        exists nick, user, host :: Sliced(m, nick, user, host) && Spells(mask, m.prefix, nick, user, host)
  }

  /** While a server name is read, it is the whole prefix. */
  predicate ServerTiles(server: Name, m: Msg) {
    server != NoName ==> m.server == Slice(0, |m.prefix|) && NoMarks(m.prefix)
  }

  /** What the flags of a message promise about its prefix. One of them is set whenever a prefix
      was read, and then each says whether the prefix is of its kind. */
  ghost predicate Tiled(m: Msg) {
    && (m.isServer || m.isHostmask ==>
         && (m.isServer <==> NameEnds(NameRun(NameStart, m.prefix)))
         && (m.isHostmask <==> MaskEnds(MaskRun(MaskStart, m.prefix))))
    && (m.isServer ==> m.server == Slice(0, |m.prefix|) && m.prefix != [] && NoMarks(m.prefix))
    && (m.isHostmask ==>
         exists nick, user, host :: Sliced(m, nick, user, host) && m.prefix == Whole(nick, user, host)
             && (user != [] ==> host != []))
  }

  /** What holds of the message when the machine is in state s. */
  ghost predicate Reading(s: State, m: Msg) {
    match s
    case Start => true
    case AfterColon => !m.isServer && !m.isHostmask
    case InPrefix(server, mask) =>
      && !m.isServer && !m.isHostmask && m.prefix != [] && mask != MaskStart && server != NameStart
      && server == NameRun(NameStart, m.prefix) && mask == MaskRun(MaskStart, m.prefix)
      && ServerTiles(server, m) && MaskTiles(mask, m)
    case Error => true
    case _ => Tiled(m)
  }

  // ----- one byte

  lemma HostHasNoBang(h: Host)
    ensures !HostAlive(HostNext(h, BANG))
  {}

  /** The mask reads one byte more. */
  lemma MaskKeeps(mask: Mask, b: Byte, m: Msg)
    requires mask != MaskStart && MaskTiles(mask, m)
    ensures var to := MaskNext(mask, b); var m' := ActMask(mask, to, m);
      MaskTiles(to, m'.(prefix := m.prefix + [b]))
  {
    var to := MaskNext(mask, b);
    if to != NoMask {
      var nick, user, host :| Sliced(m, nick, user, host) && Spells(mask, m.prefix, nick, user, host);
      var m' := ActMask(mask, to, m).(prefix := m.prefix + [b]);
      match to
      case Nick(n) => assert Sliced(m', nick + [b], [], []) && Spells(to, m'.prefix, nick + [b], [], []);
      case AfterBang => assert Sliced(m', nick, [], []) && Spells(to, m'.prefix, nick, [], []);
      case User => UserKeeps(mask, b, m, nick, user);
      case AfterAt => assert Sliced(m', nick, user, []) && Spells(to, m'.prefix, nick, user, []);
      case InHost(_) => HostKeeps(mask, b, m, nick, user, host);
    }
  }

  lemma UserKeeps(mask: Mask, b: Byte, m: Msg, nick: seq<Byte>, user: seq<Byte>)
    requires Sliced(m, nick, user, []) && Spells(mask, m.prefix, nick, user, []) && MaskNext(mask, b) == User
    ensures MaskTiles(User, ActMask(mask, User, m).(prefix := m.prefix + [b]))
  {
    var m' := ActMask(mask, User, m).(prefix := m.prefix + [b]);
    assert m'.prefix == Whole(nick, user + [b], []);
    assert Sliced(m', nick, user + [b], []);
  }

  lemma HostKeeps(mask: Mask, b: Byte, m: Msg, nick: seq<Byte>, user: seq<Byte>, host: seq<Byte>)
    requires Sliced(m, nick, user, host) && Spells(mask, m.prefix, nick, user, host) && MaskNext(mask, b).InHost?
    ensures MaskTiles(MaskNext(mask, b), ActMask(mask, MaskNext(mask, b), m).(prefix := m.prefix + [b]))
  {
    var to := MaskNext(mask, b);
    HostHasNoBang(if mask.InHost? then mask.host else HOST_START);
    var m' := ActMask(mask, to, m).(prefix := m.prefix + [b]);
    assert m'.prefix == Whole(nick, user, host + [b]);
    assert Sliced(m', nick, user, host + [b]) && Spells(to, m'.prefix, nick, user, host + [b]);
  }

  /** The first byte of a prefix. */
  lemma PrefixStarts(b: Byte, m: Msg)
    requires !m.isServer && !m.isHostmask && Next(AfterColon, b) != Error
    ensures Reading(Next(AfterColon, b), Act(AfterColon, b, m))
  {
    var next, m' := Next(AfterColon, b), Act(AfterColon, b, m);
    if next.mask != NoMask {
      assert Sliced(m', [b], [], []) && Spells(next.mask, m'.prefix, [b], [], []);
    }
  }

  lemma PrefixGoesOn(s: State, b: Byte, m: Msg)
    requires s.InPrefix? && Reading(s, m) && b != SPACE && Next(s, b) != Error
    ensures Reading(Next(s, b), Act(s, b, m))
  {
    hide NameRun, MaskRun, NameEnds, MaskEnds, HostNext, HostAlive, MaskTiles;
    NameRunMore(NameStart, m.prefix, b);
    MaskRunMore(MaskStart, m.prefix, b);
    PrefixSame(s.mask, m, ActServer(s.server, NameNext(s.server, b), m));
    MaskKeeps(s.mask, b, ActServer(s.server, NameNext(s.server, b), m));
  }

  /** The server's slice does not matter to the mask's. */
  lemma PrefixSame(mask: Mask, m: Msg, m': Msg)
    requires MaskTiles(mask, m) && m' == m.(server := m'.server)
    ensures MaskTiles(mask, m')
  {
    if mask != NoMask {
      var nick, user, host :| Sliced(m, nick, user, host) && Spells(mask, m.prefix, nick, user, host);
      assert Sliced(m', nick, user, host) && Spells(mask, m'.prefix, nick, user, host);
    }
  }

  lemma PrefixEnds(s: State, b: Byte, m: Msg)
    requires s.InPrefix? && Reading(s, m) && b == SPACE && Next(s, b) != Error
    ensures Tiled(Act(s, b, m))
  {
    var m' := Act(s, b, m);
    if MaskEnds(s.mask) {
      var nick, user, host :| Sliced(m, nick, user, host) && Spells(s.mask, m.prefix, nick, user, host);
      assert Sliced(m', nick, user, host) && m'.prefix == Whole(nick, user, host);
    }
  }

  /** Behind the prefix, nothing touches it. */
  lemma PrefixStays(s: State, b: Byte, m: Msg)
    requires Next(s, b) != Error && !s.AfterColon? && !s.InPrefix? && Reading(s, m) && (s == Start ==> b != COLON)
    ensures Tiled(Act(s, b, m))
  {
    hide NameRun, MaskRun, NameEnds, MaskEnds, Whole;
    var m' := Act(s, b, m);
    if m'.isHostmask {
      var nick, user, host :|
          Sliced(m, nick, user, host) && m.prefix == Whole(nick, user, host) && (user != [] ==> host != []);
      assert Sliced(m', nick, user, host);
    }
  }

  lemma ReadingKept(s: State, b: Byte, m: Msg)
    requires Next(s, b) != Error && Reading(s, m)
    ensures Reading(Next(s, b), Act(s, b, m))
  {
    if s == AfterColon {
      PrefixStarts(b, m);
    } else if s.InPrefix? {
      if b == SPACE {
        PrefixEnds(s, b, m);
      } else {
        PrefixGoesOn(s, b, m);
      }
    } else if s != Start || b != COLON {
      PrefixStays(s, b, m);
    }
  }

  // ----- whole messages and streams

  /** Every message that is delivered, by any sequence of calls over any bytes, has flags and
      slices that tell the truth about its prefix. */
  lemma {:induction false} DeliveredAreTiled(c: Conf, s: seq<Byte>)
    requires Reading(c.state, c.msg) && forall m :: m in c.out ==> Tiled(m)
    ensures forall m :: m in Fold(c, s).out ==> Tiled(m)
    decreases |s|
  {
    if s != [] {
      if Next(c.state, s[0]) != Error {
        ReadingKept(c.state, s[0], c.msg);
      }
      DeliveredAreTiled(Feed(c, s[0]), s[1..]);
    }
  }

  lemma WholePieces(m: Msg, nick: seq<Byte>, user: seq<Byte>, host: seq<Byte>)
    requires Sliced(m, nick, user, host) && m.prefix == Whole(nick, user, host)
    ensures Piece(m.nick, m.prefix) == nick && Piece(m.user, m.prefix) == user && Piece(m.host, m.prefix) == host
  {}

  /** Without an exclamation mark in it, a prefix has no user; a server name has neither mark. */
  lemma BangMeansUser(nick: seq<Byte>, user: seq<Byte>, host: seq<Byte>)
    requires NoMarks(nick) && BANG !in host
    ensures BANG in Whole(nick, user, host) <==> user != []
  {
    if user != [] {
      assert Whole(nick, user, host)[|nick|] == BANG;
    }
  }

  lemma FullWhole(nick: seq<Byte>, user: seq<Byte>, host: seq<Byte>)
    requires user != [] && host != []
    ensures Whole(nick, user, host) == nick + [BANG] + user + [AT] + host
  {}

  /** A message with a prefix that has an exclamation mark is a hostmask and no server name,
      and its prefix is nick!user@host. */
  lemma BangPrefix(m: Msg)
    requires Tiled(m) && (m.isServer || m.isHostmask) && BANG in m.prefix
    ensures m.isHostmask && !m.isServer
    ensures m.prefix == Piece(m.nick, m.prefix) + [BANG] + Piece(m.user, m.prefix) + [AT] + Piece(m.host, m.prefix)
    ensures Piece(m.nick, m.prefix) != [] && Piece(m.user, m.prefix) != [] && Piece(m.host, m.prefix) != []
  {
    var nick: seq<Byte>, user: seq<Byte>, host: seq<Byte> :|
      Sliced(m, nick, user, host) && m.prefix == Whole(nick, user, host) && (user != [] ==> host != []);
    BangMeansUser(nick, user, host);
    WholePieces(m, nick, user, host);
    hide *;
    FullWhole(nick, user, host);
  }
}
