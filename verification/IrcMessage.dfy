/** What the machine of rp_ircsm.rl writes into a message, byte by byte. */
module IrcMessage {
  import opened Fifo
  import opened IrcGrammar

  /** A piece of the prefix. */
  datatype Slice = Slice(off: nat, len: nat)

  datatype Msg = Msg(prefix: seq<Byte>, server: Slice, nick: Slice, user: Slice, host: Slice,
                     code: seq<Byte>, params: seq<Byte>, isHostmask: bool, isServer: bool)

  function Longer(s: Slice): Slice { s.(len := s.len + 1) }

  /** The mask's part of a prefix byte, before the byte is stored. */
  function ActMask(from: Mask, to: Mask, m: Msg): Msg {
    match to
    case Nick(_) =>
      if from == MaskStart then m.(user := m.user.(len := 0), host := m.host.(len := 0), nick := Slice(|m.prefix|, 1))
      else m.(nick := Longer(m.nick))
    case User => m.(user := if from == AfterBang then Slice(|m.prefix|, 1) else Longer(m.user))
    case InHost(_) => m.(host := if from == AfterAt then Slice(|m.prefix|, 1) else Longer(m.host))
    case _ => m
  }

  function ActServer(from: Name, to: Name, m: Msg): Msg {
    if to == NoName then m
    else m.(server := if from == NameStart then Slice(0, 1) else Longer(m.server))
  }

  function ActParam(b: Byte, m: Msg): Msg {
    if m.params == [] && b == SPACE then m else m.(params := m.params + [b])
  }

  /** All actions of the transition from s on b, in their order. */
  function Act(s: State, b: Byte, m: Msg): Msg {
    match Next(s, b)
    case AfterColon => m.(isHostmask := false, isServer := false)
    case InPrefix(server, mask) =>
      if s == AfterColon then
        var m := ActMask(MaskStart, mask, ActServer(NameStart, server, m.(prefix := [])));
        m.(prefix := m.prefix + [b])
      else if s.InPrefix? then
        var m := ActMask(s.mask, mask, ActServer(s.server, server, m));
        m.(prefix := m.prefix + [b])
      else m
    case AfterPrefix =>
      if s.InPrefix? then
        m.(isServer := m.isServer || NameEnds(s.server), isHostmask := m.isHostmask || MaskEnds(s.mask))
      else m
    case Letters => ActCode(s, b, m)
    case Digits(_) => ActCode(s, b, m)
    case Gap(_) => ActParam(b, if s.Gap? || s.Middle? then m else m.(params := []))
    case Middle(_) => ActParam(b, m)
    case Trailing => ActParam(b, m)
    case _ => m
  }

  function ActCode(s: State, b: Byte, m: Msg): Msg {
    var m := if s == Start then m.(isHostmask := false, isServer := false) else m;
    if s == Start || s == AfterPrefix then m.(code := [b]) else m.(code := m.code + [b])
  }

  /** What one call of rp_ircsm_parse does: the machine's state and the message afterwards, how
      many bytes it used, and whether it completed a message. */
  datatype Scanned = Scanned(state: State, msg: Msg, used: nat, done: bool)

  function Scan(s: State, m: Msg, src: seq<Byte>): (r: Scanned)
    ensures r.used <= |src|
    decreases |src|
  {
    if src == [] || s == Error then Scanned(s, m, 0, false)
    else
      var next := Next(s, src[0]);
      if next == Error then Scanned(Error, m, 0, false)
      else
        var m' := Act(s, src[0], m);
        if next == Done then Scanned(Start, m', 1, true)
        else
          var r := Scan(next, m', src[1..]);
          r.(used := r.used + 1)
  }

  lemma ScanStep(s: State, m: Msg, src: seq<Byte>)
    requires src != [] && s != Error
    ensures Next(s, src[0]) == Error ==> Scan(s, m, src) == Scanned(Error, m, 0, false)
    ensures Next(s, src[0]) == Done ==> Scan(s, m, src) == Scanned(Start, Act(s, src[0], m), 1, true)
    ensures Next(s, src[0]) != Error && Next(s, src[0]) != Done ==>
      var r := Scan(Next(s, src[0]), Act(s, src[0], m), src[1..]); Scan(s, m, src) == r.(used := r.used + 1)
  {}

  lemma ScanStops(s: State, m: Msg, src: seq<Byte>)
    requires src == [] || s == Error
    ensures Scan(s, m, src) == Scanned(s, m, 0, false)
  {}

  /** The message and the state of the machine between calls. */
  class Parser {
    var state: State
    var prefix: seq<Byte>
    var server: Slice
    var nick: Slice
    var user: Slice
    var host: Slice
    var code: seq<Byte>
    var params: seq<Byte>
    var isHostmask: bool
    var isServer: bool

    ghost function View(): Msg
      reads this
    {
      Msg(prefix, server, nick, user, host, code, params, isHostmask, isServer)
    }

    /** rp_ircsm_init and rp_ircsm_msg_init */
    constructor ()
      ensures state == Start
      ensures View() == Msg([], Slice(0, 0), Slice(0, 0), Slice(0, 0), Slice(0, 0), [], [], false, false)
    {
      state := Start;
      prefix, code, params := [], [], [];
      server, nick, user, host := Slice(0, 0), Slice(0, 0), Slice(0, 0), Slice(0, 0);
      isHostmask, isServer := false, false;
    }

    method ExecServer(from: Name, to: Name)
      modifies this`server
      ensures View() == ActServer(from, to, old(View()))
    {
      if to != NoName {
        if from == NameStart {
          server := Slice(0, 0);
        }
        server := server.(len := server.len + 1);
      }
    }

    method ExecMask(from: Mask, to: Mask)
      modifies this`nick, this`user, this`host
      ensures View() == ActMask(from, to, old(View()))
    {
      if to.Nick? {
        if from == MaskStart {
          user := user.(len := 0);
          host := host.(len := 0);
          nick := Slice(|prefix|, 0);
        }
        nick := nick.(len := nick.len + 1);
      } else if to.User? {
        if from == AfterBang {
          user := Slice(|prefix|, 0);
        }
        user := user.(len := user.len + 1);
      } else if to.InHost? {
        if from == AfterAt {
          host := Slice(|prefix|, 0);
        }
        host := host.(len := host.len + 1);
      }
    }

    method ExecPrefix(server': Name, mask: Mask, b: Byte)
      requires state == AfterColon || state.InPrefix?
      requires Next(state, b) == InPrefix(server', mask)
      modifies this`prefix, this`server, this`nick, this`user, this`host
      ensures View() == Act(state, b, old(View()))
    {
      if state == AfterColon {
        prefix := [];
        ExecServer(NameStart, server');
        ExecMask(MaskStart, mask);
      } else {
        ExecServer(state.server, server');
        ExecMask(state.mask, mask);
      }
      prefix := prefix + [b];
    }

    /** The actions of one transition. */
    method Exec(b: Byte)
      requires Next(state, b) != Error
      modifies this`prefix, this`server, this`nick, this`user, this`host, this`code, this`params, this`isHostmask,
        this`isServer
      ensures View() == Act(state, b, old(View()))
    {
      if state == Start {
        isHostmask, isServer := false, false;
      }
      match Next(state, b)
      case InPrefix(server', mask) => ExecPrefix(server', mask, b);
      case AfterPrefix =>
        if NameEnds(state.server) {
          isServer := true;
        }
        if MaskEnds(state.mask) {
          isHostmask := true;
        }
      case Letters => ExecCode(b);
      case Digits(_) => ExecCode(b);
      case Gap(_) =>
        if !state.Gap? && !state.Middle? {
          params := [];
        }
        ExecParam(b);
      case Middle(_) => ExecParam(b);
      case Trailing => ExecParam(b);
      case _ =>
    }

    method ExecCode(b: Byte)
      modifies this`code
      ensures code == (if state == Start || state == AfterPrefix then [] else old(code)) + [b]
    {
      if state == Start || state == AfterPrefix {
        code := [];
      }
      code := code + [b];
    }

    method ExecParam(b: Byte)
      modifies this`params
      ensures View() == ActParam(b, old(View()))
    {
      if !(|params| == 0 && b == SPACE) {
        params := params + [b];
      }
    }

    /** rp_ircsm_parse, of n bytes at p. */
    method Parse(src: array<Byte>, p: nat, n: nat) returns (len: nat, done: bool)
      requires p + n <= src.Length
      modifies this
      ensures Scanned(state, View(), len, done) == Scan(old(state), old(View()), src[p..p + n])
    {
      hide Scan, Act, Next;
      len, done := 0, false;
      ghost var all := src[p..p + n];
      ghost var goal := Scan(state, View(), all);
      assert all[0..] == all;
      while len < n && state != Error
        invariant 0 <= len <= n && !done
        invariant goal == (var r := Scan(state, View(), all[len..]); r.(used := r.used + len))
        decreases n - len, state != Error
      {
        var b := src[p + len];
        assert all[len..][0] == b && all[len..][1..] == all[len + 1..];
        ScanStep(state, View(), all[len..]);
        var next := Next(state, b);
        if next == Error {
          ScanStops(Error, View(), all[len..]);
          state := Error;
        } else {
          Exec(b);
          len := len + 1;
          if next == Done {
            state := Start;
            done := true;
            return;
          }
          state := next;
        }
      }
      ScanStops(state, View(), all[len..]);
    }
  }
}
