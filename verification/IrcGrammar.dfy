/** The message grammar of rp_ircsm.rl as a deterministic machine over bytes. Alternatives that
    the grammar leaves open at once are followed side by side. */
module IrcGrammar {
  import opened Fifo

  const NUL := 0
  const LF := 10
  const CR := 13
  const SPACE := 32
  const BANG := 33
  const COLON := 58
  const AT := 64

  predicate Digit(b: Byte) { 48 <= b <= 57 }

  predicate Alpha(b: Byte) { 65 <= b <= 90 || 97 <= b <= 122 }

  predicate Alnum(b: Byte) { Digit(b) || Alpha(b) }

  predicate Hex(b: Byte) { Digit(b) || 65 <= b <= 70 || 97 <= b <= 102 }

  /** [ \ ] ^ _ ` { | } + */
  predicate Special(b: Byte) { 91 <= b <= 96 || 123 <= b <= 125 || b == 43 }

  predicate Plain(b: Byte) { b != NUL && b != SPACE && b != CR && b != LF && b != COLON }

  predicate UserByte(b: Byte) { b != NUL && b != LF && b != CR && b != SPACE && b != AT }

  predicate NickFirst(b: Byte) { Alpha(b) || Special(b) }

  predicate NickByte(b: Byte) { Alnum(b) || Special(b) || b == 45 }

  // ----- host names and addresses

  /** A host name: labels, each a star or letters, digits and dashes, separated by dots and
      slashes; a separator may end it only after a single label. */
  datatype Name = NoName | NameStart | Label(first: bool) | Star(first: bool) | Separator(first: bool)

  function NameNext(s: Name, b: Byte): Name {
    match s
    case NoName => NoName
    case NameStart => LabelStart(true, b)
    case Label(first) => if Alnum(b) || b == 45 then s else if b == 46 || b == 47 then Separator(first) else NoName
    case Star(first) => if b == 46 || b == 47 then Separator(first) else NoName
    case Separator(_) => LabelStart(false, b)
  }

  function LabelStart(first: bool, b: Byte): Name {
    if Alnum(b) then Label(first) else if b == 42 then Star(first) else NoName
  }

  predicate NameEnds(s: Name) {
    s.Label? || s.Star? || (s.Separator? && s.first)
  }

  /** Eight groups of hexadecimal digits. */
  datatype Groups = NoGroups | Groups(group: nat, digits: bool)

  function GroupsNext(s: Groups, b: Byte): Groups {
    match s
    case NoGroups => NoGroups
    case Groups(group, digits) =>
      if Hex(b) then Groups(group, true)
      else if b == COLON && digits && group < 8 then Groups(group + 1, false)
      else NoGroups
  }

  predicate GroupsEnd(s: Groups) {
    s.Groups? && s.group == 8 && s.digits
  }

  /** Five zero groups, a group 0 or ffff, and four decimal numbers. */
  datatype Mapped = NoMapped | Zeros(n: nat) | Tag(n: nat) | Octets(octet: nat, digits: nat)

  function MappedNext(s: Mapped, b: Byte): Mapped {
    match s
    case NoMapped => NoMapped
    case Zeros(n) =>
      if n < 10 then if b == (if n % 2 == 0 then 48 else COLON) then Zeros(n + 1) else NoMapped
      else if b == 48 then Tag(4)
      else if b == 70 || b == 102 then Tag(1)
      else NoMapped
    case Tag(n) =>
      if n < 4 then if b == 70 || b == 102 then Tag(n + 1) else NoMapped
      else if b == COLON then Octets(1, 0) else NoMapped
    case Octets(octet, digits) =>
      if Digit(b) && digits < 3 then Octets(octet, digits + 1)
      else if b == 46 && digits > 0 && octet < 4 then Octets(octet + 1, 0)
      else NoMapped
  }

  predicate MappedEnds(s: Mapped) {
    s.Octets? && s.octet == 4 && s.digits > 0
  }

  /** A host: a name, which a dotted address also is, or one of the two longer addresses. */
  datatype Host = Host(name: Name, groups: Groups, mapped: Mapped)

  const HOST_START := Host(NameStart, Groups(1, false), Zeros(0))

  function HostNext(h: Host, b: Byte): Host {
    Host(NameNext(h.name, b), GroupsNext(h.groups, b), MappedNext(h.mapped, b))
  }

  predicate HostAlive(h: Host) {
    h.name != NoName || h.groups != NoGroups || h.mapped != NoMapped
  }

  predicate HostEnds(h: Host) {
    NameEnds(h.name) || GroupsEnd(h.groups) || MappedEnds(h.mapped)
  }

  // ----- nick!user@host

  /** n is the length of the nickname so far. */
  datatype Mask = NoMask | MaskStart | Nick(n: nat) | AfterBang | User | AfterAt | InHost(host: Host)

  function MaskNext(m: Mask, b: Byte): Mask {
    match m
    case NoMask => NoMask
    case MaskStart => if NickFirst(b) then Nick(1) else NoMask
    case Nick(n) =>
      if NickByte(b) && n < 16 then Nick(n + 1)
      else if b == BANG then AfterBang
      else if b == AT then AfterAt
      else NoMask
    case AfterBang => if UserByte(b) then User else NoMask
    case User => if UserByte(b) then User else if b == AT then AfterAt else NoMask
    case AfterAt => MaskHost(HostNext(HOST_START, b))
    case InHost(h) => MaskHost(HostNext(h, b))
  }

  function MaskHost(h: Host): Mask {
    if HostAlive(h) then InHost(h) else NoMask
  }

  predicate MaskEnds(m: Mask) {
    m.Nick? || (m.InHost? && HostEnds(m.host))
  }

  // ----- messages

  /** Where in a message the machine is. A prefix is read as a server name and as a nick!user@host
      side by side; `n` counts digits of a code, or parameters before the last. */
  datatype State =
    | Start | AfterColon | InPrefix(server: Name, mask: Mask) | AfterPrefix
    | Letters | Digits(n: nat)
    | Gap(n: nat) | Middle(n: nat) | Trailing
    | AfterCr | Done | Error

  function Next(s: State, b: Byte): State {
    match s
    case Start => if b == COLON then AfterColon else CodeStart(b)
    case AfterColon => Prefixed(NameNext(NameStart, b), MaskNext(MaskStart, b))
    case InPrefix(server, mask) =>
      if b == SPACE then if NameEnds(server) || MaskEnds(mask) then AfterPrefix else Error
      else Prefixed(NameNext(server, b), MaskNext(mask, b))
    case AfterPrefix => CodeStart(b)
    case Letters => if Alpha(b) then Letters else CodeEnd(b)
    case Digits(n) => if n == 3 then CodeEnd(b) else if Digit(b) then Digits(n + 1) else Error
    case Gap(n) =>
      if b == COLON then Trailing
      else if n < 14 then if Plain(b) then Middle(n + 1) else Error
      else if Plain(b) || b == SPACE then Trailing
      else if b == CR then AfterCr
      else Error
    case Middle(n) =>
      if Plain(b) || b == COLON then s else if b == SPACE then Gap(n) else if b == CR then AfterCr else Error
    case Trailing =>
      if Plain(b) || b == COLON || b == SPACE then s else if b == CR then AfterCr else Error
    case AfterCr => if b == LF then Done else Error
    case Done => Error
    case Error => Error
  }

  function Prefixed(server: Name, mask: Mask): State {
    if server == NoName && mask == NoMask then Error else InPrefix(server, mask)
  }

  function CodeStart(b: Byte): State {
    if Alpha(b) then Letters else if Digit(b) then Digits(1) else Error
  }

  function CodeEnd(b: Byte): State {
    if b == SPACE then Gap(0) else if b == CR then AfterCr else Error
  }
}
