/**
 * `htif.c` and `atomic.h` as steps of many harts and a host on shared words; each step is one volatile access.
 * `htif_poweroff`, which writes both words without taking the lock and does not return, is not among the steps.
 */
module Htif {
  import opened Options
  import opened WordTypes
  import opened HtifWords

  /** `htif_console_getchar`, `htif_console_putchar` and `htif_syscall`. */
  datatype Call = Getchar | Putchar(ch: Byte) | Syscall(arg: nat)

  /** Where `__check_fromhost` returns to: `getchar`, the loop of `__set_tohost`, the loop of `do_tohost_fromhost`. */
  datatype Return = ToBuf | ToPoll | ToWait

  datatype Pc =
    | Idle
    | Spin
    | Swap
    | SwapStore(res: bool)
    | CheckRead(ret: Return)
    | CheckClear(ret: Return, fh: Message)
    | CheckUse(ret: Return, fh: Message)
    | ReadBuf
    | ClearBuf
    | Poll
    | Send
    | WaitRead
    | WaitClear
    | Unlock
    | Failed

  /** A hart: the call it is in, its position there, and the local `ch` of `htif_console_getchar`. */
  datatype Hart = Hart(call: Call, pc: Pc, ch: int)

  /** Requests the host has taken and not answered yet, and how much of the console's input it has delivered. */
  datatype Host = Host(asked: nat, acks: nat, calls: nat, sent: nat)

  /**
   * The shared words, the harts, the host and its input. `holder` is the hart that took the lock; `issued`, `taken`
   * and `returned` record the commands written to `tohost`, those the host took, and the characters returned.
   */
  datatype State = State(
    atomic: bool, lock: bool, tohost: Option<Message>, fromhost: Option<Message>, buf: int,
    harts: seq<Hart>, host: Host, input: seq<Byte>,
    holder: Option<nat>, issued: seq<Message>, taken: seq<Message>, returned: seq<Byte>)

  datatype Event =
    | Begin(hart: nat, call: Call)
    | Run(hart: nat)
    | Take
    | Answer(kind: Kind)

  datatype Kind = AnswerRead | AnswerWrite | AnswerCall

  function Command(c: Call): Message {
    match c
    case Getchar => Message(1, 0, 0)
    case Putchar(ch) => Message(1, 1, ch)
    case Syscall(arg) => Message(0, 0, arg)
  }

  /** The calls whose command reaches the host: an argument that is neither zero nor longer than 48 bits. */
  predicate Sendable(c: Call) {
    Fits(Command(c))
  }

  function Set(s: State, h: nat, x: Hart): State
    requires h < |s.harts|
  {
    s.(harts := s.harts[h := x])
  }

  function After(ret: Return): Pc {
    match ret
    case ToBuf => ReadBuf
    case ToPoll => Poll
    case ToWait => WaitRead
  }

  function Start(c: Call): Pc {
    if c == Getchar then CheckRead(ToBuf) else Poll
  }

  /** One step of a hart. */
  function HartStep(s: State, h: nat): State
    requires h < |s.harts|
  {
    var x := s.harts[h];
    match x.pc
    case Idle | Failed => s
    case Spin => if s.lock then s else Set(s, h, x.(pc := Swap))
    case Swap =>
      if s.atomic then
        if s.lock then Set(s, h, x.(pc := Spin))
        else Set(s, h, x.(pc := Start(x.call))).(lock := true, holder := Some(h))
      else Set(s, h, x.(pc := SwapStore(s.lock)))
    case SwapStore(res) =>
      if res then Set(s, h, x.(pc := Spin)).(lock := true)
      else Set(s, h, x.(pc := Start(x.call))).(lock := true, holder := Some(h))
    case CheckRead(ret) =>
      if s.fromhost.None? then Set(s, h, x.(pc := After(ret)))
      else Set(s, h, x.(pc := CheckClear(ret, s.fromhost.value)))
    case CheckClear(ret, fh) => Set(s, h, x.(pc := CheckUse(ret, fh))).(fromhost := None)
    case CheckUse(ret, fh) =>
      if fh.dev != 1 || fh.cmd > 1 then Set(s, h, x.(pc := Failed))
      else Set(s, h, x.(pc := After(ret))).(buf := if fh.cmd == 0 then 1 + fh.data % 256 else s.buf)
    case ReadBuf => Set(s, h, x.(ch := s.buf, pc := if s.buf >= 0 then ClearBuf else Unlock))
    case ClearBuf => Set(s, h, x.(pc := Poll)).(buf := -1)
    case Poll => Set(s, h, x.(pc := if s.tohost.Some? then CheckRead(ToPoll) else Send))
    case Send =>
      Set(s, h, x.(pc := if x.call.Syscall? then WaitRead else Unlock))
      .(tohost := Some(Command(x.call)), issued := s.issued + [Command(x.call)])
    case WaitRead =>
      if s.fromhost.None? then s
      else if s.fromhost.value.dev == 0 && s.fromhost.value.cmd == 0 then Set(s, h, x.(pc := WaitClear))
      else Set(s, h, x.(pc := CheckRead(ToWait)))
    case WaitClear => Set(s, h, x.(pc := Unlock)).(fromhost := None)
    case Unlock =>
      Set(s, h, x.(pc := Idle)).(lock := false, holder := None,
        returned := if x.call == Getchar && 1 <= x.ch <= 256 then s.returned + [x.ch - 1] else s.returned)
  }

  /** A step of a hart or the host; an event that is not possible changes nothing. */
  function Step(s: State, e: Event): State {
    match e
    case Begin(h, c) =>
      if h < |s.harts| && s.harts[h].pc == Idle && Sendable(c) then Set(s, h, Hart(c, Spin, 0)) else s
    case Run(h) => if h < |s.harts| then HartStep(s, h) else s
    case Take =>
      if s.tohost.None? then s
      else
        var m := s.tohost.value;
        s.(tohost := None, taken := s.taken + [m],
           host := if m.dev == 0 then s.host.(calls := s.host.calls + 1)
                   else if m.cmd == 0 then s.host.(asked := s.host.asked + 1)
                   else s.host.(acks := s.host.acks + 1))
    case Answer(kind) =>
      if s.fromhost.Some? then s
      else
        match kind
        case AnswerRead =>
          if s.host.asked > 0 && s.host.sent < |s.input| then
            s.(fromhost := Some(Message(1, 0, s.input[s.host.sent])),
               host := s.host.(asked := s.host.asked - 1, sent := s.host.sent + 1))
          else s
        case AnswerWrite =>
          if s.host.acks > 0 then s.(fromhost := Some(Message(1, 1, 0)), host := s.host.(acks := s.host.acks - 1))
          else s
        case AnswerCall =>
          if s.host.calls > 0 then s.(fromhost := Some(Message(0, 0, 1)), host := s.host.(calls := s.host.calls - 1))
          else s
  }

  function Steps(s: State, es: seq<Event>): State {
    if es == [] then s else Step(Steps(s, es[..|es| - 1]), es[|es| - 1])
  }

  ghost predicate Init(s: State) {
    && !s.lock && s.tohost.None? && s.fromhost.None? && s.buf == 0 && s.holder.None?
    && s.host == Host(0, 0, 0, 0) && s.issued == [] && s.taken == [] && s.returned == []
    && forall x :: x in s.harts ==> x.pc == Idle
  }

  /** Between taking and releasing the lock. */
  predicate Critical(pc: Pc) {
    !(pc.Idle? || pc.Spin? || pc.Swap? || pc.SwapStore?)
  }

  function Bit(b: bool): nat {
    if b then 1 else 0
  }

  predicate IsRead(m: Option<Message>) {
    m.Some? && m.value.dev == 1 && m.value.cmd == 0
  }

  predicate IsCall(m: Option<Message>) {
    m.Some? && m.value.dev == 0
  }

  /** The hart has cleared the buffer and not yet sent the next read request. */
  predicate OwesRead(x: Hart) {
    x.call == Getchar && (x.pc.Poll? || x.pc.Send? || (x.pc.CheckRead? && x.pc.ret == ToPoll)
      || (x.pc.CheckClear? && x.pc.ret == ToPoll) || (x.pc.CheckUse? && x.pc.ret == ToPoll))
  }

  predicate HoldsReply(x: Hart) {
    x.pc.CheckUse? && x.pc.fh.cmd == 0
  }

  predicate Waiting(x: Hart) {
    x.call.Syscall? && (x.pc.WaitRead? || x.pc.WaitClear? || (x.pc.CheckRead? && x.pc.ret == ToWait)
      || (x.pc.CheckClear? && x.pc.ret == ToWait) || (x.pc.CheckUse? && x.pc.ret == ToWait))
  }

  /** The position and locals of the hart that holds the lock fit the shared words. */
  predicate HolderOk(s: State, x: Hart) {
    match x.pc
    case CheckRead(ret) =>
      ReturnOk(x.call, ret) && (ret == ToWait ==> s.fromhost.Some? && s.fromhost.value.dev == 1)
    case CheckClear(ret, fh) => ReturnOk(x.call, ret) && s.fromhost == Some(fh) && fh.dev == 1
    case CheckUse(ret, fh) => ReturnOk(x.call, ret) && fh.dev == 1 && fh.cmd <= 1 && 0 <= fh.data < 256
    case ReadBuf => x.call == Getchar
    case ClearBuf => x.call == Getchar && x.ch == s.buf >= 0
    case Send => s.tohost.None?
    case WaitRead => x.call.Syscall?
    case WaitClear => x.call.Syscall? && IsCall(s.fromhost)
    case Failed => false
    case _ => true
  }

  predicate ReturnOk(c: Call, ret: Return) {
    match ret
    case ToBuf => c == Getchar
    case ToPoll => true
    case ToWait => c.Syscall?
  }

  /** The character the holder is about to return. */
  function HeldChar(x: Hart): seq<Byte> {
    if (OwesRead(x) || (x.call == Getchar && x.pc.Unlock?)) && 1 <= x.ch <= 256 then [x.ch - 1] else []
  }

  function BufferedChar(s: State): seq<Byte> {
    if 1 <= s.buf <= 256 then [s.buf - 1] else []
  }

  function RepliedChar(m: Option<Message>): seq<Byte> {
    if IsRead(m) then [m.value.data % 256] else []
  }

  function HeldReply(x: Hart): seq<Byte> {
    if HoldsReply(x) then [x.pc.fh.data % 256] else []
  }

  /** What the shared words say, whoever holds the lock. */
  predicate WordsOk(s: State) {
    && -1 <= s.buf <= 256
    && (s.fromhost.Some? ==> (s.fromhost.value.dev == 1 && s.fromhost.value.cmd <= 1 && s.fromhost.value.data < 256)
                             || (s.fromhost.value.dev == 0 && s.fromhost.value.cmd == 0))
    && (s.tohost.Some? ==> s.tohost.value.dev <= 1)
    && s.issued == s.taken + (if s.tohost.Some? then [s.tohost.value] else [])
    && s.host.sent <= |s.input|
  }

  /** There is exactly one right to read: a character in the buffer, a request on its way, or its answer. */
  function ReadTokens(s: State): nat {
    Bit(s.buf >= 0) + Bit(IsRead(s.tohost)) + s.host.asked + Bit(IsRead(s.fromhost))
  }

  function CallTokens(s: State): nat {
    Bit(IsCall(s.tohost)) + s.host.calls + Bit(IsCall(s.fromhost))
  }

  /** The input that the host has delivered. */
  function Sent(s: State): seq<Byte> {
    if s.host.sent <= |s.input| then s.input[..s.host.sent] else []
  }

  predicate Free(s: State) {
    && ReadTokens(s) == 1 && CallTokens(s) == 0
    && s.returned + BufferedChar(s) + RepliedChar(s.fromhost) == Sent(s)
  }

  predicate Held(s: State, x: Hart) {
    && HolderOk(s, x)
    && ReadTokens(s) + Bit(OwesRead(x)) + Bit(HoldsReply(x)) == 1
    && CallTokens(s) == Bit(Waiting(x))
    && s.returned + HeldChar(x) + BufferedChar(s) + RepliedChar(s.fromhost) + HeldReply(x) == Sent(s)
  }

  predicate Inv(s: State) {
    && s.atomic && WordsOk(s)
    && (s.lock <==> s.holder.Some?)
    && (s.holder.Some? ==> s.holder.value < |s.harts| && Held(s, s.harts[s.holder.value]))
    && (s.holder.None? ==> Free(s))
    && (forall h :: 0 <= h < |s.harts| ==> (Critical(s.harts[h].pc) <==> s.holder == Some(h)))
    && (forall h :: 0 <= h < |s.harts| ==> !s.harts[h].pc.SwapStore?)
  }

  lemma InitInv(s: State)
    requires Init(s) && s.atomic
    ensures Inv(s)
  {
    forall h | 0 <= h < |s.harts|
      ensures !Critical(s.harts[h].pc)
    {
      assert s.harts[h] in s.harts;
    }
  }

  /** A step that leaves the shared words alone and its hart outside the lock. */
  lemma OutsideStep(s: State, h: nat, x: Hart)
    requires Inv(s) && h < |s.harts| && !Critical(s.harts[h].pc) && !Critical(x.pc) && !x.pc.SwapStore?
    ensures Inv(Set(s, h, x))
  {
    hide Critical, Held, Free, WordsOk;
    var s' := Set(s, h, x);
    assert s.holder != Some(h);
    WordsSame(s, s');
  }

  /** The words' predicates do not look at the harts. */
  lemma WordsSame(s: State, s': State)
    requires s' == s.(harts := s'.harts)
    ensures WordsOk(s') == WordsOk(s) && Free(s') == Free(s) && forall x :: Held(s', x) == Held(s, x)
  {
    assert ReadTokens(s') == ReadTokens(s) && CallTokens(s') == CallTokens(s) && Sent(s') == Sent(s);
    assert BufferedChar(s') == BufferedChar(s) && forall x :: HolderOk(s', x) == HolderOk(s, x);
    hide ReadTokens, CallTokens, Sent, BufferedChar, HolderOk, WordsOk, RepliedChar, HeldChar, HeldReply, Bit, OwesRead;
    hide HoldsReply, Waiting;
  }

  /** Taking the free lock. */
  lemma AcquireStep(s: State, h: nat)
    requires Inv(s) && h < |s.harts| && s.harts[h].pc == Swap && !s.lock
    ensures Inv(HartStep(s, h))
  {
  }

  /** What a step of the holder must leave behind. */
  ghost predicate Left(s: State, h: nat) {
    && h < |s.harts| && WordsOk(s)
    && (s.holder == Some(h) ==> Held(s, s.harts[h]))
    && (s.holder.None? ==> Free(s))
  }

  ghost predicate Holding(s: State, h: nat) {
    h < |s.harts| && WordsOk(s) && s.holder == Some(h) && Held(s, s.harts[h])
  }

  /** A step that changes nothing but the hart's position, and nothing that the position stands for. */
  lemma PositionStep(s: State, h: nat, x: Hart)
    requires Holding(s, h) && HolderOk(s, x) && HeldChar(x) == HeldChar(s.harts[h])
      && HeldReply(x) == HeldReply(s.harts[h])
    requires OwesRead(x) == OwesRead(s.harts[h]) && HoldsReply(x) == HoldsReply(s.harts[h])
    requires Waiting(x) == Waiting(s.harts[h])
    ensures Left(Set(s, h, x), h)
  {
    hide HolderOk, HeldChar, HeldReply, OwesRead, HoldsReply, Waiting, WordsOk;
    WordsSame(s, Set(s, h, x));
    assert Held(s, x);
  }

  lemma CheckReadStep(s: State, h: nat)
    requires Holding(s, h) && s.harts[h].pc.CheckRead?
    ensures Left(HartStep(s, h), h)
  {
    if s.fromhost.None? {
      CheckEmpty(s, h);
    } else {
      CheckFull(s, h);
    }
  }

  lemma CheckEmpty(s: State, h: nat)
    requires Holding(s, h) && s.harts[h].pc.CheckRead? && s.fromhost.None?
    ensures Left(HartStep(s, h), h)
  {
    var x, s' := s.harts[h], HartStep(s, h);
    assert s' == Set(s, h, x.(pc := After(x.pc.ret)));
    PositionStep(s, h, s'.harts[h]);
  }

  lemma CheckFull(s: State, h: nat)
    requires Holding(s, h) && s.harts[h].pc.CheckRead? && s.fromhost.Some?
    ensures Left(HartStep(s, h), h)
  {
    var x, s' := s.harts[h], HartStep(s, h);
    assert s' == Set(s, h, x.(pc := CheckClear(x.pc.ret, s.fromhost.value)));
    PositionStep(s, h, s'.harts[h]);
  }

  lemma CheckClearStep(s: State, h: nat)
    requires Holding(s, h) && s.harts[h].pc.CheckClear?
    ensures Left(HartStep(s, h), h)
  {
  }

  lemma CheckUseStep(s: State, h: nat)
    requires Holding(s, h) && s.harts[h].pc.CheckUse?
    ensures Left(HartStep(s, h), h)
  {
    var x, s' := s.harts[h], HartStep(s, h);
    assert WordsOk(s');
    assert HolderOk(s', s'.harts[h]);
    assert ReadTokens(s') + Bit(OwesRead(s'.harts[h])) + Bit(HoldsReply(s'.harts[h])) == 1;
    assert CallTokens(s') == Bit(Waiting(s'.harts[h]));
  }

  lemma ReadBufStep(s: State, h: nat)
    requires Holding(s, h) && s.harts[h].pc.ReadBuf?
    ensures Left(HartStep(s, h), h)
  {
  }

  lemma ClearBufStep(s: State, h: nat)
    requires Holding(s, h) && s.harts[h].pc.ClearBuf?
    ensures Left(HartStep(s, h), h)
  {
  }

  lemma PollStep(s: State, h: nat)
    requires Holding(s, h) && s.harts[h].pc.Poll?
    ensures Left(HartStep(s, h), h)
  {
    var x, s' := s.harts[h], HartStep(s, h);
    assert s' == Set(s, h, s'.harts[h]);
    PositionStep(s, h, s'.harts[h]);
  }

  lemma SendStep(s: State, h: nat)
    requires Holding(s, h) && s.harts[h].pc.Send?
    ensures Left(HartStep(s, h), h)
  {
  }

  lemma WaitReadStep(s: State, h: nat)
    requires Holding(s, h) && s.harts[h].pc.WaitRead?
    ensures Left(HartStep(s, h), h)
  {
    var x, s' := s.harts[h], HartStep(s, h);
    assert s' == Set(s, h, s'.harts[h]);
    PositionStep(s, h, s'.harts[h]);
  }

  lemma WaitClearStep(s: State, h: nat)
    requires Holding(s, h) && s.harts[h].pc.WaitClear?
    ensures Left(HartStep(s, h), h)
  {
  }

  lemma UnlockStep(s: State, h: nat)
    requires Holding(s, h) && s.harts[h].pc.Unlock?
    ensures Left(HartStep(s, h), h)
  {
    var x, s' := s.harts[h], HartStep(s, h);
    assert s'.returned == s.returned + HeldChar(x);
    assert ReadTokens(s') == 1 && CallTokens(s') == 0 && BufferedChar(s') == BufferedChar(s) && Sent(s') == Sent(s);
    hide Sent, BufferedChar, RepliedChar, HeldChar;
  }

  /** A step of the hart that holds the lock. */
  lemma HolderStep(s: State, h: nat)
    requires Inv(s) && s.holder == Some(h)
    ensures Inv(HartStep(s, h))
  {
    HolderPc(s, h);
    HolderWords(s, h);
    HolderAlone(s, h);
    hide Held, Free, WordsOk, HartStep, Critical;
  }

  lemma HolderAlone(s: State, h: nat)
    requires Inv(s) && s.holder == Some(h)
    requires var s' := HartStep(s, h);
      && |s'.harts| == |s.harts| && h < |s.harts| && s'.harts == s.harts[h := s'.harts[h]]
      && (Critical(s'.harts[h].pc) <==> s'.holder == Some(h)) && (s'.holder.None? || s'.holder == Some(h))
    ensures var s' := HartStep(s, h);
      forall k :: 0 <= k < |s'.harts| ==> (Critical(s'.harts[k].pc) <==> s'.holder == Some(k))
  {
    hide Held, Free, WordsOk, HartStep, Critical;
    forall k | 0 <= k < |s.harts| && k != h
      ensures !Critical(s.harts[k].pc)
    {
      assert Critical(s.harts[k].pc) <==> s.holder == Some(k);
    }
  }

  lemma HolderPc(s: State, h: nat)
    requires Inv(s) && s.holder == Some(h)
    ensures var s' := HartStep(s, h);
      && |s'.harts| == |s.harts| && h < |s.harts| && s'.harts == s.harts[h := s'.harts[h]]
      && (Critical(s'.harts[h].pc) <==> s'.holder == Some(h)) && (s'.holder.None? || s'.holder == Some(h))
      && (s'.lock <==> s'.holder.Some?) && s'.atomic && !s'.harts[h].pc.SwapStore?
  {
    hide Free, WordsOk, Sent, ReadTokens, CallTokens, HeldChar, BufferedChar, RepliedChar, HeldReply, Waiting, OwesRead;
    hide HoldsReply, IsRead, IsCall, Command, Bit;
    var x := s.harts[h];
    assert Critical(x.pc) && HolderOk(s, x);
    hide Inv, Held;
    match x.pc
    case CheckRead(_) =>
    case CheckClear(_, _) =>
    case CheckUse(_, _) =>
    case _ =>
  }

  lemma HolderWords(s: State, h: nat)
    requires Inv(s) && s.holder == Some(h)
    ensures Left(HartStep(s, h), h)
  {
    assert Holding(s, h) && Critical(s.harts[h].pc);
    NotFailed(s, h);
    hide Left, Holding, Inv, HartStep;
    match s.harts[h].pc {
      case CheckRead(_) => CheckReadStep(s, h);
      case CheckClear(_, _) => CheckClearStep(s, h);
      case CheckUse(_, _) => CheckUseStep(s, h);
      case ReadBuf => ReadBufStep(s, h);
      case ClearBuf => ClearBufStep(s, h);
      case Poll => PollStep(s, h);
      case Send => SendStep(s, h);
      case WaitRead => WaitReadStep(s, h);
      case WaitClear => WaitClearStep(s, h);
      case Unlock => UnlockStep(s, h);
      case _ =>
    }
  }

  lemma NotFailed(s: State, h: nat)
    requires Holding(s, h)
    ensures s.harts[h].pc != Failed
  {
  }

  /** The host's steps leave the harts alone. */
  lemma HostStep(s: State, e: Event)
    requires WordsOk(s) && (e.Take? || e.Answer?)
    ensures WordsOk(Step(s, e)) && Step(s, e).harts == s.harts && Step(s, e).holder == s.holder
      && Step(s, e).lock == s.lock
    ensures Step(s, e).atomic == s.atomic
  {
    hide Free, Held;
    match e
    case Take =>
    case Answer(kind) =>
  }

  lemma TakeFree(s: State)
    requires WordsOk(s) && Free(s)
    ensures Free(Step(s, Take))
  {
  }

  lemma AnswerFree(s: State, kind: Kind)
    requires WordsOk(s) && Free(s)
    ensures Free(Step(s, Answer(kind)))
  {
    match kind
    case AnswerRead =>
    case AnswerWrite =>
    case AnswerCall =>
  }

  lemma TakeHeld(s: State, x: Hart)
    requires WordsOk(s) && Held(s, x)
    ensures Held(Step(s, Take), x)
  {
  }

  lemma AnswerHeld(s: State, kind: Kind, x: Hart)
    requires WordsOk(s) && Held(s, x)
    ensures Held(Step(s, Answer(kind)), x)
  {
    match kind
    case AnswerRead =>
    case AnswerWrite =>
    case AnswerCall =>
  }

  /** Every step of every hart and of the host keeps the invariant. */
  lemma InvStep(s: State, e: Event)
    requires Inv(s)
    ensures Inv(Step(s, e))
  {
    match e {
      case Begin(h, c) =>
        if h < |s.harts| {
          BeginStep(s, h, c);
        }
      case Run(h) =>
        if h < |s.harts| {
          RunStep(s, h);
        }
      case Take =>
        HostInv(s, e);
      case Answer(_) =>
        HostInv(s, e);
    }
  }

  lemma BeginStep(s: State, h: nat, c: Call)
    requires Inv(s) && h < |s.harts|
    ensures Inv(Step(s, Begin(h, c)))
  {
    hide Inv;
    if s.harts[h].pc == Idle {
      OutsideStep(s, h, Hart(c, Spin, 0));
    }
  }

  lemma RunStep(s: State, h: nat)
    requires Inv(s) && h < |s.harts|
    ensures Inv(HartStep(s, h))
  {
    assert Critical(s.harts[h].pc) <==> s.holder == Some(h);
    assert s.atomic;
    if Critical(s.harts[h].pc) {
      HolderStep(s, h);
    } else if s.harts[h].pc == Swap && !s.lock {
      AcquireStep(s, h);
    } else {
      hide Inv;
      OutsideStep(s, h, HartStep(s, h).harts[h]);
    }
  }

  lemma HostInv(s: State, e: Event)
    requires Inv(s) && (e.Take? || e.Answer?)
    ensures Inv(Step(s, e))
  {
    HostStep(s, e);
    if s.holder.Some? {
      HeldHost(s, e, s.harts[s.holder.value]);
    } else if e.Take? {
      TakeFree(s);
    } else {
      AnswerFree(s, e.kind);
    }
    hide WordsOk, Held, Free, Step, Critical;
  }

  lemma HeldHost(s: State, e: Event, x: Hart)
    requires WordsOk(s) && Held(s, x) && (e.Take? || e.Answer?)
    ensures Held(Step(s, e), x)
  {
    hide Held, WordsOk, Step;
    match e
    case Take => TakeHeld(s, x);
    case Answer(kind) => AnswerHeld(s, kind, x);
  }

  lemma {:induction false} RunInv(s: State, es: seq<Event>)
    requires Init(s) && s.atomic
    ensures Inv(Steps(s, es))
  {
    if es == [] {
      InitInv(s);
    } else {
      RunInv(s, es[..|es| - 1]);
      InvStep(Steps(s, es[..|es| - 1]), es[|es| - 1]);
    }
  }

  lemma {:induction false} InputConstant(s: State, es: seq<Event>)
    ensures Steps(s, es).input == s.input
  {
    if es != [] {
      InputConstant(s, es[..|es| - 1]);
      StepConstant(Steps(s, es[..|es| - 1]), es[|es| - 1]);
    }
  }

  /** Every message on its way, and every one that a hart is about to send, arrives as it was sent. */
  ghost predicate Traffic(s: State) {
    && (s.tohost.Some? ==> Fits(s.tohost.value)) && (s.fromhost.Some? ==> Fits(s.fromhost.value))
    && forall h :: 0 <= h < |s.harts| && s.harts[h].pc != Idle ==> Sendable(s.harts[h].call)
  }

  lemma TrafficStep(s: State, e: Event)
    requires Traffic(s)
    ensures Traffic(Step(s, e))
  {
    hide Sendable, HartStep;
    if e.Run? && e.hart < |s.harts| {
      HartTraffic(s, e.hart);
    }
  }

  lemma HartTraffic(s: State, h: nat)
    requires Traffic(s) && h < |s.harts|
    ensures Traffic(HartStep(s, h))
  {
    hide HartStep, Command, Fits;
    HartWords(s, h);
  }

  /** What a hart's step can do to the words, and that it stays in its call. */
  lemma HartWords(s: State, h: nat)
    requires h < |s.harts|
    ensures var s' := HartStep(s, h); var c := s.harts[h].call;
      && |s'.harts| == |s.harts| && s'.harts == s.harts[h := s'.harts[h]] && s'.harts[h].call == c
      && (s.harts[h].pc == Idle ==> s' == s)
      && (s'.tohost == s.tohost || (s.harts[h].pc == Send && s'.tohost == Some(Command(c))))
      && (s'.fromhost == s.fromhost || s'.fromhost.None?)
  {
    hide Command, After, Start;
    match s.harts[h].pc
    case CheckRead(_) =>
    case CheckClear(_, _) =>
    case CheckUse(_, _) =>
    case WaitRead =>
    case _ =>
  }

  lemma {:induction false} RunTraffic(s: State, es: seq<Event>)
    requires Init(s)
    ensures Traffic(Steps(s, es))
  {
    if es == [] {
      assert forall h :: 0 <= h < |s.harts| ==> s.harts[h] in s.harts;
    } else {
      RunTraffic(s, es[..|es| - 1]);
      TrafficStep(Steps(s, es[..|es| - 1]), es[|es| - 1]);
    }
  }

  /** In every run the two words, as 64 bits, hold just what the model says they hold. */
  lemma WordsCarry(s: State, es: seq<Event>)
    requires Init(s)
    ensures var t := Steps(s, es);
      && (t.tohost.Some? ==> Fits(t.tohost.value)) && (t.fromhost.Some? ==> Fits(t.fromhost.value))
      && Received(Packed(t.tohost)) == t.tohost
      && Received(Packed(t.fromhost)) == t.fromhost
  {
    RunTraffic(s, es);
    var t := Steps(s, es);
    hide Received, Packed;
    Carried(t.tohost);
    Carried(t.fromhost);
  }

  lemma Carried(m: Option<Message>)
    requires m.Some? ==> Fits(m.value)
    ensures Received(Packed(m)) == m
  {
    if m.Some? {
      ArrivesExactly(m.value);
    }
  }

  /**
   * Whatever the interleaving: at most one hart is inside the lock, no assertion fails, no command is overwritten
   * before the host takes it, at most one console read is outstanding, and the characters returned are the first ones
   * of the input, in order, of those delivered at most two not returned yet.
   */
  lemma Safety(s: State, es: seq<Event>)
    requires Init(s) && s.atomic
    ensures var t := Steps(s, es);
      && Exclusive(t)
      && (forall h :: 0 <= h < |t.harts| ==> t.harts[h].pc != Failed)
      && t.issued == t.taken + (if t.tohost.Some? then [t.tohost.value] else [])
      && Bit(IsRead(t.tohost)) + t.host.asked + Bit(IsRead(t.fromhost)) <= 1
      && t.host.sent - 2 <= |t.returned| <= t.host.sent <= |s.input| && t.returned == s.input[..|t.returned|]
  {
    RunInv(s, es);
    InputConstant(s, es);
    var t := Steps(s, es);
    Consequences(t);
  }

  lemma Consequences(t: State)
    requires Inv(t)
    ensures Exclusive(t)
    ensures forall h :: 0 <= h < |t.harts| ==> t.harts[h].pc != Failed
    ensures t.issued == t.taken + (if t.tohost.Some? then [t.tohost.value] else [])
    ensures Bit(IsRead(t.tohost)) + t.host.asked + Bit(IsRead(t.fromhost)) <= 1
    ensures |t.returned| <= t.host.sent <= |t.input| && t.returned == t.input[..|t.returned|]
    ensures t.host.sent - 2 <= |t.returned|
  {
    assert forall h :: 0 <= h < |t.harts| && t.harts[h].pc == Failed ==> Critical(t.harts[h].pc);
    ReturnedPrefix(t);
  }

  lemma ReturnedPrefix(t: State)
    requires Inv(t) && t.host.sent <= |t.input|
    ensures |t.returned| <= t.host.sent <= |t.input| && t.returned == t.input[..|t.returned|]
    ensures t.host.sent - 2 <= |t.returned|
  {
    if t.holder.Some? {
      HeldPrefix(t, t.harts[t.holder.value]);
    } else {
      var rest := BufferedChar(t) + RepliedChar(t.fromhost);
      assert t.returned + rest == t.input[..t.host.sent] && |rest| <= 2;
      Prefix(t.returned, rest, t.input, t.host.sent);
    }
    hide *;
  }

  lemma HeldPrefix(t: State, x: Hart)
    requires Held(t, x) && t.host.sent <= |t.input|
    ensures |t.returned| <= t.host.sent && t.returned == t.input[..|t.returned|] && t.host.sent - 2 <= |t.returned|
  {
    var rest := HeldChar(x) + BufferedChar(t) + RepliedChar(t.fromhost) + HeldReply(x);
    assert t.returned + rest == t.input[..t.host.sent];
    OneReply(t, x);
    hide *;
    Prefix(t.returned, rest, t.input, t.host.sent);
  }

  /** The one right to read is a character or its answer, besides the character that the hart returns. */
  lemma OneReply(t: State, x: Hart)
    requires Held(t, x)
    ensures |HeldChar(x) + BufferedChar(t) + RepliedChar(t.fromhost) + HeldReply(x)| <= 2
  {
    hide HolderOk, Sent, CallTokens;
  }

  lemma Prefix(a: seq<Byte>, b: seq<Byte>, c: seq<Byte>, n: nat)
    requires n <= |c| && a + b == c[..n]
    ensures |a| + |b| == n && a == c[..|a|]
  {
    assert (a + b)[..|a|] == a;
    assert c[..n][..|a|] == c[..|a|];
  }

  ghost predicate Exclusive(s: State) {
    forall h, k :: 0 <= h < |s.harts| && 0 <= k < |s.harts| && Critical(s.harts[h].pc) && Critical(s.harts[k].pc) ==>
      h == k
  }

  /** The lock excludes in every run exactly when the swap is one step, or there is only one hart. */
  lemma ExclusionNeedsSwap(s: State)
    requires Init(s)
    ensures (forall es :: Exclusive(Steps(s, es))) <==> s.atomic || |s.harts| < 2
  {
    if s.atomic {
      forall es
        ensures Exclusive(Steps(s, es))
      {
        Safety(s, es);
      }
    } else if |s.harts| < 2 {
      forall es
        ensures Exclusive(Steps(s, es))
      {
        HartsConstant(s, es);
      }
    } else {
      var es := TornSwap(s);
    }
  }

  lemma {:induction false} HartsConstant(s: State, es: seq<Event>)
    ensures |Steps(s, es).harts| == |s.harts|
  {
    if es != [] {
      HartsConstant(s, es[..|es| - 1]);
      StepConstant(Steps(s, es[..|es| - 1]), es[|es| - 1]);
    }
  }

  lemma StepConstant(s: State, e: Event)
    ensures |Step(s, e).harts| == |s.harts| && Step(s, e).input == s.input
  {
    hide HartStep, Command;
    if e.Run? && e.hart < |s.harts| {
      HartStepConstant(s, e.hart);
    }
  }

  lemma HartStepConstant(s: State, h: nat)
    requires h < |s.harts|
    ensures |HartStep(s, h).harts| == |s.harts| && HartStep(s, h).input == s.input
  {
    hide Command, After, Start;
    match s.harts[h].pc
    case CheckRead(_) =>
    case CheckClear(_, _) =>
    case CheckUse(_, _) =>
    case _ =>
  }

  /** The first two harts are reading the console and have come to `p` and `q`. */
  predicate Racing(t: State, p: Pc, q: Pc, lock: bool) {
    && !t.atomic && |t.harts| >= 2 && t.lock == lock
    && t.harts[0] == Hart(Getchar, p, 0) && t.harts[1] == Hart(Getchar, q, 0)
  }

  /** Where a hart comes to that reads the lock free. */
  function NextPc(p: Pc): Pc {
    if p == Spin then Swap else if p == Swap then SwapStore(false) else CheckRead(ToBuf)
  }

  lemma RaceStep(t: State, h: nat, p: Pc, q: Pc, lock: bool)
    requires Racing(t, p, q, lock) && h < 2
    requires var x := if h == 0 then p else q; x == SwapStore(false) || (!lock && (x == Spin || x == Swap))
    ensures h == 0 ==> Racing(Step(t, Run(0)), NextPc(p), q, lock || p == SwapStore(false))
    ensures h == 1 ==> Racing(Step(t, Run(1)), p, NextPc(q), lock || q == SwapStore(false))
  {
  }

  lemma RaceStart(s: State)
    requires Init(s) && !s.atomic && |s.harts| >= 2
    ensures Racing(Step(Step(s, Begin(0, Getchar)), Begin(1, Getchar)), Spin, Spin, false)
  {
    assert s.harts[0] in s.harts && s.harts[1] in s.harts && Sendable(Getchar);
    hide Sendable, HartStep;
  }

  lemma RaceEnd(t: State)
    requires Racing(t, CheckRead(ToBuf), CheckRead(ToBuf), true)
    ensures !Exclusive(t)
  {
    assert Critical(t.harts[0].pc) && Critical(t.harts[1].pc);
  }

  /** Without an atomic swap two harts can both read the lock free before either writes it. */
  lemma TornSwap(s: State) returns (es: seq<Event>)
    requires Init(s) && !s.atomic && |s.harts| >= 2
    ensures !Exclusive(Steps(s, es))
  {
    RaceStart(s);
    hide Init, Step, Racing, Exclusive;
    es := [];
    var t := s;
    es, t := OneMore(s, es, t, Begin(0, Getchar));
    es, t := OneMore(s, es, t, Begin(1, Getchar));
    RaceStep(t, 0, Spin, Spin, false);
    es, t := OneMore(s, es, t, Run(0));
    RaceStep(t, 1, Swap, Spin, false);
    es, t := OneMore(s, es, t, Run(1));
    RaceStep(t, 0, Swap, Swap, false);
    es, t := OneMore(s, es, t, Run(0));
    RaceStep(t, 1, SwapStore(false), Swap, false);
    es, t := OneMore(s, es, t, Run(1));
    RaceStep(t, 0, SwapStore(false), SwapStore(false), false);
    es, t := OneMore(s, es, t, Run(0));
    RaceStep(t, 1, CheckRead(ToBuf), SwapStore(false), true);
    es, t := OneMore(s, es, t, Run(1));
    RaceEnd(t);
  }

  lemma OneMore(s: State, es: seq<Event>, t: State, e: Event) returns (es': seq<Event>, t': State)
    requires t == Steps(s, es)
    ensures es' == es + [e] && t' == Step(t, e) && t' == Steps(s, es')
  {
    es', t' := es + [e], Step(t, e);
    assert es'[..|es'| - 1] == es;
  }
}
