/** What the calls of the harts come to in the words that the host takes: one for each call that asks for something. */
module Console {
  import opened Htif
  import opened HtifWords
  import opened Options
  import opened Words
  import opened WordTypes

  /** A call that has released the lock, and the local `ch` that it held then. */
  datatype Done = Done(call: Call, ch: int)

  /** What an event adds: the call whose command a hart writes to `tohost`, and the call that ends. */
  function Sending(t: State, e: Event): seq<Call> {
    if e.Run? && e.hart < |t.harts| && t.harts[e.hart].pc == Send then [t.harts[e.hart].call] else []
  }

  function Ending(t: State, e: Event): seq<Done> {
    if e.Run? && e.hart < |t.harts| && t.harts[e.hart].pc == Unlock then
      [Done(t.harts[e.hart].call, t.harts[e.hart].ch)]
    else []
  }

  /** Over a run: the calls in the order of their stores to `tohost`, and in the order in which they end. */
  function SentCalls(s: State, es: seq<Event>): seq<Call> {
    if es == [] then []
    else SentCalls(s, es[..|es| - 1]) + Sending(Steps(s, es[..|es| - 1]), es[|es| - 1])
  }

  function EndedCalls(s: State, es: seq<Event>): seq<Done> {
    if es == [] then []
    else EndedCalls(s, es[..|es| - 1]) + Ending(Steps(s, es[..|es| - 1]), es[|es| - 1])
  }

  /** A call that has something to send: all of them, but for a read that finds no character. */
  predicate Asks(d: Done) {
    d.call != Getchar || d.ch >= 0
  }

  function Asking(ds: seq<Done>): seq<Call> {
    if ds == [] then []
    else Asking(ds[..|ds| - 1]) + (if Asks(ds[|ds| - 1]) then [ds[|ds| - 1].call] else [])
  }

  /** The characters that the reads return. */
  function Got(ds: seq<Done>): seq<Byte> {
    if ds == [] then []
    else
      var d := ds[|ds| - 1];
      Got(ds[..|ds| - 1]) + (if d.call == Getchar && 1 <= d.ch <= 256 then [d.ch - 1] else [])
  }

  /** The hart has written its command and has not ended its call yet. */
  predicate Past(x: Hart) {
    match x.pc
    case WaitRead => true
    case WaitClear => true
    case CheckRead(ret) => ret == ToWait
    case CheckClear(ret, _) => ret == ToWait
    case CheckUse(ret, _) => ret == ToWait
    case Unlock => Asks(Done(x.call, x.ch))
    case _ => false
  }

  /** A read that goes on to send a request has found a character, or the buffer as it is at first. */
  predicate Found(x: Hart) {
    x.call == Getchar ==>
      match x.pc
      case ClearBuf => x.ch >= 0
      case Poll => x.ch >= 0
      case Send => x.ch >= 0
      case CheckRead(ret) => ret == ToPoll ==> x.ch >= 0
      case CheckClear(ret, _) => ret == ToPoll ==> x.ch >= 0
      case CheckUse(ret, _) => ret == ToPoll ==> x.ch >= 0
      case _ => true
  }

  /** The call inside the lock, if its command has been written. */
  function Current(t: State): seq<Call> {
    if t.holder.Some? && t.holder.value < |t.harts| && Past(t.harts[t.holder.value]) then
      [t.harts[t.holder.value].call]
    else []
  }

  predicate Tally(t: State, sent: seq<Call>, ended: seq<Done>) {
    && sent == Asking(ended) + Current(t)
    && (t.holder.Some? && t.holder.value < |t.harts| ==> Found(t.harts[t.holder.value]))
    && t.returned == Got(ended)
  }

  /** One step of the hart inside the lock. */
  lemma HolderTally(t: State, h: nat)
    requires Inv(t) && t.holder == Some(h) && h < |t.harts| && Found(t.harts[h])
    ensures var x, t' := t.harts[h], HartStep(t, h);
      && h < |t'.harts| && t'.harts[h].call == x.call
      && (x.pc != Unlock ==> t'.holder == Some(h) && Found(t'.harts[h]) && t'.returned == t.returned)
      && (x.pc == Send ==> !Past(x) && Past(t'.harts[h]))
      && (x.pc != Send && x.pc != Unlock ==> (Past(t'.harts[h]) <==> Past(x)))
      && (x.pc == Unlock ==> t'.holder.None? && t'.returned == t.returned + Got([Done(x.call, x.ch)]))
  {
    hide WordsOk, Free, ReadTokens, CallTokens, HeldChar, BufferedChar, RepliedChar, HeldReply, Waiting, OwesRead;
    hide HoldsReply, IsRead, Command, Bit, Htif.Sent;
    var x := t.harts[h];
    assert Critical(x.pc) && HolderOk(t, x);
    GotOne(Done(x.call, x.ch));
    hide Got;
    match x.pc
    case CheckRead(_) =>
    case CheckClear(_, _) =>
    case CheckUse(_, _) =>
    case _ =>
  }

  lemma GotOne(d: Done)
    ensures Got([d]) == if d.call == Getchar && 1 <= d.ch <= 256 then [d.ch - 1] else []
  {
    assert [d][..0] == [];
  }

  lemma Appended(ds: seq<Done>, d: Done)
    ensures Asking(ds + [d]) == Asking(ds) + (if Asks(d) then [d.call] else [])
    ensures Got(ds + [d]) == Got(ds) + Got([d])
  {
    assert (ds + [d])[..|ds|] == ds;
    GotOne(d);
  }

  /** A hart outside the lock changes nothing that counts; the one that takes the lock has not sent anything. */
  lemma OuterTally(t: State, h: nat)
    requires Inv(t) && h < |t.harts| && t.holder != Some(h)
    ensures var t' := HartStep(t, h);
      && Sending(t, Run(h)) == [] && Ending(t, Run(h)) == [] && t'.returned == t.returned
      && Current(t') == Current(t)
      && (t'.holder.Some? && t'.holder.value < |t'.harts| ==>
            (t.holder.Some? && t.holder.value < |t.harts| && t'.harts[t'.holder.value] == t.harts[t.holder.value])
            || Found(t'.harts[t'.holder.value]))
  {
    hide WordsOk, Free, Held;
    assert !Critical(t.harts[h].pc);
  }

  lemma RunTally(t: State, h: nat, sent: seq<Call>, ended: seq<Done>)
    requires Inv(t) && h < |t.harts| && Tally(t, sent, ended)
    ensures Tally(HartStep(t, h), sent + Sending(t, Run(h)), ended + Ending(t, Run(h)))
  {
    hide Past, Found, HartStep, Inv, Got, Asking, Current, Tally, Asks;
    if t.holder == Some(h) {
      HolderRun(t, h, sent, ended);
    } else {
      OuterRun(t, h, sent, ended);
    }
  }

  lemma OuterRun(t: State, h: nat, sent: seq<Call>, ended: seq<Done>)
    requires Inv(t) && h < |t.harts| && t.holder != Some(h) && Tally(t, sent, ended)
    ensures Tally(HartStep(t, h), sent + Sending(t, Run(h)), ended + Ending(t, Run(h)))
  {
    hide Past, Found, HartStep, Inv, Got, Asking, Current;
    NothingAdded(sent, ended);
    OuterTally(t, h);
  }

  lemma HolderRun(t: State, h: nat, sent: seq<Call>, ended: seq<Done>)
    requires Inv(t) && h < |t.harts| && t.holder == Some(h) && Tally(t, sent, ended)
    ensures Tally(HartStep(t, h), sent + Sending(t, Run(h)), ended + Ending(t, Run(h)))
  {
    hide Found, HartStep, Inv, Got, Asking, Asks;
    var x := t.harts[h];
    assert x.pc == Unlock ==> (Past(x) <==> Asks(Done(x.call, x.ch)));
    hide Past;
    NothingAdded(sent, ended);
    HolderTally(t, h);
    Appended(ended, Done(x.call, x.ch));
    assert Asking(ended) + [] == Asking(ended);
  }

  lemma NothingAdded(sent: seq<Call>, ended: seq<Done>)
    ensures sent + [] == sent && ended + [] == ended
  {
  }

  lemma StepTally(t: State, e: Event, sent: seq<Call>, ended: seq<Done>)
    requires Inv(t) && Tally(t, sent, ended)
    ensures Tally(Step(t, e), sent + Sending(t, e), ended + Ending(t, e))
  {
    if e.Run? && e.hart < |t.harts| {
      RunTally(t, e.hart, sent, ended);
    } else {
      NothingAdded(sent, ended);
      QuietStep(t, e);
      hide Past, Found, Step, Inv, Got, Asking;
    }
  }

  /** The other events leave the hart inside the lock alone. */
  lemma QuietStep(t: State, e: Event)
    requires Inv(t) && !(e.Run? && e.hart < |t.harts|)
    ensures var t' := Step(t, e);
      && t'.holder == t.holder && t'.returned == t.returned && |t'.harts| == |t.harts|
      && (t.holder.Some? && t.holder.value < |t.harts| ==> t'.harts[t.holder.value] == t.harts[t.holder.value])
  {
    hide WordsOk, Free, Held, Sendable;
  }

  lemma {:induction false} RunTallies(s: State, es: seq<Event>)
    requires Init(s) && s.atomic
    ensures Tally(Steps(s, es), SentCalls(s, es), EndedCalls(s, es))
  {
    if es == [] {
    } else {
      hide Tally, Sending, Ending, Step;
      RunTallies(s, es[..|es| - 1]);
      RunInv(s, es[..|es| - 1]);
      StepTally(Steps(s, es[..|es| - 1]), es[|es| - 1], SentCalls(s, es[..|es| - 1]), EndedCalls(s, es[..|es| - 1]));
    }
  }

  /** What the host reads in a word that it takes. */
  predicate Carries(x: DWord, c: Call) {
    match c
    case Putchar(ch) => Dev(x) == 1 && Cmd(x) == 1 && Payload(x) == ch
    case Getchar => Dev(x) == 1 && Cmd(x) == 0 && Payload(x) == 0
    case Syscall(arg) => Dev(x) == 0 && Cmd(x) == 0 && Payload(x) == arg
  }

  /** The word for a message, if there is one. */
  function Word64(m: Message): DWord {
    if m.dev < 256 && m.cmd < 256 && m.data < WW then Packed(Some(m)) else 0
  }

  /** The words written to `tohost`: those that the host has taken and the one that waits there. */
  function Written(t: State): seq<DWord> {
    var ms := t.taken + (if t.tohost.Some? then [t.tohost.value] else []);
    seq(|ms|, k requires 0 <= k < |ms| => Word64(ms[k]))
  }

  lemma CommandCarries(c: Call)
    requires Sendable(c)
    ensures Carries(Word64(Command(c)), c)
  {
    hide Pack, Dev, Cmd, Payload;
    var m := Command(c);
    PackRoundTrip(m.dev, m.cmd, m.data);
  }

  ghost predicate Matched(ms: seq<Message>, cs: seq<Call>) {
    |ms| == |cs| && forall k :: 0 <= k < |ms| ==> ms[k] == Command(cs[k]) && Sendable(cs[k])
  }

  lemma SendIssues(t: State, e: Event)
    requires Traffic(t)
    ensures Sending(t, e) == [] ==> Step(t, e).issued == t.issued
    ensures Sending(t, e) != [] ==>
      Sendable(Sending(t, e)[0]) && Step(t, e).issued == t.issued + [Command(Sending(t, e)[0])]
  {
    hide Command, Sendable, After, Start;
  }

  lemma {:induction false} IssuedMatched(s: State, es: seq<Event>)
    requires Init(s)
    ensures Matched(Steps(s, es).issued, SentCalls(s, es))
  {
    if es != [] {
      IssuedMatched(s, es[..|es| - 1]);
      RunTraffic(s, es[..|es| - 1]);
      hide Traffic, Step, Command, Sendable;
      SendIssues(Steps(s, es[..|es| - 1]), es[|es| - 1]);
    }
  }

  /** The payloads of the console's output among some words, and the characters of the output calls among some calls. */
  function Printed(words: seq<DWord>): seq<nat> {
    if words == [] then []
    else
      var x := words[|words| - 1];
      Printed(words[..|words| - 1]) + (if Dev(x) == 1 && Cmd(x) == 1 then [Payload(x)] else [])
  }

  function Characters(calls: seq<Call>): seq<nat> {
    if calls == [] then []
    else
      var c := calls[|calls| - 1];
      Characters(calls[..|calls| - 1]) + (if c.Putchar? then [c.ch] else [])
  }

  lemma {:induction false} PrintedCharacters(words: seq<DWord>, calls: seq<Call>)
    requires |words| == |calls| && forall k :: 0 <= k < |words| ==> Carries(words[k], calls[k])
    ensures Printed(words) == Characters(calls)
  {
    if words != [] {
      hide Dev, Cmd, Payload;
      assert Carries(words[|words| - 1], calls[|calls| - 1]);
      PrintedCharacters(words[..|words| - 1], calls[..|calls| - 1]);
    }
  }

  /**
   * Whatever the interleaving: the words written to `tohost` carry the calls, one word for each call, in the order of
   * the stores, so the host prints just the characters of the output calls. Each call that has ended has written one
   * word, unless it is a read that found no character, and the calls end in the same order; only the call inside the
   * lock can have written one without having ended. The reads return just what the record `returned` says.
   */
  lemma Output(s: State, es: seq<Event>)
    requires Init(s) && s.atomic
    ensures var t, calls, words := Steps(s, es), SentCalls(s, es), Written(Steps(s, es));
      && |words| == |calls| && (forall k :: 0 <= k < |words| ==> Carries(words[k], calls[k]))
      && Printed(words) == Characters(calls)
      && calls == Asking(EndedCalls(s, es)) + Current(t)
      && t.returned == Got(EndedCalls(s, es))
  {
    hide Steps, SentCalls, EndedCalls, Asking, Got, Current, Printed, Characters, Command, Carries, Word64, Sendable;
    var t, calls := Steps(s, es), SentCalls(s, es);
    Safety(s, es);
    IssuedMatched(s, es);
    RunTallies(s, es);
    var words := Written(t);
    forall k | 0 <= k < |words|
      ensures Carries(words[k], calls[k])
    {
      CommandCarries(calls[k]);
      assert words[k] == Word64(t.issued[k]);
    }
    PrintedCharacters(words, calls);
  }
}
