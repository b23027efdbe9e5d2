/** The 64-bit words in which HTIF messages travel. */
module HtifWords {
  import opened Bits
  import opened Options
  import opened Words
  import opened WordTypes

  /** A non-zero `tohost` or `fromhost` word, taken apart. */
  datatype Message = Message(dev: nat, cmd: nat, data: nat)

  /** `TOHOST_CMD` */
  function Pack(dev: Byte, cmd: Byte, payload: DWord): DWord {
    BitOp64(Or, BitOp64(Or, Mod64(dev * 0x100_0000_0000_0000), Mod64(cmd * 0x1_0000_0000_0000)), payload)
  }

  /** `FROMHOST_DEV` */
  function Dev(x: DWord): nat {
    x / 0x100_0000_0000_0000
  }

  /** `FROMHOST_CMD` */
  function Cmd(x: DWord): nat {
    Mod64(x * 0x100) / 0x100_0000_0000_0000
  }

  /** `FROMHOST_DATA` */
  function Payload(x: DWord): nat {
    Mod64(x * 0x1_0000) / 0x1_0000
  }

  /** A message survives packing, and only the all-zero message is mistaken for an empty word. */
  lemma PackRoundTrip(dev: Byte, cmd: Byte, payload: DWord)
    requires payload < 0x1_0000_0000_0000
    ensures var x := Pack(dev, cmd, payload);
      && Dev(x) == dev && Cmd(x) == cmd && Payload(x) == payload
      && (x == 0 <==> dev == 0 && cmd == 0 && payload == 0)
  {
    hide *;
    PackIsSum(dev, cmd, payload);
    SumParts(Pack(dev, cmd, payload), dev, cmd, payload);
  }

  lemma PackIsSum(dev: Byte, cmd: Byte, payload: DWord)
    requires payload < 0x1_0000_0000_0000
    ensures Pack(dev, cmd, payload) as int == dev * 0x100_0000_0000_0000 + cmd * 0x1_0000_0000_0000 + payload
  {
    MessagePowers();
    var high: int := dev * 0x100_0000_0000_0000;
    var mid: int := cmd * 0x1_0000_0000_0000;
    assert Mod64(high) == high && Mod64(mid) == mid;
    hide BitOp64, Pow2;
    Or64(56, dev, high, mid);
    Or64(48, dev * 256 + cmd, high + mid, payload);
  }

  lemma SumParts(x: DWord, dev: Byte, cmd: Byte, payload: DWord)
    requires payload < 0x1_0000_0000_0000
    requires x as int == dev * 0x100_0000_0000_0000 + cmd * 0x1_0000_0000_0000 + payload
    ensures Dev(x) == dev && Cmd(x) == cmd && Payload(x) == payload
    ensures x == 0 <==> dev == 0 && cmd == 0 && payload == 0
  {
    hide Mod64;
    var mid: int := cmd * 0x1_0000_0000_0000;
    DivModUnique(x, 0x100_0000_0000_0000, dev, mid + payload);
    ShiftedOut(x, dev, mid + payload, 0x100);
    ShiftedOut(x, dev * 256 + cmd, payload, 0x1_0000);
    DivModUnique((mid + payload) * 0x100, 0x100_0000_0000_0000, cmd, payload * 0x100);
  }

  /** What the reader of a word sees; zero means that there is no message. */
  function Received(x: DWord): Option<Message> {
    if x == 0 then None else Some(Message(Dev(x), Cmd(x), Payload(x)))
  }

  /** The word for a message; the payload is not masked, so it must not be longer than 64 bits. */
  function Packed(m: Option<Message>): DWord
    requires m.Some? ==> m.value.dev < 256 && m.value.cmd < 256 && m.value.data < WW
  {
    match m
    case None => 0
    case Some(Message(dev, cmd, data)) => Pack(dev, cmd, data)
  }

  /** The messages that arrive as they were sent. */
  predicate Fits(m: Message) {
    m.dev < 256 && m.cmd < 256 && m.data < 0x1_0000_0000_0000 && m != Message(0, 0, 0)
  }

  lemma ArrivesExactly(m: Message)
    requires m.dev < 256 && m.cmd < 256 && m.data < WW
    ensures Received(Packed(Some(m))) == Some(m) <==> Fits(m)
  {
    hide Pack, Dev, Cmd, Payload;
    var x := Packed(Some(m));
    PayloadBound(x);
    if m.data < 0x1_0000_0000_0000 {
      PackRoundTrip(m.dev, m.cmd, m.data);
    }
  }

  lemma PayloadBound(x: DWord)
    ensures Payload(x) < 0x1_0000_0000_0000
  {
  }

  lemma MessagePowers()
    ensures Pow2(8) == 256 && Pow2(16) == 0x1_0000 && Pow2(48) == 0x1_0000_0000_0000 && Pow2(56) == 0x100_0000_0000_0000
  {
    WordPowers();
    Pow2Add(32, 16);
    Pow2Add(48, 8);
  }

  lemma ShiftedOut(x: nat, top: nat, rest: nat, factor: nat)
    requires (factor == 0x100 && x == top * 0x100_0000_0000_0000 + rest && rest < 0x100_0000_0000_0000)
          || (factor == 0x1_0000 && x == top * 0x1_0000_0000_0000 + rest && rest < 0x1_0000_0000_0000)
    ensures Mod64(x * factor) == rest * factor
  {
    DivModUnique(x * factor, WW, top, rest * factor);
  }
}
