/**
 * The control-channel command vocabulary shared by the device coordinator and
 * the Python client. A command travels over TCP as a 4-byte little-endian
 * unsigned integer (`struct.pack('<I', ...)` on the client, a native
 * `uint32_t`/`int` copied by `send`/`recv` on the ESP32).
 */
module Commands {
  import opened Platform

  /**
   * The commands of the protocol. `TalkDidNotEnd` is sent by the coordinator
   * but has no value on the client side.
   */
  datatype Command =
    | RequestTalk | EndTalk | GrantTalk | DenyTalk | TalkEnded | DoorbellRing | OpenDoor
    | TalkDidNotEnd

  /** The numeric value of a command (`class Commands`); None when it has none. */
  function Code(c: Command): (n: Option<uint32>)
    ensures n.Some? <==> c != TalkDidNotEnd
    ensures n.Some? ==> n.value <= 6
  {
    match c
    case RequestTalk => Some(0)
    case EndTalk => Some(1)
    case GrantTalk => Some(2)
    case DenyTalk => Some(3)
    case TalkEnded => Some(4)
    case DoorbellRing => Some(5)
    case OpenDoor => Some(6)
    case TalkDidNotEnd => None
  }

  /** The command with value `n`, if any. */
  function FromCode(n: int): (c: Option<Command>)
    ensures c.Some? <==> 0 <= n <= 6
  {
    if n == 0 then Some(RequestTalk)
    else if n == 1 then Some(EndTalk)
    else if n == 2 then Some(GrantTalk)
    else if n == 3 then Some(DenyTalk)
    else if n == 4 then Some(TalkEnded)
    else if n == 5 then Some(DoorbellRing)
    else if n == 6 then Some(OpenDoor)
    else None
  }

  /** Values and commands correspond one to one. */
  lemma CodeRoundTrip(c: Command, n: int)
    ensures Code(c) == Some(n) <==> FromCode(n) == Some(c)
  {
  }

  /** The 4 bytes on the wire for value `n`. */
  function EncodeCommand(n: uint32): (b: seq<uint8>)
    ensures |b| == 4
  {
    Pow256Values();
    LittleEndian(n, 4)
  }

  /** `struct.unpack('<I', ...)` of exactly 4 bytes; None for any other length. */
  function DecodeCommand(b: seq<uint8>): (n: Option<uint32>)
    ensures n.Some? <==> |b| == 4
  {
    if |b| != 4 then None
    else
      Pow256Values();
      Some(FromLittleEndian(b))
  }

  /** Decoding what was encoded gives the command back, and conversely. */
  lemma CommandWireRoundTrip(c: Command, b: seq<uint8>)
    requires Code(c).Some?
    ensures DecodeCommand(EncodeCommand(Code(c).value)) == Some(Code(c).value)
    ensures |b| == 4 ==> EncodeCommand(DecodeCommand(b).value) == b
  {
    Pow256Values();
    DecodeEncode(Code(c).value, 4);
    if |b| == 4 {
      EncodeDecode(b);
    }
  }

  /**
   * The `int` the ESP32 sees after `recv` writes `b` (1 to 4 bytes) over the
   * low-order bytes of an `int` that was 0: a two's-complement 32-bit value.
   */
  function ReceivedCommand(b: seq<uint8>): (v: int)
    requires 1 <= |b| <= 4
    ensures -0x8000_0000 <= v < 0x8000_0000
    ensures |b| == 4 && DecodeCommand(b).value < 0x8000_0000 ==> v == DecodeCommand(b).value
  {
    Pow256Values();
    var padded := b + seq(4 - |b|, _ => 0);
    assert |b| == 4 ==> padded == b;
    var u := FromLittleEndian(padded);
    if u < 0x8000_0000 then u else u - 0x1_0000_0000
  }
}
