/**
 * The UDP audio transport element (`udp_stream`): the 15-byte audio packet
 * header, the element's open/close state, the reader's timeout and result
 * handling, the writer's truncation / sequence-number / send-failure policy,
 * and the `process` step that fills silence on a read timeout.
 *
 * Sockets are not modelled: the outcome of each socket call is an input of the
 * method that makes it, and what the element hands to `sendmsg` is returned.
 */
module UdpStream {
  import opened Platform

  // Packet types and header layout of adf_components/udp_stream.c.
  const AUDIO_PACKAGE: uint8 := 0
  const HEADER_LEN: nat := 15
  const TYPE_OFFSET: nat := 0
  const SEQUENCE_OFFSET: nat := 1
  const TIMESTAMP_OFFSET: nat := 5
  const LENGTH_OFFSET: nat := 13
  const DATA_OFFSET: nat := 15

  // Return codes of an ESP-ADF element's read/write/process callbacks.
  const AEL_IO_OK: int := 0
  const AEL_IO_FAIL: int := -1
  const AEL_IO_TIMEOUT: int := -4

  /** FreeRTOS `portMAX_DELAY` for a 32-bit `TickType_t`. */
  const PORT_MAX_DELAY: uint32 := 0xFFFF_FFFF
  /** The capped wait used instead of an unbounded one: 100 ms. */
  const CAPPED_WAIT_USEC: nat := 100000
  const MIN_TASK_STACK: int := 4096

  datatype StreamType = Reader | Writer

  /** `udp_stream_cfg_t`, with the destination address split into host and port. */
  datatype Config = Config(kind: StreamType, destAddr: uint32, destPort: uint16,
                           bufferLen: int, outRbSize: int, taskStack: int)

  datatype Errno = EAgain | EWouldBlock | ENoMem | OtherErrno(code: int)

  /** What `recvfrom` did: a datagram of `count` bytes, or -1 with an errno. */
  datatype RecvOutcome = Received(count: nat) | RecvFailed(errno: Errno)

  /** What `sendmsg` did: the whole datagram went out, or -1 with an errno. */
  datatype SendOutcome = Sent | SendFailed(errno: Errno)

  /** The status last reported upward with `audio_element_report_status`. */
  datatype Status = NoReport | ErrorInput | ErrorOutput

  datatype TimeVal = TimeVal(sec: int, usec: int)

  /**
   * The 15 header bytes written by `_udp_stream_write`: the type byte, then the
   * sequence number, the millisecond timestamp and the payload length, each
   * copied from a host (little-endian) integer.
   */
  function EncodeAudioHeader(sequence: uint32, timeMs: int64, length: uint16): (h: seq<uint8>)
    ensures |h| == HEADER_LEN && h[TYPE_OFFSET] == AUDIO_PACKAGE
    ensures FromLittleEndian(h[SEQUENCE_OFFSET..TIMESTAMP_OFFSET]) == sequence
    ensures FromLittleEndian(h[TIMESTAMP_OFFSET..LENGTH_OFFSET]) == AsUnsigned64(timeMs)
    ensures FromLittleEndian(h[LENGTH_OFFSET..DATA_OFFSET]) == length
  {
    Pow256Values();
    var s := LittleEndian(sequence, 4);
    var t := LittleEndian(AsUnsigned64(timeMs), 8);
    var l := LittleEndian(length, 2);
    Slices4([AUDIO_PACKAGE], s, t, l);
    DecodeEncode(sequence, 4);
    DecodeEncode(AsUnsigned64(timeMs), 8);
    DecodeEncode(length, 2);
    [AUDIO_PACKAGE] + s + t + l
  }

  /** Two headers are equal only if their fields are. */
  lemma AudioHeaderInjective(s1: uint32, t1: int64, l1: uint16, s2: uint32, t2: int64, l2: uint16)
    requires EncodeAudioHeader(s1, t1, l1) == EncodeAudioHeader(s2, t2, l2)
    ensures s1 == s2 && t1 == t2 && l1 == l2
  {
    var h := EncodeAudioHeader(s1, t1, l1);
    assert FromLittleEndian(h[SEQUENCE_OFFSET..TIMESTAMP_OFFSET]) == s2;
    assert FromLittleEndian(h[TIMESTAMP_OFFSET..LENGTH_OFFSET]) == AsUnsigned64(t2);
    assert FromLittleEndian(h[LENGTH_OFFSET..DATA_OFFSET]) == l2;
  }

  /**
   * The receive timeout `_udp_stream_read` installs: `portMAX_DELAY` becomes a
   * 100 ms poll; any other wait is converted to milliseconds in 32-bit
   * arithmetic and split into seconds and microseconds.
   */
  function ReadTimeout(ticks: uint32, tickPeriodMs: uint32): (tv: TimeVal)
    ensures ticks == PORT_MAX_DELAY ==> tv == TimeVal(0, CAPPED_WAIT_USEC)
    ensures ticks != PORT_MAX_DELAY ==>
      && 0 <= tv.sec && 0 <= tv.usec < 1000000 && tv.usec % 1000 == 0
      && tv.sec * 1000 + tv.usec / 1000 == Wrap32(ticks * tickPeriodMs)
  {
    if ticks == PORT_MAX_DELAY then TimeVal(0, CAPPED_WAIT_USEC)
    else
      var ms := Wrap32(ticks * tickPeriodMs);
      TimeVal(ms / 1000, (ms % 1000) * 1000)
  }

  /**
   * How `_udp_stream_read` reports a receive: a datagram's byte count, a
   * distinguished TIMEOUT when the socket would block, FAIL on any other error.
   */
  function ClassifyRecv(recv: RecvOutcome): (r: int)
    ensures recv.Received? ==> r == recv.count
    ensures recv.RecvFailed? ==> r < 0
    ensures r == AEL_IO_TIMEOUT <==> recv.RecvFailed? && recv.errno in {EAgain, EWouldBlock}
    ensures r == AEL_IO_FAIL <==> recv.RecvFailed? && recv.errno !in {EAgain, EWouldBlock}
  {
    match recv
    case Received(n) => n
    case RecvFailed(e) => if e == EAgain || e == EWouldBlock then AEL_IO_TIMEOUT else AEL_IO_FAIL
  }

  /** The element task's stack size chosen by `udp_stream_init`. */
  function ElementTaskStack(requested: int): (s: int)
    ensures s >= MIN_TASK_STACK
    ensures requested >= MIN_TASK_STACK ==> s == requested
    ensures requested < MIN_TASK_STACK ==> s == MIN_TASK_STACK
  {
    if requested < MIN_TASK_STACK then MIN_TASK_STACK else requested
  }

  /** The number of payload bytes a write of `len` bytes sends. */
  function PayloadLength(len: int, bufferLen: int): (n: int)
    requires 0 < len && 0 < bufferLen
    ensures 0 < n <= bufferLen && n <= len
    ensures n == len || n == bufferLen
  {
    if len > bufferLen then bufferLen else len
  }

  /**
   * The `static uint32_t sequence_number` of `_udp_stream_write`: one counter,
   * starting at 0, shared by every writer element and never reset.
   */
  class SequenceCounter {
    var next: uint32

    constructor ()
      ensures next == 0
    {
      next := 0;
    }
  }

  /** One `udp_stream_t` element, as a reader or as a writer. */
  class UdpStream {
    const kind: StreamType
    const destAddr: uint32
    const destPort: uint16
    const bufferLen: int
    const taskStack: int
    var sock: int
    var isOpen: bool
    var status: Status
    var bytePos: int
    /** Sockets handed to `close`, in order. */
    var released: seq<int>

    ghost predicate Valid()
      reads this
    {
      && 0 < bufferLen
      && (isOpen ==> sock >= 0)
      && (!isOpen ==> sock == -1)
    }

    /** `udp_stream_init` after both allocations succeeded. */
    constructor (cfg: Config)
      requires 0 < cfg.bufferLen
      ensures Valid()
      ensures kind == cfg.kind && destAddr == cfg.destAddr && destPort == cfg.destPort
      ensures bufferLen == cfg.bufferLen && taskStack == ElementTaskStack(cfg.taskStack)
      ensures !isOpen && sock == -1 && status == NoReport && bytePos == 0 && released == []
    {
      kind, destAddr, destPort := cfg.kind, cfg.destAddr, cfg.destPort;
      bufferLen := cfg.bufferLen;
      taskStack := ElementTaskStack(cfg.taskStack);
      sock, isOpen, status, bytePos, released := -1, false, NoReport, 0, [];
    }

    /**
     * `_udp_open`. `newSock` is what `socket()` returned and `bindOk` whether
     * `bind()` succeeded (only a reader binds).
     */
    method Open(newSock: int, bindOk: bool) returns (r: EspErr)
      requires Valid()
      modifies this`sock, this`isOpen, this`released
      ensures Valid()
      ensures old(isOpen) ==> r == EspOk && unchanged(this)
      ensures !old(isOpen) && newSock < 0 ==> r == EspFail && unchanged(this)
      ensures !old(isOpen) && newSock >= 0 && kind == Reader && !bindOk ==>
        r == EspFail && !isOpen && sock == -1 && released == old(released) + [newSock]
      ensures !old(isOpen) && newSock >= 0 && (kind == Writer || bindOk) ==>
        r == EspOk && isOpen && sock == newSock && released == old(released)
    {
      if isOpen {
        return EspOk;
      }
      if newSock < 0 {
        return EspFail;
      }
      if kind == Reader && !bindOk {
        released := released + [newSock];
        return EspFail;
      }
      sock := newSock;
      isOpen := true;
      r := EspOk;
    }

    /**
     * `_udp_close`. `paused` is whether the element is in the PAUSED state,
     * in which the byte position is kept.
     */
    method Close(paused: bool) returns (r: EspErr)
      requires Valid()
      modifies this`sock, this`isOpen, this`released, this`bytePos
      ensures Valid() && r == EspOk
      ensures !old(isOpen) ==> unchanged(this)
      ensures old(isOpen) ==>
        && !isOpen && sock == -1 && released == old(released) + [old(sock)]
        && bytePos == (if paused then old(bytePos) else 0)
    {
      if !isOpen {
        return EspOk;
      }
      if sock >= 0 {
        released := released + [sock];
        sock := -1;
      }
      isOpen := false;
      if !paused {
        bytePos := 0;
      }
      r := EspOk;
    }

    /**
     * `_udp_stream_read`: returns the callback's result and the receive
     * timeout it installed (None when it returned before the socket call).
     */
    method Read(len: int, ticks: uint32, tickPeriodMs: uint32, recv: RecvOutcome)
      returns (r: int, timeout: Option<TimeVal>)
      requires Valid()
      requires len >= 0 && recv.Received? ==> recv.count <= len  // recv never returns more than asked
      modifies this`status, this`bytePos
      ensures Valid()
      ensures !isOpen ==> r == AEL_IO_FAIL && timeout == None && unchanged(this)
      ensures isOpen && len < 0 ==> r == len && timeout == None && unchanged(this)
      ensures isOpen && len >= 0 ==>
        && timeout == Some(ReadTimeout(ticks, tickPeriodMs))
        && r == ClassifyRecv(recv) && r <= len
        && status == (if r == AEL_IO_FAIL then ErrorInput else old(status))
        && bytePos == old(bytePos) + (if r > 0 then r else 0)
    {
      if !isOpen {
        return AEL_IO_FAIL, None;
      }
      if len < 0 {
        return len, None;
      }
      timeout := Some(ReadTimeout(ticks, tickPeriodMs));
      match recv {
        case RecvFailed(e) =>
          if e == EAgain || e == EWouldBlock {
            r := AEL_IO_TIMEOUT;
          } else {
            status := ErrorInput;
            r := AEL_IO_FAIL;
          }
        case Received(n) =>
          if n > 0 {
            bytePos := bytePos + n;
          }
          r := n;
      }
    }

    /**
     * `_udp_stream_write`: truncates to `bufferLen`, stamps the header with the
     * shared sequence number and hands header and payload to one `sendmsg`.
     * Returns the callback's result and the datagram handed to `sendmsg`.
     */
    method Write(counter: SequenceCounter, buffer: seq<uint8>, len: int, timeMs: int64, send: SendOutcome)
      returns (r: int, datagram: Option<seq<uint8>>)
      requires Valid() && len <= |buffer|
      modifies this`status, counter
      ensures Valid()
      ensures !isOpen ==> r == AEL_IO_FAIL && datagram == None && unchanged(this, counter)
      ensures isOpen && len < 0 ==> r == len && datagram == None && unchanged(this, counter)
      ensures isOpen && len == 0 ==> r == AEL_IO_OK && datagram == None && unchanged(this, counter)
      ensures isOpen && len > 0 ==>
        var n := PayloadLength(len, bufferLen);
        && datagram == Some(EncodeAudioHeader(old(counter.next), timeMs, Wrap16(n)) + buffer[..n])
        && (send.Sent? ==>
              r == HEADER_LEN + n && counter.next == Wrap32(old(counter.next) + 1) && status == old(status))
        && (send == SendFailed(ENoMem) ==>
              r == n && counter.next == old(counter.next) && status == old(status))
        && (send.SendFailed? && send.errno != ENoMem ==>
              r == AEL_IO_FAIL && counter.next == old(counter.next) && status == ErrorOutput)
    {
      if !isOpen {
        return AEL_IO_FAIL, None;
      }
      if len < 0 {
        return len, None;
      } else if len == 0 {
        return AEL_IO_OK, None;
      }
      var n := len;
      if n > bufferLen {
        n := bufferLen;
      }
      var packetLength: uint16 := Wrap16(n);
      var header := EncodeAudioHeader(counter.next, timeMs, packetLength);
      datagram := Some(header + buffer[..n]);
      match send {
        case SendFailed(e) =>
          if e == ENoMem {
            return n, datagram;
          }
          status := ErrorOutput;
          return AEL_IO_FAIL, datagram;
        case Sent =>
          counter.next := Wrap32(counter.next + 1);
          r := HEADER_LEN + n;
      }
    }

    /**
     * `_udp_stream_process`. `readResult` is what `audio_element_input`
     * returned (the bytes it read are already in `buf`) and `outputResult` what
     * `audio_element_output` returns. Returns the callback's result and how many
     * bytes of `buf` were handed to the output (None when there was no output).
     */
    method Process(buf: array<uint8>, inLen: int, readResult: int, outputResult: int)
      returns (w: int, output: Option<nat>)
      requires inLen <= buf.Length
      requires readResult <= inLen
      modifies buf, this`bytePos
      ensures inLen < 0 ==> w == inLen && output == None && unchanged(buf) && unchanged(this)
      ensures inLen >= 0 && readResult == AEL_IO_TIMEOUT ==>
        && output == Some(inLen) && w == outputResult
        && (forall k :: 0 <= k < inLen ==> buf[k] == 0)
        && (forall k :: inLen <= k < buf.Length ==> buf[k] == old(buf[k]))
        && unchanged(this)
      ensures inLen >= 0 && readResult > 0 ==>
        && output == Some(readResult) && w == outputResult && unchanged(buf)
        && bytePos == old(bytePos) + (if outputResult > 0 then outputResult else 0)
      ensures inLen >= 0 && readResult <= 0 && readResult != AEL_IO_TIMEOUT ==>
        w == readResult && output == None && unchanged(buf) && unchanged(this)
    {
      if inLen < 0 {
        return inLen, None;
      }
      if readResult == AEL_IO_TIMEOUT {
        ZeroFill(buf, inLen);
        w, output := outputResult, Some(inLen);
      } else if readResult > 0 {
        w, output := outputResult, Some(readResult);
        if w > 0 {
          bytePos := bytePos + w;
        }
      } else {
        w, output := readResult, None;
      }
    }
  }

  /** `memset(buf, 0x00, n)`. */
  method ZeroFill(buf: array<uint8>, n: nat)
    requires n <= buf.Length
    modifies buf
    ensures forall k :: 0 <= k < n ==> buf[k] == 0
    ensures forall k :: n <= k < buf.Length ==> buf[k] == old(buf[k])
  {
    var i := 0;
    while i < n
      invariant 0 <= i <= n
      invariant forall k :: 0 <= k < i ==> buf[k] == 0
      invariant forall k :: i <= k < buf.Length ==> buf[k] == old(buf[k])
    {
      buf[i] := 0;
      i := i + 1;
    }
  }
}
