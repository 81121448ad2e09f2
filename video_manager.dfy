/**
 * The video streamer (`video_manager`): the 19-byte video packet header, the
 * split of one captured JPEG frame into MTU-safe fragments that all share one
 * frame id, timestamp and fragment total, and the Idle/Streaming state machine
 * driven by start, stop and the streaming task.
 *
 * The camera, the clock, the socket and the streaming task are inputs: a
 * capture is an optional byte sequence, the timestamp a parameter, each
 * fragment's send outcome a function of its index, task creation a flag.
 */
module VideoManager {
  import opened Platform

  /** The video packet type (the receiver's `PacketTypes.VIDEO_PACKAGE`). */
  const VIDEO_PACKAGE: uint8 := 1
  const HEADER_LEN: nat := 19
  const MAX_VIDEO_PACKET_SIZE: nat := 1400
  /** `MAX_VIDEO_PACKET_SIZE - VIDEO_STREAM_HEADER_LEN`. */
  const MAX_VIDEO_DATA_SIZE: nat := 1381
  const VIDEO_UDP_PORT: uint16 := 12346

  // Header field offsets, in the field order of the header declaration.
  const TYPE_OFFSET: nat := 0
  const FRAME_ID_OFFSET: nat := 1
  const TIMESTAMP_OFFSET: nat := 5
  const LENGTH_OFFSET: nat := 13
  const PACKET_SEQ_OFFSET: nat := 15
  const TOTAL_PACKETS_OFFSET: nat := 17

  /**
   * Frames whose length plus `MAX_VIDEO_DATA_SIZE - 1` still fits the 32-bit
   * `size_t` used to count fragments.
   */
  predicate FrameFits(frame: seq<uint8>)
  {
    |frame| + MAX_VIDEO_DATA_SIZE - 1 < UINT32_MOD
  }

  /** The 19 header bytes `video_manager_send_frame` writes before each fragment. */
  function EncodeVideoHeader(frameId: uint32, timeMs: int64, length: uint16, packetSeq: uint16, total: uint16)
    : (h: seq<uint8>)
    ensures |h| == HEADER_LEN && h[TYPE_OFFSET] == VIDEO_PACKAGE
  {
    Pow256Values();
    [VIDEO_PACKAGE] + LittleEndian(frameId, 4) + LittleEndian(AsUnsigned64(timeMs), 8)
      + LittleEndian(length, 2) + LittleEndian(packetSeq, 2) + LittleEndian(total, 2)
  }

  /** Where each field's bytes lie in the header. */
  lemma VideoHeaderSlices(frameId: uint32, timeMs: int64, length: uint16, packetSeq: uint16, total: uint16)
    ensures AsUnsigned64(timeMs) < Pow256(8) && frameId < Pow256(4)
    ensures length < Pow256(2) && packetSeq < Pow256(2) && total < Pow256(2)
    ensures var h := EncodeVideoHeader(frameId, timeMs, length, packetSeq, total);
      && h[FRAME_ID_OFFSET..TIMESTAMP_OFFSET] == LittleEndian(frameId, 4)
      && h[TIMESTAMP_OFFSET..LENGTH_OFFSET] == LittleEndian(AsUnsigned64(timeMs), 8)
      && h[LENGTH_OFFSET..PACKET_SEQ_OFFSET] == LittleEndian(length, 2)
      && h[PACKET_SEQ_OFFSET..TOTAL_PACKETS_OFFSET] == LittleEndian(packetSeq, 2)
      && h[TOTAL_PACKETS_OFFSET..HEADER_LEN] == LittleEndian(total, 2)
  {
    Pow256Values();
    var f, t := LittleEndian(frameId, 4), LittleEndian(AsUnsigned64(timeMs), 8);
    var l, q, n := LittleEndian(length, 2), LittleEndian(packetSeq, 2), LittleEndian(total, 2);
    var h := EncodeVideoHeader(frameId, timeMs, length, packetSeq, total);
    assert h == [VIDEO_PACKAGE] + f + t + l + q + n;
    Slices6([VIDEO_PACKAGE], f, t, l, q, n);
  }

  /** Each header field reads back, little-endian, as the value written into it. */
  lemma VideoHeaderFields(frameId: uint32, timeMs: int64, length: uint16, packetSeq: uint16, total: uint16)
    ensures var h := EncodeVideoHeader(frameId, timeMs, length, packetSeq, total);
      && FromLittleEndian(h[FRAME_ID_OFFSET..TIMESTAMP_OFFSET]) == frameId
      && FromLittleEndian(h[TIMESTAMP_OFFSET..LENGTH_OFFSET]) == AsUnsigned64(timeMs)
      && FromLittleEndian(h[LENGTH_OFFSET..PACKET_SEQ_OFFSET]) == length
      && FromLittleEndian(h[PACKET_SEQ_OFFSET..TOTAL_PACKETS_OFFSET]) == packetSeq
      && FromLittleEndian(h[TOTAL_PACKETS_OFFSET..HEADER_LEN]) == total
  {
    VideoHeaderSlices(frameId, timeMs, length, packetSeq, total);
    var h := EncodeVideoHeader(frameId, timeMs, length, packetSeq, total);
    FieldAt(h, FRAME_ID_OFFSET, frameId, 4);
    FieldAt(h, TIMESTAMP_OFFSET, AsUnsigned64(timeMs), 8);
    FieldAt(h, LENGTH_OFFSET, length, 2);
    FieldAt(h, PACKET_SEQ_OFFSET, packetSeq, 2);
    FieldAt(h, TOTAL_PACKETS_OFFSET, total, 2);
  }

  /** `total_packets`: the number of fragments of a frame of `frameLen` bytes. */
  function TotalPackets(frameLen: nat): nat
  {
    (frameLen + 1380) / 1381
  }

  /** Where fragment `k` starts in the frame. */
  function FragmentOffset(k: nat): nat
  {
    k * 1381
  }

  /** `packet_data_size` of fragment `k`. */
  function FragmentSize(frameLen: nat, k: nat): int
  {
    if FragmentOffset(k) + MAX_VIDEO_DATA_SIZE > frameLen then frameLen - FragmentOffset(k)
    else MAX_VIDEO_DATA_SIZE
  }

  /** The fragment count is the ceiling of the frame length over 1381. */
  lemma TotalPacketsIsCeiling(frameLen: nat)
    ensures TotalPackets(frameLen) * MAX_VIDEO_DATA_SIZE >= frameLen
    ensures TotalPackets(frameLen) > 0 ==> (TotalPackets(frameLen) - 1) * MAX_VIDEO_DATA_SIZE < frameLen
    ensures TotalPackets(frameLen) == 0 <==> frameLen == 0
  {
  }

  /** Each fragment is non-empty, at most 1381 bytes, and inside the frame. */
  lemma FragmentInFrame(frameLen: nat, k: nat)
    requires k < TotalPackets(frameLen)
    ensures 0 < FragmentSize(frameLen, k) <= MAX_VIDEO_DATA_SIZE
    ensures FragmentOffset(k) + FragmentSize(frameLen, k) <= frameLen
    ensures k + 1 < TotalPackets(frameLen) ==> FragmentSize(frameLen, k) == MAX_VIDEO_DATA_SIZE
    ensures k + 1 == TotalPackets(frameLen) ==> FragmentOffset(k) + FragmentSize(frameLen, k) == frameLen
  {
    TotalPacketsIsCeiling(frameLen);
    assert FragmentOffset(k) < frameLen by {
      assert k <= TotalPackets(frameLen) - 1;
      assert k * MAX_VIDEO_DATA_SIZE <= (TotalPackets(frameLen) - 1) * MAX_VIDEO_DATA_SIZE;
    }
    if k + 1 < TotalPackets(frameLen) {
      assert (k + 1) * MAX_VIDEO_DATA_SIZE <= (TotalPackets(frameLen) - 1) * MAX_VIDEO_DATA_SIZE;
    }
  }

  /**
   * The datagram of fragment `k`, which starts inside the frame: its header
   * followed by its slice of the frame.
   */
  function Packet(frame: seq<uint8>, frameId: uint32, timeMs: int64, k: nat): (p: seq<uint8>)
    requires FragmentOffset(k) < |frame|
  {
    var size := FragmentSize(|frame|, k);
    var header := EncodeVideoHeader(frameId, timeMs, size, k % 0x1_0000,
                                    TotalPackets(|frame|) % 0x1_0000);
    header + frame[FragmentOffset(k)..FragmentOffset(k) + size]
  }

  /** The datagrams of fragments `0..n`, in order. */
  function PacketsUpTo(frame: seq<uint8>, frameId: uint32, timeMs: int64, n: nat): (ps: seq<seq<uint8>>)
    requires n <= TotalPackets(|frame|)
    ensures |ps| == n
  {
    if n == 0 then []
    else
      FragmentInFrame(|frame|, n - 1);
      PacketsUpTo(frame, frameId, timeMs, n - 1) + [Packet(frame, frameId, timeMs, n - 1)]
  }

  /** Every datagram `video_manager_send_frame` sends for one frame, in order. */
  function FramePackets(frame: seq<uint8>, frameId: uint32, timeMs: int64): (ps: seq<seq<uint8>>)
    ensures |ps| == TotalPackets(|frame|)
  {
    PacketsUpTo(frame, frameId, timeMs, TotalPackets(|frame|))
  }

  /** One more fragment appends its datagram and keeps the earlier ones. */
  lemma PacketsUpToLast(frame: seq<uint8>, frameId: uint32, timeMs: int64, n: nat, k: nat)
    requires k < n <= TotalPackets(|frame|)
    ensures FragmentOffset(n - 1) < |frame|
    ensures k < n - 1 ==> PacketsUpTo(frame, frameId, timeMs, n)[k] == PacketsUpTo(frame, frameId, timeMs, n - 1)[k]
    ensures k == n - 1 ==> PacketsUpTo(frame, frameId, timeMs, n)[k] == Packet(frame, frameId, timeMs, k)
  {
    FragmentInFrame(|frame|, n - 1);
    var prefix := PacketsUpTo(frame, frameId, timeMs, n - 1);
    var last := Packet(frame, frameId, timeMs, n - 1);
    assert PacketsUpTo(frame, frameId, timeMs, n) == prefix + [last];
    if k < n - 1 {
      assert (prefix + [last])[k] == prefix[k];
    }
  }

  /** Datagram `k` of any prefix is the datagram of fragment `k`. */
  lemma {:induction false} PacketsUpToIndex(frame: seq<uint8>, frameId: uint32, timeMs: int64, n: nat, k: nat)
    requires k < n <= TotalPackets(|frame|)
    ensures FragmentOffset(k) < |frame|
    ensures PacketsUpTo(frame, frameId, timeMs, n)[k] == Packet(frame, frameId, timeMs, k)
    decreases n
  {
    PacketsUpToLast(frame, frameId, timeMs, n, k);
    if k < n - 1 {
      PacketsUpToIndex(frame, frameId, timeMs, n - 1, k);
    }
  }

  /** A shorter prefix is a prefix of a longer one. */
  lemma PacketsUpToPrefix(frame: seq<uint8>, frameId: uint32, timeMs: int64, m: nat, n: nat)
    requires m <= n <= TotalPackets(|frame|)
    ensures PacketsUpTo(frame, frameId, timeMs, m) == PacketsUpTo(frame, frameId, timeMs, n)[..m]
  {
    var short, long := PacketsUpTo(frame, frameId, timeMs, m), PacketsUpTo(frame, frameId, timeMs, n)[..m];
    forall k | 0 <= k < m
      ensures short[k] == long[k]
    {
      PacketsUpToIndex(frame, frameId, timeMs, m, k);
      PacketsUpToIndex(frame, frameId, timeMs, n, k);
    }
  }

  /** The payload of a datagram: what follows the 19-byte header. */
  function Payload(p: seq<uint8>): seq<uint8>
  {
    if |p| < HEADER_LEN then [] else p[HEADER_LEN..]
  }

  function ConcatPayloads(ps: seq<seq<uint8>>): seq<uint8>
  {
    if ps == [] then [] else Payload(ps[0]) + ConcatPayloads(ps[1..])
  }

  /**
   * Every datagram of a frame is at most 1400 bytes: a header carrying the
   * frame's id, timestamp and fragment total, its own payload length and its
   * index as `packet_seq`, followed by its fragment of the frame.
   */
  lemma PacketHeaderFields(frame: seq<uint8>, frameId: uint32, timeMs: int64, k: nat)
    requires k < TotalPackets(|frame|)
    ensures var p := Packet(frame, frameId, timeMs, k);
      && HEADER_LEN < |p| <= MAX_VIDEO_PACKET_SIZE
      && |p| == HEADER_LEN + FragmentSize(|frame|, k)
      && p[..HEADER_LEN] == EncodeVideoHeader(frameId, timeMs, FragmentSize(|frame|, k), k % 0x1_0000,
                                              TotalPackets(|frame|) % 0x1_0000)
      && Payload(p) == frame[FragmentOffset(k)..FragmentOffset(k) + FragmentSize(|frame|, k)]
  {
    FragmentInFrame(|frame|, k);
    var p := Packet(frame, frameId, timeMs, k);
    var h := EncodeVideoHeader(frameId, timeMs, FragmentSize(|frame|, k), k % 0x1_0000,
                               TotalPackets(|frame|) % 0x1_0000);
    var x := frame[FragmentOffset(k)..FragmentOffset(k) + FragmentSize(|frame|, k)];
    assert p == h + x;
    assert p[..HEADER_LEN] == h && p[HEADER_LEN..] == x;
  }

  /** The bytes of the frame carried by fragment `k`. */
  function Fragment(frame: seq<uint8>, k: nat): seq<uint8>
    requires k < TotalPackets(|frame|)
  {
    FragmentInFrame(|frame|, k);
    frame[FragmentOffset(k)..FragmentOffset(k) + FragmentSize(|frame|, k)]
  }

  /** The fragments `i..` of a frame, concatenated. */
  function FragmentsFrom(frame: seq<uint8>, i: nat): seq<uint8>
    requires i <= TotalPackets(|frame|)
    decreases TotalPackets(|frame|) - i
  {
    if i == TotalPackets(|frame|) then [] else Fragment(frame, i) + FragmentsFrom(frame, i + 1)
  }

  /** The fragments `i..` are the frame from byte `i * 1381` on. */
  lemma {:induction false} FragmentsCover(frame: seq<uint8>, i: nat)
    requires i < TotalPackets(|frame|)
    ensures FragmentOffset(i) < |frame|
    ensures FragmentsFrom(frame, i) == frame[FragmentOffset(i)..]
    decreases TotalPackets(|frame|) - i
  {
    FragmentInFrame(|frame|, i);
    var off, size := FragmentOffset(i), FragmentSize(|frame|, i);
    if i + 1 == TotalPackets(|frame|) {
      assert frame[off..] == frame[off..off + size] + [];
    } else {
      FragmentsCover(frame, i + 1);
      assert FragmentOffset(i + 1) == off + size;
      assert frame[off..] == frame[off..off + size] + frame[off + size..];
    }
  }

  /** The payloads of the datagrams `i..` are the fragments `i..`. */
  lemma {:induction false} PayloadsFrom(frame: seq<uint8>, frameId: uint32, timeMs: int64, i: nat)
    requires i <= TotalPackets(|frame|)
    ensures ConcatPayloads(FramePackets(frame, frameId, timeMs)[i..]) == FragmentsFrom(frame, i)
    decreases TotalPackets(|frame|) - i
  {
    if i < TotalPackets(|frame|) {
      var ps := FramePackets(frame, frameId, timeMs);
      PacketsUpToIndex(frame, frameId, timeMs, |ps|, i);
      PacketHeaderFields(frame, frameId, timeMs, i);
      PayloadsFrom(frame, frameId, timeMs, i + 1);
      assert ps[i..][1..] == ps[i + 1..];
    }
  }

  /** Concatenating the payloads of all fragments, in order, gives back the frame. */
  lemma FragmentsReassemble(frame: seq<uint8>, frameId: uint32, timeMs: int64)
    ensures ConcatPayloads(FramePackets(frame, frameId, timeMs)) == frame
  {
    PayloadsFrom(frame, frameId, timeMs, 0);
    if frame != [] {
      FragmentsCover(frame, 0);
    }
    assert FramePackets(frame, frameId, timeMs)[0..] == FramePackets(frame, frameId, timeMs);
  }

  /** Index of the first fragment whose send fails, or `n` when none of `0..n` fails. */
  function FirstFailure(sendOk: nat -> bool, n: nat): (f: nat)
    ensures f <= n
    ensures forall k :: 0 <= k < f ==> sendOk(k)
    ensures f < n ==> !sendOk(f)
  {
    if n == 0 then 0
    else
      var f := FirstFailure(sendOk, n - 1);
      if f < n - 1 then f else if sendOk(n - 1) then n else n - 1
  }

  /** The first failure is the failing index every earlier index precedes. */
  lemma FirstFailureUnique(sendOk: nat -> bool, n: nat, f: nat)
    requires f <= n && (forall k :: 0 <= k < f ==> sendOk(k)) && (f < n ==> !sendOk(f))
    ensures FirstFailure(sendOk, n) == f
  {
  }

  /**
   * The fragment loop of `video_manager_send_frame`: builds each datagram in
   * turn and hands it to `sendmsg` (whose outcome for fragment `k` is
   * `sendOk(k)`), stopping at the first failure.
   */
  method SendPackets(frame: seq<uint8>, frameId: uint32, timeMs: int64, sendOk: nat -> bool)
    returns (ok: bool, sent: seq<seq<uint8>>)
    requires FrameFits(frame)
    ensures var n := TotalPackets(|frame|);
      var f := FirstFailure(sendOk, n);
      && ok == (f == n)
      && sent == PacketsUpTo(frame, frameId, timeMs, if ok then n else f + 1)
  {
    var totalPackets := TotalPackets(|frame|);
    sent := [];
    var packetSeq := 0;
    while packetSeq < totalPackets
      invariant 0 <= packetSeq <= totalPackets
      invariant sent == PacketsUpTo(frame, frameId, timeMs, packetSeq)
      invariant forall k :: 0 <= k < packetSeq ==> sendOk(k)
    {
      FragmentInFrame(|frame|, packetSeq);
      sent := sent + [Packet(frame, frameId, timeMs, packetSeq)];
      if !sendOk(packetSeq) {
        FirstFailureUnique(sendOk, totalPackets, packetSeq);
        return false, sent;
      }
      packetSeq := packetSeq + 1;
    }
    FirstFailureUnique(sendOk, totalPackets, totalPackets);
    ok := true;
  }

  /** The video manager's state: `video_info` and `video_task_handle`. */
  class VideoStreamer {
    var isStreaming: bool
    var udpSocket: int
    var frameId: uint32
    var remoteAddr: uint32
    var destAddr: uint32
    var destPort: uint16
    /** `video_task_handle != NULL`. */
    var taskRunning: bool
    /** Sockets handed to `close`, in order. */
    var released: seq<int>
    /** Number of `esp_camera_fb_return` calls. */
    var buffersReturned: nat

    ghost predicate Valid()
      reads this
    {
      && (isStreaming ==> udpSocket >= 0 && destPort == VIDEO_UDP_PORT && destAddr == remoteAddr)
      && (taskRunning ==> isStreaming)
    }

    /** The state reset at the end of `video_manager_init`. */
    constructor ()
      ensures Valid()
      ensures !isStreaming && udpSocket == -1 && frameId == 0 && !taskRunning
      ensures remoteAddr == 0 && destAddr == 0 && destPort == 0
      ensures released == [] && buffersReturned == 0
    {
      isStreaming, udpSocket, frameId := false, -1, 0;
      remoteAddr, destAddr, destPort := 0, 0, 0;
      taskRunning, released, buffersReturned := false, [], 0;
    }

    /**
     * `video_manager_start_streaming`. `newSock` is what `socket()` returned,
     * `taskCreated` whether `xTaskCreate` succeeded. The frame id is kept.
     */
    method Start(clientIp: uint32, newSock: int, taskCreated: bool) returns (r: EspErr)
      requires Valid()
      modifies this
      ensures Valid()
      ensures frameId == old(frameId) && buffersReturned == old(buffersReturned)
      ensures old(isStreaming) ==> r == EspOk && unchanged(this)
      ensures !old(isStreaming) && newSock < 0 ==>
        && r == EspFail && !isStreaming && udpSocket == newSock
        && taskRunning == old(taskRunning) && released == old(released)
        && remoteAddr == old(remoteAddr) && destAddr == old(destAddr) && destPort == old(destPort)
      ensures !old(isStreaming) && newSock >= 0 && taskCreated ==>
        && r == EspOk && isStreaming && taskRunning && udpSocket == newSock
        && remoteAddr == clientIp && destAddr == clientIp && destPort == VIDEO_UDP_PORT
        && released == old(released)
      ensures !old(isStreaming) && newSock >= 0 && !taskCreated ==>
        && r == EspFail && !isStreaming && !taskRunning && udpSocket == -1
        && released == old(released) + [newSock]
        && remoteAddr == clientIp && destAddr == clientIp && destPort == VIDEO_UDP_PORT
    {
      if isStreaming {
        return EspOk;
      }
      udpSocket := newSock;
      if udpSocket < 0 {
        return EspFail;
      }
      destAddr := clientIp;
      destPort := VIDEO_UDP_PORT;
      remoteAddr := clientIp;
      isStreaming := true;
      if !taskCreated {
        var _ := Stop();
        return EspFail;
      }
      taskRunning := true;
      r := EspOk;
    }

    /** `video_manager_stop_streaming`: the streaming task is joined or deleted, the socket closed. */
    method Stop() returns (r: EspErr)
      requires Valid()
      modifies this`isStreaming, this`taskRunning, this`udpSocket, this`released
      ensures Valid() && r == EspOk
      ensures !old(isStreaming) ==> unchanged(this)
      ensures old(isStreaming) ==>
        !isStreaming && !taskRunning && udpSocket == -1 && released == old(released) + [old(udpSocket)]
    {
      if !isStreaming {
        return EspOk;
      }
      isStreaming := false;
      taskRunning := false;
      if udpSocket >= 0 {
        released := released + [udpSocket];
        udpSocket := -1;
      }
      r := EspOk;
    }

    /**
     * `video_manager_send_frame`. `capture` is what `esp_camera_fb_get`
     * returned, `timeMs` the capture timestamp, `sendOk(k)` whether the
     * `sendmsg` of fragment `k` succeeded. Returns the datagrams handed to
     * `sendmsg`, in order, the failed one included.
     */
    method SendFrame(capture: Option<seq<uint8>>, timeMs: int64, sendOk: nat -> bool)
      returns (r: EspErr, sent: seq<seq<uint8>>)
      requires Valid()
      requires capture.Some? ==> FrameFits(capture.value)
      modifies this`frameId, this`buffersReturned
      ensures Valid()
      ensures !isStreaming ==> r == ErrInvalidState && sent == [] && unchanged(this)
      ensures isStreaming && capture.None? ==> r == EspFail && sent == [] && unchanged(this)
      ensures isStreaming && capture.Some? ==>
        var n := TotalPackets(|capture.value|);
        var f := FirstFailure(sendOk, n);
        && frameId == Wrap32(old(frameId) + 1)
        && buffersReturned == old(buffersReturned) + 1
        && (f == n ==> r == EspOk && sent == FramePackets(capture.value, old(frameId), timeMs))
        && (f < n ==> r == EspFail && sent == PacketsUpTo(capture.value, old(frameId), timeMs, f + 1))
      ensures isStreaming && capture.Some? ==> sent <= FramePackets(capture.value, old(frameId), timeMs)
    {
      if !isStreaming {
        return ErrInvalidState, [];
      }
      if capture.None? {
        return EspFail, [];
      }
      var currentFrameId := frameId;
      frameId := Wrap32(frameId + 1);
      var ok;
      ok, sent := SendPackets(capture.value, currentFrameId, timeMs, sendOk);
      PacketsUpToPrefix(capture.value, currentFrameId, timeMs, |sent|, TotalPackets(|capture.value|));
      buffersReturned := buffersReturned + 1;
      r := if ok then EspOk else EspFail;
    }

    /**
     * One pass of `video_streaming_task`: while streaming it sends a frame and
     * ignores the result; once streaming has stopped the streaming task ends and clears
     * its handle.
     */
    method StreamingTaskStep(capture: Option<seq<uint8>>, timeMs: int64, sendOk: nat -> bool)
      returns (continues: bool, sent: seq<seq<uint8>>)
      requires Valid()
      requires capture.Some? ==> FrameFits(capture.value)
      modifies this`frameId, this`buffersReturned, this`taskRunning
      ensures Valid()
      ensures continues == isStreaming && isStreaming == old(isStreaming)
      ensures !continues ==> !taskRunning && sent == [] && frameId == old(frameId)
      ensures continues && capture.Some? ==>
        frameId == Wrap32(old(frameId) + 1) && sent <= FramePackets(capture.value, old(frameId), timeMs)
    {
      if isStreaming {
        var _, s := SendFrame(capture, timeMs, sendOk);
        return true, s;
      }
      taskRunning := false;
      return false, [];
    }
  }
}
