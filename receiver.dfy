/**
 * The receiving side of the media streams (`audio_video_test.py`): decoding
 * the audio and video datagram headers, reassembling video frames from their
 * fragments, the JPEG marker check before display, and the audio sequence-gap
 * check.
 *
 * Python integers are unbounded; `struct.unpack('<...')` reads the fields
 * little-endian. A decode error raised by `struct.unpack` is caught by the
 * receiving thread's `except` clause, which drops the datagram: here the
 * parsers return None instead.
 */
module Receiver {
  import opened Platform
  import UdpStream
  import VideoManager

  const AUDIO_PACKAGE: nat := 0
  const VIDEO_PACKAGE: nat := 1
  const HEADER_SIZE: nat := 15        // struct.calcsize('<BIQH')
  const VIDEO_HEADER_SIZE: nat := 19  // struct.calcsize('<BIQHHH')

  datatype AudioHeader = AudioHeader(kind: nat, sequence: nat, timestamp: nat, length: nat)

  datatype VideoHeader = VideoHeader(kind: nat, frameId: nat, timestamp: nat, length: nat, packetSeq: nat, totalPackets: nat)

  datatype Parsed<H> = Parsed(header: H, payload: seq<uint8>)

  /** Python's `data[from:from + len]` for `from <= len(data)`: the slice stops at the end. */
  function SliceFrom(data: seq<uint8>, from: nat, len: nat): (s: seq<uint8>)
    requires from <= |data|
    ensures |s| == if from + len <= |data| then len else |data| - from
    ensures s == data[from..from + |s|]
  {
    if from + len <= |data| then data[from..from + len] else data[from..]
  }

  /** `parse_audio_header`; None where `struct.unpack` raises (fewer than 15 bytes). */
  function ParseAudioHeader(data: seq<uint8>): (r: Option<Parsed<AudioHeader>>)
    ensures r.Some? <==> |data| >= HEADER_SIZE
    ensures r.Some? ==> |r.value.payload| <= r.value.header.length
  {
    if |data| < HEADER_SIZE then None
    else
      var h := AudioHeader(data[0], FromLittleEndian(data[1..5]), FromLittleEndian(data[5..13]),
                           FromLittleEndian(data[13..15]));
      Some(Parsed(h, SliceFrom(data, HEADER_SIZE, h.length)))
  }

  /** `parse_video_header`; None (Python's `(None, None)`) for fewer than 19 bytes. */
  function ParseVideoHeader(data: seq<uint8>): (r: Option<Parsed<VideoHeader>>)
    ensures r.Some? <==> |data| >= VIDEO_HEADER_SIZE
    ensures r.Some? ==> |r.value.payload| <= r.value.header.length
  {
    if |data| < VIDEO_HEADER_SIZE then None
    else
      var h := VideoHeader(data[0], FromLittleEndian(data[1..5]), FromLittleEndian(data[5..13]),
                           FromLittleEndian(data[13..15]), FromLittleEndian(data[15..17]),
                           FromLittleEndian(data[17..19]));
      Some(Parsed(h, SliceFrom(data, VIDEO_HEADER_SIZE, h.length)))
  }

  /**
   * Decoding a datagram the audio writer sends gives back the sequence number,
   * the timestamp (as its unsigned bit pattern) and the payload length. The
   * payload returned is the first `length` bytes: all of it unless the
   * payload was too long for the 16-bit length field.
   */
  lemma AudioDatagramRoundTrip(sequence: uint32, timeMs: int64, payload: seq<uint8>)
    ensures var r := ParseAudioHeader(UdpStream.EncodeAudioHeader(sequence, timeMs, Wrap16(|payload|)) + payload);
      && r.Some?
      && r.value.header == AudioHeader(AUDIO_PACKAGE, sequence, AsUnsigned64(timeMs), Wrap16(|payload|))
      && r.value.payload == payload[..Wrap16(|payload|)]
      && (|payload| < 0x1_0000 ==> r.value.payload == payload)
  {
    AudioDatagramDecodes(sequence, timeMs, Wrap16(|payload|), payload);
  }

  /** Decoding an audio header followed by a payload gives back the fields and at most `length` payload bytes. */
  lemma AudioDatagramDecodes(sequence: uint32, timeMs: int64, length: uint16, payload: seq<uint8>)
    ensures ParseAudioHeader(UdpStream.EncodeAudioHeader(sequence, timeMs, length) + payload)
      == Some(Parsed(AudioHeader(AUDIO_PACKAGE, sequence, AsUnsigned64(timeMs), length),
                     if length <= |payload| then payload[..length] else payload))
  {
    var h := UdpStream.EncodeAudioHeader(sequence, timeMs, length);
    AudioHeaderPrefix(h, payload);
    if length <= |payload| {
      assert (h + payload)[HEADER_SIZE..HEADER_SIZE + length] == payload[..length];
    } else {
      assert (h + payload)[HEADER_SIZE..] == payload;
    }
  }

  /** The audio header decoded from a datagram depends only on its first 15 bytes. */
  lemma AudioHeaderPrefix(h: seq<uint8>, payload: seq<uint8>)
    requires |h| == HEADER_SIZE
    ensures var d := h + payload;
      && ParseAudioHeader(d).value.header == ParseAudioHeader(h).value.header
      && ParseAudioHeader(d).value.payload == SliceFrom(d, HEADER_SIZE, ParseAudioHeader(h).value.header.length)
  {
    var d := h + payload;
    assert d[1..5] == h[1..5] && d[5..13] == h[5..13] && d[13..15] == h[13..15];
  }

  /** Decoding a header the video manager writes, followed by its payload, gives back every field. */
  lemma VideoDatagramDecodes(frameId: uint32, timeMs: int64, length: uint16, packetSeq: uint16, total: uint16,
                             payload: seq<uint8>)
    requires |payload| == length
    ensures ParseVideoHeader(VideoManager.EncodeVideoHeader(frameId, timeMs, length, packetSeq, total) + payload)
      == Some(Parsed(VideoHeader(VIDEO_PACKAGE, frameId, AsUnsigned64(timeMs), length, packetSeq, total), payload))
  {
    var h := VideoManager.EncodeVideoHeader(frameId, timeMs, length, packetSeq, total);
    VideoManager.VideoHeaderFields(frameId, timeMs, length, packetSeq, total);
    assert h[0] == 1;
    VideoHeaderPrefix(h, payload);
    assert (h + payload)[VIDEO_HEADER_SIZE..VIDEO_HEADER_SIZE + length] == payload;
  }

  /** The header decoded from a datagram depends only on its first 19 bytes. */
  lemma VideoHeaderPrefix(h: seq<uint8>, payload: seq<uint8>)
    requires |h| == VIDEO_HEADER_SIZE
    ensures var d := h + payload;
      && ParseVideoHeader(d).value.header == ParseVideoHeader(h).value.header
      && ParseVideoHeader(d).value.payload == SliceFrom(d, VIDEO_HEADER_SIZE, ParseVideoHeader(h).value.header.length)
  {
    var d := h + payload;
    assert d[1..5] == h[1..5] && d[5..13] == h[5..13] && d[13..15] == h[13..15];
    assert d[15..17] == h[15..17] && d[17..19] == h[17..19];
  }

  /**
   * Decoding fragment `k` of a frame gives back the frame id, the timestamp,
   * the fragment length, `k` and the fragment total (both as 16-bit values)
   * and exactly the fragment's bytes.
   */
  lemma VideoDatagramRoundTrip(frame: seq<uint8>, frameId: uint32, timeMs: int64, k: nat)
    requires k < VideoManager.TotalPackets(|frame|)
    ensures ParseVideoHeader(VideoManager.Packet(frame, frameId, timeMs, k))
      == Some(Parsed(VideoHeader(VIDEO_PACKAGE, frameId, AsUnsigned64(timeMs),
                                 VideoManager.FragmentSize(|frame|, k), k % 0x1_0000,
                                 VideoManager.TotalPackets(|frame|) % 0x1_0000),
                     VideoManager.Fragment(frame, k)))
  {
    var p := VideoManager.Packet(frame, frameId, timeMs, k);
    VideoManager.PacketHeaderFields(frame, frameId, timeMs, k);
    var size := VideoManager.FragmentSize(|frame|, k);
    var h := VideoManager.EncodeVideoHeader(frameId, timeMs, size, k % 0x1_0000,
                                            VideoManager.TotalPackets(|frame|) % 0x1_0000);
    var frag := VideoManager.Fragment(frame, k);
    assert p == h + frag by {
      assert p == p[..VIDEO_HEADER_SIZE] + VideoManager.Payload(p);
    }
    VideoDatagramDecodes(frameId, timeMs, size, k % 0x1_0000, VideoManager.TotalPackets(|frame|) % 0x1_0000, frag);
  }

  // ---------------------------------------------------------------------------
  // JPEG check before display

  /**
   * What `queue_video_frame_for_display` accepts: at least 10 bytes, starting
   * with the SOI marker FF D8 and ending with the EOI marker FF D9 (Table B.1
   * of ITU-T T.81).
   */
  predicate IsJpegFramed(f: seq<uint8>)
  {
    |f| >= 10 && f[0] == 0xFF && f[1] == 0xD8 && f[|f| - 2] == 0xFF && f[|f| - 1] == 0xD9
  }

  /** A body between the two markers is accepted exactly when it has at least 6 bytes. */
  lemma JpegMarkers(body: seq<uint8>)
    ensures IsJpegFramed([0xFF, 0xD8] + body + [0xFF, 0xD9]) <==> |body| >= 6
  {
    var f := [0xFF, 0xD8] + body + [0xFF, 0xD9];
    assert f[0] == 0xFF && f[1] == 0xD8 && f[|f| - 2] == 0xFF && f[|f| - 1] == 0xD9;
  }

  /** Anything accepted is such a body between the markers. */
  lemma JpegFramedShape(f: seq<uint8>)
    requires IsJpegFramed(f)
    ensures f == [0xFF, 0xD8] + f[2..|f| - 2] + [0xFF, 0xD9]
  {
  }

  // ---------------------------------------------------------------------------
  // Frame reassembly

  /** `video_frame_info[frame_id]`: the total of the frame's first fragment and the seqs seen. */
  datatype FrameInfo = FrameInfo(total: nat, received: set<nat>)

  /** The frame last handed to the display thread (`current_frame`, `current_frame_id`). */
  datatype Shown = Shown(frameId: nat, data: seq<uint8>)

  /**
   * The state of `video_processing_thread`: stored fragments per frame id
   * (`video_frames`), per-frame bookkeeping (`video_frame_info`), the frame
   * shown, and every frame assembled so far (`completed_frames` counts them).
   */
  datatype RState = RState(
    frames: map<nat, map<nat, seq<uint8>>>,
    info: map<nat, FrameInfo>,
    current: Option<Shown>,
    completed: seq<seq<uint8>>)

  /** Fragments and bookkeeping agree: the seqs seen are the seqs stored. */
  ghost predicate Consistent(st: RState)
  {
    && st.frames.Keys == st.info.Keys
    && forall id :: id in st.info ==> st.frames[id].Keys == st.info[id].received
  }

  /** `b''.join(parts[i] for i in range(n))`. */
  function Assemble(parts: map<nat, seq<uint8>>, n: nat): seq<uint8>
    requires forall i :: 0 <= i < n ==> i in parts
  {
    if n == 0 then [] else Assemble(parts, n - 1) + parts[n - 1]
  }

  /** The seqs `0..m-1`. */
  function Below(m: nat): (s: set<nat>)
    ensures forall k :: k in s <==> 0 <= k < m
    ensures |s| == m
  {
    if m == 0 then {} else
      assert m - 1 !in Below(m - 1);
      Below(m - 1) + {m - 1}
  }

  /** Whether `parts` holds every seq `0..total-1`. */
  predicate HasAll(parts: map<nat, seq<uint8>>, total: nat)
  {
    forall i :: 0 <= i < total ==> i in parts
  }

  /**
   * Storing fragment `sq` of frame `id`: the frame's bookkeeping is created
   * (with this fragment's total) if the id is new, the payload is stored
   * under its seq, overwriting a duplicate, and the seq is marked seen.
   */
  function Store(st: RState, id: nat, sq: nat, total: nat, payload: seq<uint8>): RState
  {
    st.(frames := StoreFrames(st.frames, id, sq, payload), info := StoreInfo(st.info, id, sq, total))
  }

  /** The fragment maps after storing fragment `sq` of frame `id`. */
  function StoreFrames(frames: map<nat, map<nat, seq<uint8>>>, id: nat, sq: nat, payload: seq<uint8>)
    : map<nat, map<nat, seq<uint8>>>
  {
    var parts: map<nat, seq<uint8>> := if id in frames then frames[id] else map[];
    frames[id := parts[sq := payload]]
  }

  /** The bookkeeping after seeing fragment `sq` of frame `id`. */
  function StoreInfo(info: map<nat, FrameInfo>, id: nat, sq: nat, total: nat): map<nat, FrameInfo>
  {
    var info0 := if id in info then info else info[id := FrameInfo(total, {})];
    info0[id := info0[id].(received := info0[id].received + {sq})]
  }

  /**
   * The completion check after storing into frame `id`: when the count of
   * distinct seqs seen equals `total` and every seq below it is stored, the
   * frame is joined in seq order, offered for display and forgotten. If a
   * seq below the total is missing, the join raises and the frame stays.
   */
  function Complete(st: RState, id: nat, total: nat): RState
    requires id in st.frames && id in st.info
  {
    var parts := st.frames[id];
    if |st.info[id].received| == total && HasAll(parts, total) then
      var f := Assemble(parts, total);
      RState(st.frames - {id}, st.info - {id}, if IsJpegFramed(f) then Some(Shown(id, f)) else st.current,
             st.completed + [f])
    else st
  }

  /** A decoded video datagram. */
  function Receive(st: RState, h: VideoHeader, payload: seq<uint8>): RState
  {
    Complete(Store(st, h.frameId, h.packetSeq, h.totalPackets, payload), h.frameId, h.totalPackets)
  }

  /** One iteration of `video_processing_thread` on datagram `data`; anything but video is dropped. */
  function Step(st: RState, data: seq<uint8>): RState
  {
    var p := ParseVideoHeader(data);
    if p.None? || p.value.header.kind != VIDEO_PACKAGE then st
    else Receive(st, p.value.header, p.value.payload)
  }

  /** Reassembly keeps the stored fragments and the bookkeeping in agreement. */
  lemma StepConsistent(st: RState, data: seq<uint8>)
    requires Consistent(st)
    ensures Consistent(Step(st, data))
  {
    var p := ParseVideoHeader(data);
    if p.Some? && p.value.header.kind == VIDEO_PACKAGE {
      var h := p.value.header;
      var st1 := Store(st, h.frameId, h.packetSeq, h.totalPackets, p.value.payload);
      assert Consistent(st1);
    }
  }

  /**
   * Fragment `sq` completes frame `id` exactly when, once it is stored, the
   * frame has as many distinct seqs as `total` and all of `0..total-1`; the
   * frame is then the fragments joined in seq order and both maps forget it.
   * Otherwise nothing is emitted and the fragment is kept.
   */
  lemma CompletionRule(st: RState, h: VideoHeader, payload: seq<uint8>)
    requires Consistent(st)
    ensures var id := h.frameId;
      var parts := (if id in st.frames then st.frames[id] else map[])[h.packetSeq := payload];
      var st' := Receive(st, h, payload);
      var done := |parts.Keys| == h.totalPackets && HasAll(parts, h.totalPackets);
      && (|st'.completed| == |st.completed| + 1 <==> done)
      && (done ==> st'.completed[|st.completed|] == Assemble(parts, h.totalPackets)
                   && id !in st'.frames && id !in st'.info)
      && (!done ==> st'.completed == st.completed && st'.frames[id] == parts
                    && st'.info[id].received == parts.Keys)
  {
    var id := h.frameId;
    var st1 := Store(st, id, h.packetSeq, h.totalPackets, payload);
    assert st1.frames[id].Keys == st1.info[id].received;
  }

  /** A fragment seen before does not raise the count of distinct seqs. */
  lemma DuplicateNotCounted(st: RState, h: VideoHeader, payload: seq<uint8>)
    requires Consistent(st)
    requires h.frameId in st.info && h.packetSeq in st.info[h.frameId].received
    requires |st.info[h.frameId].received| < h.totalPackets
    ensures var st' := Receive(st, h, payload);
      st'.completed == st.completed && st'.info[h.frameId].received == st.info[h.frameId].received
  {
    var st1 := Store(st, h.frameId, h.packetSeq, h.totalPackets, payload);
    assert st1.info[h.frameId].received == st.info[h.frameId].received;
  }

  /** The reassembler of `video_processing_thread`. */
  class Reassembler {
    var frames: map<nat, map<nat, seq<uint8>>>
    var info: map<nat, FrameInfo>
    var current: Option<Shown>
    var completed: seq<seq<uint8>>

    function State(): RState
      reads this
    {
      RState(frames, info, current, completed)
    }

    constructor ()
      ensures State() == RState(map[], map[], None, [])
    {
      frames, info, current, completed := map[], map[], None, [];
    }

    /** `queue_video_frame_for_display`: always True; shows only JPEG-framed data. */
    method QueueForDisplay(f: seq<uint8>, id: nat) returns (ok: bool)
      modifies this
      ensures ok
      ensures current == if IsJpegFramed(f) then Some(Shown(id, f)) else old(current)
      ensures frames == old(frames) && info == old(info) && completed == old(completed)
    {
      if |f| < 10 {
        return true;
      }
      var hasHeader := f[0] == 0xFF && f[1] == 0xD8;
      var hasFooter := f[|f| - 2] == 0xFF && f[|f| - 1] == 0xD9;
      if !hasHeader {
        return true;
      }
      if !hasFooter {
        return true;
      }
      current := Some(Shown(id, f));
      ok := true;
    }

    /** Stores fragment `sq` of frame `id` and marks it seen. */
    method StorePayload(id: nat, sq: nat, total: nat, payload: seq<uint8>)
      modifies this
      ensures State() == Store(old(State()), id, sq, total, payload)
    {
      if id !in info {
        info := info[id := FrameInfo(total, {})];
      }
      var parts := if id in frames then frames[id] else map[];
      frames := frames[id := parts[sq := payload]];
      info := info[id := info[id].(received := info[id].received + {sq})];
    }

    /** Joins, shows and forgets frame `id` once all its `total` fragments are stored. */
    method CheckComplete(id: nat, total: nat)
      requires id in frames && id in info
      modifies this
      ensures State() == Complete(old(State()), id, total)
    {
      if |info[id].received| == total {
        if forall i :: 0 <= i < total ==> i in frames[id] {
          var f := Assemble(frames[id], total);
          var _ := QueueForDisplay(f, id);
          completed := completed + [f];
          frames := frames - {id};
          info := info - {id};
        }
      }
    }

    /** One datagram received on the video port. */
    method OnDatagram(data: seq<uint8>)
      modifies this
      ensures State() == Step(old(State()), data)
    {
      var p := ParseVideoHeader(data);
      if p.None? || p.value.header.kind != VIDEO_PACKAGE {
        return;
      }
      var h := p.value.header;
      StorePayload(h.frameId, h.packetSeq, h.totalPackets, p.value.payload);
      CheckComplete(h.frameId, h.totalPackets);
    }
  }

  // ---------------------------------------------------------------------------
  // End to end: a frame sent by the video manager is reassembled

  /** Feeding datagrams one after the other. */
  function Feed(st: RState, ds: seq<seq<uint8>>): RState
  {
    if ds == [] then st else Step(Feed(st, ds[..|ds| - 1]), ds[|ds| - 1])
  }

  /** The payloads `0..m-1` by seq. */
  function PartsBelow(frags: seq<seq<uint8>>, m: nat): (parts: map<nat, seq<uint8>>)
    requires m <= |frags|
    ensures parts.Keys == Below(m)
    ensures forall k :: k in parts ==> parts[k] == frags[k]
  {
    map k | k in Below(m) :: frags[k]
  }

  /** The state while the payloads `0..m-1` of frame `id` are stored. */
  function Partial(st: RState, frags: seq<seq<uint8>>, id: nat, m: nat): RState
    requires m <= |frags|
  {
    st.(frames := st.frames[id := PartsBelow(frags, m)], info := st.info[id := FrameInfo(|frags|, Below(m))])
  }

  /** The state after the whole frame: offered for display and counted, maps as before. */
  function Delivered(st: RState, id: nat, f: seq<uint8>): RState
  {
    st.(current := if IsJpegFramed(f) then Some(Shown(id, f)) else st.current, completed := st.completed + [f])
  }

  /** One more payload extends the stored map and the seqs seen by that seq. */
  lemma PartsBelowExtend(frags: seq<seq<uint8>>, m: nat)
    requires m < |frags|
    ensures PartsBelow(frags, m)[m := frags[m]] == PartsBelow(frags, m + 1)
    ensures Below(m) + {m} == Below(m + 1)
  {
    assert PartsBelow(frags, m).Keys + {m} == PartsBelow(frags, m + 1).Keys;
  }

  /** Storing the first payload of a frame id not in use creates its entries. */
  lemma StoreFirst(st: RState, frags: seq<seq<uint8>>, id: nat)
    requires 0 < |frags|
    requires id !in st.frames && id !in st.info
    ensures Store(st, id, 0, |frags|, frags[0]) == Partial(st, frags, id, 1)
  {
    StoreFirstFrames(st.frames, frags, id);
    StoreFirstInfo(st.info, frags, id);
  }

  lemma StoreFirstFrames(frames: map<nat, map<nat, seq<uint8>>>, frags: seq<seq<uint8>>, id: nat)
    requires 0 < |frags| && id !in frames
    ensures StoreFrames(frames, id, 0, frags[0]) == frames[id := PartsBelow(frags, 1)]
  {
    assert PartsBelow(frags, 1) == map[0 := frags[0]];
  }

  lemma StoreFirstInfo(info: map<nat, FrameInfo>, frags: seq<seq<uint8>>, id: nat)
    requires 0 < |frags| && id !in info
    ensures StoreInfo(info, id, 0, |frags|) == info[id := FrameInfo(|frags|, Below(1))]
  {
    assert Below(1) == {0};
  }

  /** Storing payload `m` after payloads `0..m-1` extends both entries by seq `m`. */
  lemma StoreNext(st: RState, frags: seq<seq<uint8>>, id: nat, m: nat)
    requires 0 < m < |frags|
    ensures Store(Partial(st, frags, id, m), id, m, |frags|, frags[m]) == Partial(st, frags, id, m + 1)
  {
    StoreNextFrames(st.frames, frags, id, m);
    StoreNextInfo(st.info, frags, id, m);
  }

  lemma StoreNextFrames(frames: map<nat, map<nat, seq<uint8>>>, frags: seq<seq<uint8>>, id: nat, m: nat)
    requires m < |frags|
    ensures StoreFrames(frames[id := PartsBelow(frags, m)], id, m, frags[m]) == frames[id := PartsBelow(frags, m + 1)]
  {
    PartsBelowExtend(frags, m);
  }

  lemma StoreNextInfo(info: map<nat, FrameInfo>, frags: seq<seq<uint8>>, id: nat, m: nat)
    requires m < |frags|
    ensures StoreInfo(info[id := FrameInfo(|frags|, Below(m))], id, m, |frags|)
      == info[id := FrameInfo(|frags|, Below(m + 1))]
  {
    PartsBelowExtend(frags, m);
  }

  /** After payloads `0..m` with `m` not the last seq, the frame is not complete. */
  lemma CompleteEarly(st: RState, frags: seq<seq<uint8>>, id: nat, m: nat)
    requires m + 1 < |frags|
    ensures Complete(Partial(st, frags, id, m + 1), id, |frags|) == Partial(st, frags, id, m + 1)
  {
  }

  /** After every payload, the frame is joined and delivered, and its entries are gone. */
  lemma CompleteLast(st: RState, frags: seq<seq<uint8>>, id: nat)
    requires 0 < |frags|
    requires id !in st.frames && id !in st.info
    ensures Complete(Partial(st, frags, id, |frags|), id, |frags|)
      == Delivered(st, id, Assemble(PartsBelow(frags, |frags|), |frags|))
  {
    var st1 := Partial(st, frags, id, |frags|);
    assert HasAll(st1.frames[id], |frags|);
    RemoveAdded(st.frames, id, PartsBelow(frags, |frags|));
    RemoveAdded(st.info, id, FrameInfo(|frags|, Below(|frags|)));
  }

  /** Removing a key just added to a map that lacked it gives the map back. */
  lemma RemoveAdded<V>(mp: map<nat, V>, id: nat, v: V)
    requires id !in mp
    ensures mp[id := v] - {id} == mp
  {
  }

  /**
   * Datagram `k` decodes to header `k` and payload `k`, and header `k` is
   * the video header of seq `k` of frame `id`, out of `|ds|`.
   */
  predicate InOrder(ds: seq<seq<uint8>>, hs: seq<VideoHeader>, frags: seq<seq<uint8>>, id: nat)
  {
    && |ds| == |hs| == |frags|
    && (forall k :: 0 <= k < |ds| ==> ParseVideoHeader(ds[k]) == Some(Parsed(hs[k], frags[k])))
    && (forall k :: 0 <= k < |ds| ==>
          hs[k].kind == VIDEO_PACKAGE && hs[k].frameId == id && hs[k].packetSeq == k && hs[k].totalPackets == |ds|)
  }

  /**
   * Datagrams that decode to the fragments `0..n-1` of one frame id not in
   * use, all carrying total `n`, fed in order: nothing is emitted before the
   * last one, which emits the payloads joined in order and leaves the maps
   * as they were.
   */
  lemma {:induction false} FeedInOrder(st: RState, ds: seq<seq<uint8>>, hs: seq<VideoHeader>,
                                       frags: seq<seq<uint8>>, id: nat, m: nat)
    requires InOrder(ds, hs, frags, id) && 0 < m <= |ds|
    requires id !in st.frames && id !in st.info
    ensures m < |ds| ==> Feed(st, ds[..m]) == Partial(st, frags, id, m)
    ensures m == |ds| ==> Feed(st, ds[..m]) == Delivered(st, id, Assemble(PartsBelow(frags, |frags|), |frags|))
  {
    FeedDecoded(st, ds, hs[m - 1], frags[m - 1], m);
    if m == 1 {
      StoreFirst(st, frags, id);
    } else {
      FeedInOrder(st, ds, hs, frags, id, m - 1);
      StoreNext(st, frags, id, m - 1);
    }
    if m < |ds| {
      CompleteEarly(st, frags, id, m - 1);
    } else {
      CompleteLast(st, frags, id);
    }
  }

  /** Feeding one more datagram that decodes as video is receiving its header and payload. */
  lemma FeedDecoded(st: RState, ds: seq<seq<uint8>>, h: VideoHeader, payload: seq<uint8>, m: nat)
    requires 0 < m <= |ds|
    requires ParseVideoHeader(ds[m - 1]) == Some(Parsed(h, payload)) && h.kind == VIDEO_PACKAGE
    ensures Feed(st, ds[..m]) == Receive(Feed(st, ds[..m - 1]), h, payload)
  {
    assert ds[..m][..m - 1] == ds[..m - 1];
  }

  /** No proper prefix of the datagrams of one frame, in order, emits anything. */
  lemma FeedPrefix(st: RState, ds: seq<seq<uint8>>, hs: seq<VideoHeader>, frags: seq<seq<uint8>>, id: nat)
    requires InOrder(ds, hs, frags, id)
    requires id !in st.frames && id !in st.info
    ensures forall m :: 0 < m < |ds| ==> Feed(st, ds[..m]).completed == st.completed
  {
    forall m | 0 < m < |ds|
      ensures Feed(st, ds[..m]).completed == st.completed
    {
      FeedInOrder(st, ds, hs, frags, id, m);
    }
  }

  /** All the datagrams of one frame, in order, emit the payloads joined in order. */
  lemma FeedAll(st: RState, ds: seq<seq<uint8>>, hs: seq<VideoHeader>, frags: seq<seq<uint8>>, id: nat)
    requires InOrder(ds, hs, frags, id) && 0 < |ds|
    requires id !in st.frames && id !in st.info
    ensures Feed(st, ds) == Delivered(st, id, Assemble(PartsBelow(frags, |frags|), |frags|))
  {
    FeedInOrder(st, ds, hs, frags, id, |ds|);
    assert ds[..|ds|] == ds;
  }

  /** Where the first `m` fragments end in the frame. */
  function FragmentsEnd(frame: seq<uint8>, m: nat): nat
    requires m <= VideoManager.TotalPackets(|frame|)
  {
    if m == 0 then 0 else VideoManager.FragmentOffset(m - 1) + VideoManager.FragmentSize(|frame|, m - 1)
  }

  /** Joining the first `m` fragments gives the frame up to where they end. */
  lemma {:induction false} AssembleFragments(frame: seq<uint8>, parts: map<nat, seq<uint8>>, m: nat)
    requires m <= VideoManager.TotalPackets(|frame|)
    requires forall k :: 0 <= k < m ==> k in parts && parts[k] == VideoManager.Fragment(frame, k)
    ensures FragmentsEnd(frame, m) <= |frame|
    ensures Assemble(parts, m) == frame[..FragmentsEnd(frame, m)]
  {
    if m > 0 {
      AssembleFragments(frame, parts, m - 1);
      VideoManager.FragmentInFrame(|frame|, m - 1);
      if m > 1 {
        VideoManager.FragmentInFrame(|frame|, m - 2);
        assert FragmentsEnd(frame, m - 1) == VideoManager.FragmentOffset(m - 1);
      }
      var e0, e1 := FragmentsEnd(frame, m - 1), FragmentsEnd(frame, m);
      assert frame[..e1] == frame[..e0] + frame[e0..e1];
    }
  }

  /** The fragments of a frame, by index. */
  function Fragments(frame: seq<uint8>): (frags: seq<seq<uint8>>)
    ensures |frags| == VideoManager.TotalPackets(|frame|)
    ensures forall k :: 0 <= k < |frags| ==> frags[k] == VideoManager.Fragment(frame, k)
  {
    seq(VideoManager.TotalPackets(|frame|), k requires 0 <= k < VideoManager.TotalPackets(|frame|) =>
      VideoManager.Fragment(frame, k))
  }

  /** The headers the receiver decodes from the datagrams of a frame, by index. */
  function FrameHeaders(frame: seq<uint8>, id: uint32, timeMs: int64): (hs: seq<VideoHeader>)
    ensures |hs| == VideoManager.TotalPackets(|frame|)
    ensures forall k :: 0 <= k < |hs| ==>
      hs[k].kind == VIDEO_PACKAGE && hs[k].frameId == id && hs[k].packetSeq == k && hs[k].totalPackets == |hs|
  {
    var n := VideoManager.TotalPackets(|frame|);
    seq(n, k requires 0 <= k < n => VideoHeader(VIDEO_PACKAGE, id, AsUnsigned64(timeMs),
                                                VideoManager.FragmentSize(|frame|, k), k, n))
  }

  lemma SmallMod(x: nat)
    requires x < 0x1_0000
    ensures x % 0x1_0000 == x
  {
  }

  /** Datagram `k` of a frame with fewer than 2^16 fragments decodes to header `k` and fragment `k`. */
  lemma FrameDatagramDecodes(frame: seq<uint8>, id: uint32, timeMs: int64, k: nat)
    requires k < VideoManager.TotalPackets(|frame|) < 0x1_0000
    ensures ParseVideoHeader(VideoManager.FramePackets(frame, id, timeMs)[k])
      == Some(Parsed(FrameHeaders(frame, id, timeMs)[k], Fragments(frame)[k]))
  {
    var n := VideoManager.TotalPackets(|frame|);
    VideoManager.PacketsUpToIndex(frame, id, timeMs, n, k);
    assert VideoManager.FramePackets(frame, id, timeMs)[k] == VideoManager.Packet(frame, id, timeMs, k);
    VideoDatagramRoundTrip(frame, id, timeMs, k);
    SmallMod(k);
    SmallMod(n);
    assert FrameHeaders(frame, id, timeMs)[k]
      == VideoHeader(VIDEO_PACKAGE, id, AsUnsigned64(timeMs), VideoManager.FragmentSize(|frame|, k), k, n);
  }

  /** The datagrams of a frame with fewer than 2^16 fragments decode in order. */
  lemma FrameDatagramsInOrder(frame: seq<uint8>, id: uint32, timeMs: int64)
    requires VideoManager.TotalPackets(|frame|) < 0x1_0000
    ensures InOrder(VideoManager.FramePackets(frame, id, timeMs), FrameHeaders(frame, id, timeMs), Fragments(frame), id)
  {
    var ds := VideoManager.FramePackets(frame, id, timeMs);
    forall k | 0 <= k < |ds|
      ensures ParseVideoHeader(ds[k]) == Some(Parsed(FrameHeaders(frame, id, timeMs)[k], Fragments(frame)[k]))
    {
      FrameDatagramDecodes(frame, id, timeMs, k);
    }
  }

  /** Joining all the fragments of a frame gives the frame. */
  lemma AssembleFrame(frame: seq<uint8>)
    requires 0 < |frame|
    ensures var n := VideoManager.TotalPackets(|frame|);
      Assemble(PartsBelow(Fragments(frame), n), n) == frame
  {
    var n := VideoManager.TotalPackets(|frame|);
    VideoManager.TotalPacketsIsCeiling(|frame|);
    AssembleFragments(frame, PartsBelow(Fragments(frame), n), n);
    VideoManager.FragmentInFrame(|frame|, n - 1);
  }

  /**
   * All datagrams of a frame with fewer than 2^16 fragments, fed in order
   * from a state not using its id, emit exactly the frame and leave the
   * reassembly maps as they were.
   */
  lemma FrameRoundTrip(st: RState, frame: seq<uint8>, id: uint32, timeMs: int64)
    requires 0 < |frame| && VideoManager.TotalPackets(|frame|) < 0x1_0000
    requires id !in st.frames && id !in st.info
    ensures Feed(st, VideoManager.FramePackets(frame, id, timeMs)) == Delivered(st, id, frame)
  {
    VideoManager.TotalPacketsIsCeiling(|frame|);
    FrameDatagramsInOrder(frame, id, timeMs);
    FeedAll(st, VideoManager.FramePackets(frame, id, timeMs), FrameHeaders(frame, id, timeMs), Fragments(frame), id);
    AssembleFrame(frame);
  }

  /** Before the last datagram of a frame arrives, no frame is emitted. */
  lemma FrameNotEarly(st: RState, frame: seq<uint8>, id: uint32, timeMs: int64)
    requires VideoManager.TotalPackets(|frame|) < 0x1_0000
    requires id !in st.frames && id !in st.info
    ensures forall m :: 0 < m < VideoManager.TotalPackets(|frame|) ==>
      Feed(st, VideoManager.FramePackets(frame, id, timeMs)[..m]).completed == st.completed
  {
    FrameDatagramsInOrder(frame, id, timeMs);
    FeedPrefix(st, VideoManager.FramePackets(frame, id, timeMs), FrameHeaders(frame, id, timeMs), Fragments(frame), id);
  }

  // ---------------------------------------------------------------------------
  // Audio sequence gaps

  /** The gap test as written: a gap unless the new sequence is the old one plus 1. */
  function GapAsWritten(prev: Option<nat>, sequence: nat): bool
  {
    prev.Some? && prev.value + 1 != sequence
  }

  /** The sender's sequence counter is 32 bits wide; after 2^32 - 1 it sends 0. */
  lemma GapAsWrittenAtWrap()
    ensures Wrap32(0xFFFF_FFFF + 1) == 0
    ensures GapAsWritten(Some(0xFFFF_FFFF), Wrap32(0xFFFF_FFFF + 1))
  {
  }

  /** The intended gap test: successor modulo 2^32. */
  function Gap(prev: Option<nat>, sequence: nat): bool
  {
    prev.Some? && Wrap32(prev.value + 1) != sequence
  }

  /** No gap is reported between consecutive writes, including across the wrap. */
  lemma GapOnlyOnLoss(prev: uint32, sequence: uint32)
    ensures !Gap(Some(prev), sequence) <==> sequence == Wrap32(prev + 1)
    ensures prev < 0xFFFF_FFFF ==> (Gap(Some(prev), sequence) <==> GapAsWritten(Some(prev), sequence))
  {
  }

  /** The audio half of the receiver: the last sequence seen and the datagrams echoed back. */
  class AudioMonitor {
    var last: Option<nat>
    var audioPackets: nat
    var echoed: seq<seq<uint8>>

    constructor ()
      ensures last == None && audioPackets == 0 && echoed == []
    {
      last, audioPackets, echoed := None, 0, [];
    }

    /**
     * One iteration of `audio_processing_thread`: an audio datagram is counted,
     * checked for a gap by the unbounded successor test as written, remembered and echoed to the ESP32; anything else
     * (including a datagram too short to decode) is dropped.
     */
    method OnDatagram(data: seq<uint8>) returns (gap: bool)
      modifies this
      ensures var p := ParseAudioHeader(data);
        if p.Some? && p.value.header.kind == AUDIO_PACKAGE then
          && gap == GapAsWritten(old(last), p.value.header.sequence)
          && last == Some(p.value.header.sequence)
          && audioPackets == old(audioPackets) + 1
          && echoed == old(echoed) + [data]
        else
          !gap && last == old(last) && audioPackets == old(audioPackets) && echoed == old(echoed)
    {
      gap := false;
      var p := ParseAudioHeader(data);
      if p.None? {
        return;
      }
      var h := p.value.header;
      if h.kind == AUDIO_PACKAGE {
        audioPackets := audioPackets + 1;
        gap := last.Some? && last.value + 1 != h.sequence;
        last := Some(h.sequence);
        echoed := echoed + [data];
      }
    }
  }
}
