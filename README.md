# Doorbell intercom core, modelled in Dafny

The system is an ESP32 video doorbell with an intercom. Phones or PCs
connect to it over TCP as control clients. One client at a time can take
the talk slot. The doorbell then streams microphone audio and camera frames
to that client over UDP, and plays back the audio the client sends.

The project models the parts of the firmware and of the Python test client
that decide what goes on the wire and how the shared state changes. There is
one Dafny module per source file:

- `Platform` (`platform.dfy`) holds the shared vocabulary: fixed-width
  integers, the `esp_err_t` values used, `Option`, and the little-endian
  byte layout that a `memcpy` of a host integer gives on the ESP32. Python's
  `struct` format `'<'` reads the same layout back.
- `UdpStream` (`udp_stream.dfy`) is the ESP-ADF UDP element. It covers the
  15-byte audio header, open and close, the reader's timeout and error
  mapping, and the writer's truncation, shared sequence number and send
  failure. It also covers the `process` step that outputs silence on a read
  timeout.
- `VideoManager` (`video_manager.dfy`) is the video streamer. It covers the
  19-byte video header and the split of a JPEG frame into fragments of at
  most 1381 bytes. It proves that the fragments cover the frame in order. It
  also covers the start/stop/streaming-task state machine.
- `AudioPipelineManager` (`audio_pipeline_manager.dfy`) builds the send
  pipeline (I2S microphone to UDP writer) and the receive pipeline (UDP
  reader to I2S speaker), and tears them down. The ESP-ADF calls are
  recorded as a trace.
- `Commands` (`commands.dfy`) is the command vocabulary of the control
  channel and its 4-byte wire form, as both the ESP32 and the client see it.
- `DeviceManager` (`device_manager.dfy`) is the session coordinator. It
  covers the client table, the single talk slot, command dispatch and the
  media start/stop it triggers, client cleanup and the doorbell broadcast.
- `Receiver` (`receiver.dfy`) is the receiving side of `audio_video_test.py`.
  It covers header parsing, video frame reassembly, the JPEG check before
  display, and the audio gap check with echo. An end-to-end lemma shows
  that the datagrams the video manager sends for a frame are reassembled
  into exactly that frame.
- `PeripheralManager` (`peripheral_manager.dfy`) is the button callback. It
  covers the doorbell button with its 5 s rate limit and the WiFi reset
  button that acts on a press of at least 3 s.
- `WifiProvisioning` (`wifi_provisioning.dfy`) covers the station retry
  machine, the provisioning HTTP server flags and the `/config` handler. It
  also covers loading and saving credentials in the `wifi_cred` NVS
  namespace.

Sockets, tasks, mutexes, the camera, the clock, NVS faults and the WiFi
driver are not modelled as code. What they return is a parameter of the
operation that calls them. What they are asked to do is recorded in a trace
field or returned to the caller.

Constants follow the code:
- `MAX_CLIENTS` = 5 and port 12345 (`device_manager.h`).
- Header lengths 15 and 19; `MAX_VIDEO_PACKET_SIZE` = 1400 (`video_manager.h`).
- Command values 0..6 and packet types AUDIO = 0 and VIDEO = 1 (the Python client).
- `max_connection_attempts` = 3 and buffer sizes 32/64 (`wifi_provisioning.c`, `wifi_provisioning.h`).
- The 3000 ms and 5000 ms button thresholds (`peripheral_manager.c`).

The comment in `video_manager.c` at line 24 gives the video packet type as
2. No header defines it, and the Python receiver accepts only 1, so the
model uses 1.

## Model

| member | source | states |
|---|---|---|
| Platform.Wrap32 | adf_components/udp_stream.c:225 | A `uint32_t` result is the value modulo 2^32, and equals the value when it fits |
| Platform.Wrap16 | adf_components/udp_stream.c:191 | A length stored in a `uint16_t` field is at most the length, and equals it below 2^16 |
| Platform.AsUnsigned64 | adf_components/udp_stream.c:190-196 | The bytes of a signed 64-bit timestamp read back unsigned: equal for t >= 0, t + 2^64 for t < 0 |
| Platform.DecodeEncode | adf_components/udp_stream.c:195-197 | Reading a little-endian field back gives the value copied into it |
| Platform.EncodeDecode | python_server/audio_video_test.py:72 | Re-encoding the value read from bytes gives back those bytes |
| Platform.EncodeInjective | adf_components/udp_stream.c:194-197 | Different values of one width have different little-endian encodings |
| UdpStream.EncodeAudioHeader | adf_components/udp_stream.c:187-198 | The header is 15 bytes: type AUDIO, then the sequence, the timestamp bit pattern and the length, each reading back as written |
| UdpStream.AudioHeaderInjective | adf_components/udp_stream.c:187-198 | Equal headers have equal sequence, timestamp and length |
| UdpStream.ReadTimeout | adf_components/udp_stream.c:130-138 | `portMAX_DELAY` becomes a 100 ms poll; any other wait becomes ticks times tick period (mod 2^32), split into seconds and microseconds |
| UdpStream.ClassifyRecv | adf_components/udp_stream.c:143-159 | A datagram gives its byte count; EAGAIN/EWOULDBLOCK gives exactly AEL_IO_TIMEOUT; any other error gives exactly AEL_IO_FAIL |
| UdpStream.ElementTaskStack | adf_components/udp_stream.c:280-284 | The element's task stack is the requested size, raised to the minimum when smaller |
| UdpStream.PayloadLength | adf_components/udp_stream.c:181-184 | A write sends the whole buffer, or the buffer length when longer, and never more than either |
| UdpStream.SequenceCounter.constructor | adf_components/udp_stream.c:166 | The shared writer sequence number starts at 0 |
| UdpStream.UdpStream.constructor | adf_components/udp_stream.c:266-306 | A new element keeps its configuration, is closed, has no socket, no status report and byte position 0 |
| UdpStream.UdpStream.Open | adf_components/udp_stream.c:47-85 | Open is a no-op when already open; a failed socket fails with no state change; a failed reader bind closes the socket and fails; otherwise the element is open on the new socket |
| UdpStream.UdpStream.Close | adf_components/udp_stream.c:87-113 | Closing an open element releases its socket, marks it closed and resets the byte position unless paused; a closed element is untouched; always ESP_OK |
| UdpStream.UdpStream.Read | adf_components/udp_stream.c:115-160 | Fails when not open, passes a negative length through, otherwise installs the computed timeout and returns the classified receive result, never more than the requested length (`recv` returns at most `len` bytes) |
| UdpStream.UdpStream.Write | adf_components/udp_stream.c:162-227 | The datagram is the header (shared sequence, timestamp, truncated length) followed by the truncated payload; the shared counter advances only after a successful send; ENOMEM is reported as success with the payload length; any other send error reports an output error and FAIL |
| UdpStream.UdpStream.Process | adf_components/udp_stream.c:229-254 | A negative length is returned; a read timeout outputs a zeroed buffer of the input length; a positive read outputs what was read and advances the byte position by what the output took; any other read result is returned with no output |
| UdpStream.ZeroFill | adf_components/udp_stream.c:239 | The first n bytes become 0 and the rest are unchanged |
| VideoManager.EncodeVideoHeader | esp32_firmware/main/video/video_manager.c:267-277 | The header is 19 bytes starting with the VIDEO type byte |
| VideoManager.VideoHeaderFields | esp32_firmware/main/video/video_manager.c:272-277 | Frame id, timestamp, length, packet seq and total each read back little-endian at their offsets |
| VideoManager.TotalPacketsIsCeiling | esp32_firmware/main/video/video_manager.c:253 | The fragment count is the ceiling of the frame length over 1381, and 0 only for an empty frame |
| VideoManager.FragmentInFrame | esp32_firmware/main/video/video_manager.c:261-264 | Every fragment is non-empty, at most 1381 bytes and inside the frame; all but the last are full and the last ends the frame |
| VideoManager.PacketsUpTo | esp32_firmware/main/video/video_manager.c:253-305 | The datagrams of the first n fragments number n |
| VideoManager.FramePackets | esp32_firmware/main/video/video_manager.c:253-305 | A frame yields one datagram per fragment |
| VideoManager.PacketsUpToIndex | esp32_firmware/main/video/video_manager.c:261-305 | Datagram k of any run is the datagram of fragment k, which starts inside the frame |
| VideoManager.PacketsUpToPrefix | esp32_firmware/main/video/video_manager.c:261-305 | A run stopped early is a prefix of the full run |
| VideoManager.PacketHeaderFields | esp32_firmware/main/video/video_manager.c:253-284 | Each datagram is at most 1400 bytes and carries the frame id, timestamp, total, its own length and its index, followed by its fragment |
| VideoManager.FragmentsCover | esp32_firmware/main/video/video_manager.c:261-284 | Fragments i onward concatenate to the frame from byte 1381*i |
| VideoManager.PayloadsFrom | esp32_firmware/main/video/video_manager.c:261-284 | The payloads of datagrams i onward are fragments i onward |
| VideoManager.FragmentsReassemble | esp32_firmware/main/video/video_manager.c:261-284 | Concatenating all payloads, in order, gives back the frame |
| VideoManager.FirstFailure | esp32_firmware/main/video/video_manager.c:297-304 | The first failing index: every earlier send succeeded and this one failed, or none failed |
| VideoManager.FirstFailureUnique | esp32_firmware/main/video/video_manager.c:297-304 | Any index with all earlier sends ok and itself failing is the first failure |
| VideoManager.SendPackets | esp32_firmware/main/video/video_manager.c:261-305 | Sends every datagram of the frame in order and stops after the first failed send, returning whether all succeeded |
| VideoManager.VideoStreamer.constructor | esp32_firmware/main/video/video_manager.c:131-134 | Not streaming, no socket, frame id 0, no task, no address |
| VideoManager.VideoStreamer.Start | esp32_firmware/main/video/video_manager.c:160-205 | ESP_OK and no change when already streaming; a failed socket fails with the destination unchanged; a failed task creation closes the socket and fails, with the destination already set to the client; otherwise streaming to the client on port 12346; the frame id is kept |
| VideoManager.VideoStreamer.Stop | esp32_firmware/main/video/video_manager.c:207-237 | When streaming: not streaming, task gone, socket released and reset; otherwise no change; always ESP_OK |
| VideoManager.VideoStreamer.SendFrame | esp32_firmware/main/video/video_manager.c:239-310 | INVALID_STATE when idle, FAIL without a capture; otherwise the frame id advances mod 2^32, the buffer is returned, and the datagrams sent are the frame's, in order, up to and including the first failed one |
| VideoManager.VideoStreamer.StreamingTaskStep | esp32_firmware/main/video/video_manager.c:141-158 | While streaming, sends one frame and goes on; otherwise ends and clears its handle |
| AudioPipelineManager.WriterConfig | esp32_firmware/main/audio/audio_pipeline_manager.c:52-64 | The send pipeline's UDP element writes to the remote address on port 12345 with 324-byte buffers |
| AudioPipelineManager.ReaderConfig | esp32_firmware/main/audio/audio_pipeline_manager.c:83-89 | The receive pipeline's UDP element reads with the same address, port and sizes |
| AudioPipelineManager.BuiltCount | esp32_firmware/main/audio/audio_pipeline_manager.c:26-116 | The number of constructors that succeed before the first NULL |
| AudioPipelineManager.InitUdpConfigs | esp32_firmware/main/audio/audio_pipeline_manager.c:26-116 | Every UDP element built uses the writer or reader configuration; the writer is built exactly when the first two constructors succeed, the reader exactly when the first four do |
| AudioPipelineManager.SendUdpConfig | esp32_firmware/main/audio/audio_pipeline_manager.c:26-74 | The send half builds only the writer configuration, and does so exactly when the pipeline and reader exist |
| AudioPipelineManager.RecvUdpConfig | esp32_firmware/main/audio/audio_pipeline_manager.c:77-116 | The receive half builds only the reader configuration, and does so exactly when its pipeline exists |
| AudioPipelineManager.CleanupUndoesInit | esp32_firmware/main/audio/audio_pipeline_manager.c:122-177 | After a complete init, cleanup unregisters every element init registered, from the same pipeline |
| AudioPipelineManager.CleanupOnlyUndoesInit | esp32_firmware/main/audio/audio_pipeline_manager.c:122-177 | After a complete init, cleanup unregisters only elements init registered with that pipeline |
| AudioPipelineManager.BothPipelinesUndone | esp32_firmware/main/audio/audio_pipeline_manager.c:17-177 | Init is the send half then the receive half, cleanup is their two teardowns, and each teardown undoes its half |
| AudioPipelineManager.InitHandles | esp32_firmware/main/audio/audio_pipeline_manager.c:26-116 | Init overwrites every handle slot up to and including the first NULL and keeps the others |
| AudioPipelineManager.AfterCleanup | esp32_firmware/main/audio/audio_pipeline_manager.c:132-171 | Cleanup sets both pipelines to NULL and keeps the element handles |
| AudioPipelineManager.TeardownShape | esp32_firmware/main/audio/audio_pipeline_manager.c:132-171 | A non-NULL pipeline is terminated once, stripped of exactly its non-NULL elements and deinitialised once; a NULL one is untouched |
| AudioPipelineManager.CleanupIdempotent | esp32_firmware/main/audio/audio_pipeline_manager.c:122-177 | A second cleanup makes no call and changes no handle |
| AudioPipelineManager.PipelineInfo.constructor | esp32_firmware/main/audio/audio_pipeline_manager.h:8-16 | A zeroed record: every handle NULL, remote address 0, no calls |
| AudioPipelineManager.InitSend | esp32_firmware/main/audio/audio_pipeline_manager.c:26-74 | Succeeds exactly when all three send handles are built; records the calls and stores each handle reached |
| AudioPipelineManager.InitRecv | esp32_firmware/main/audio/audio_pipeline_manager.c:77-116 | Succeeds exactly when all three receive handles are built; records the calls and stores each handle reached |
| AudioPipelineManager.Init | esp32_firmware/main/audio/audio_pipeline_manager.c:17-120 | INVALID_ARG for NULL; otherwise ESP_OK exactly when all six handles are built, else ESP_FAIL, with the init trace and handles |
| AudioPipelineManager.Teardown | esp32_firmware/main/audio/audio_pipeline_manager.c:132-150 | The calls of one pipeline's teardown |
| AudioPipelineManager.Cleanup | esp32_firmware/main/audio/audio_pipeline_manager.c:122-177 | A NULL record is left alone; otherwise the handles become AfterCleanup's, the cleanup calls are recorded and the remote address is 0 |
| Commands.Code | python_server/audio_video_test.py:21-28 | Every command but TALK_DID_NOT_END has a value, at most 6 |
| Commands.FromCode | python_server/audio_video_test.py:21-28 | Exactly the values 0..6 name a command |
| Commands.CodeRoundTrip | python_server/audio_video_test.py:21-28 | Values and commands correspond one to one |
| Commands.EncodeCommand | python_server/audio_video_test.py:280 | A command travels as 4 bytes |
| Commands.DecodeCommand | python_server/audio_video_test.py:286-289 | Exactly 4 bytes decode |
| Commands.CommandWireRoundTrip | python_server/audio_video_test.py:280-289 | Decoding an encoded command gives its value, and encoding a decoded 4-byte message gives the bytes |
| Commands.ReceivedCommand | esp32_firmware/main/control/device_manager.c:303-304 | What `recv` leaves in a zeroed `int` is a 32-bit signed value, equal to the client's value for 4 bytes below 2^31 |
| DeviceManager.TalkStep | esp32_firmware/main/control/device_manager.c:138-168 | A request is granted exactly when the slot is free and gives it to the requester; a release succeeds exactly for the holder and frees it; a refusal changes nothing |
| DeviceManager.HolderKeepsSlot | esp32_firmware/main/control/device_manager.c:138-168 | Without a release by the holder, every operation is refused and the holder stays |
| DeviceManager.StartMediaOrder | esp32_firmware/main/control/device_manager.c:183-227 | Audio init first, both pipelines run even when the first fails, then video; success only when all succeed; audio cleanup after a run or video failure only |
| DeviceManager.RequestTalkEffect | esp32_firmware/main/control/device_manager.c:254-264 | REQUEST_TALK is granted and starts media exactly when the slot is free; otherwise DENY_TALK and nothing else |
| DeviceManager.EndTalkEffect | esp32_firmware/main/control/device_manager.c:266-278 | END_TALK from the holder frees the slot, answers TALK_ENDED and stops media; otherwise TALK_DID_NOT_END and nothing else |
| DeviceManager.OtherCommandEffect | esp32_firmware/main/control/device_manager.c:280-291 | OPEN_DOOR is echoed; any other value is ignored; neither touches the slot or media |
| DeviceManager.FirstFree | esp32_firmware/main/control/device_manager.c:331-335 | The lowest unconnected slot, or -1 exactly when every slot is connected |
| DeviceManager.ConnectedSlots | esp32_firmware/main/control/device_manager.c:124-135 | Exactly the connected slots, in increasing order |
| DeviceManager.ConnectedSlotsCount | esp32_firmware/main/control/device_manager.c:124-135 | The broadcast sends once per connected slot |
| DeviceManager.Coordinator.constructor | esp32_firmware/main/control/device_manager.c:112-116 | Five empty slots, talk slot free, no audio client, remote 0 |
| DeviceManager.Coordinator.RequestTalkPermission | esp32_firmware/main/control/device_manager.c:138-151 | The holder and result are those of a talk request; nothing else changes |
| DeviceManager.Coordinator.ReleaseTalkPermission | esp32_firmware/main/control/device_manager.c:154-168 | The holder and result are those of a release; a release also marks the audio pipelines as unowned (active client -1) |
| DeviceManager.Coordinator.StopMedia | esp32_firmware/main/control/device_manager.c:170-180 | Audio cleanup then video stop; the remote address is reset |
| DeviceManager.Coordinator.StartMedia | esp32_firmware/main/control/device_manager.c:183-227 | Records the media calls and returns the result of a start for the client's address |
| DeviceManager.Coordinator.HandleCommand | esp32_firmware/main/control/device_manager.c:252-293 | The new holder, reply, media calls and audio state are those the command's effect gives |
| DeviceManager.Coordinator.Cleanup | esp32_firmware/main/control/device_manager.c:230-249 | The slot is emptied and its socket closed; when the client held the talk slot, media is stopped and the slot freed |
| DeviceManager.Coordinator.AddClient | esp32_firmware/main/control/device_manager.c:329-369 | The lowest free slot takes the client; a failed task frees it again; with no free slot nothing changes |
| DeviceManager.Coordinator.Accept | esp32_firmware/main/control/device_manager.c:417-427 | The client table becomes that of `_add_new_client` (the lowest free slot takes the client, marked free again if its task fails; no change when full); a client that cannot be added has its socket closed; talk slot, audio owner, remote address, media and replies unchanged |
| DeviceManager.Coordinator.BroadcastDoorbell | esp32_firmware/main/control/device_manager.c:124-135 | DOORBELL_RING is sent to exactly the connected slots, in order; the returned slots are those sends |
| DeviceManager.Coordinator.HandlerStep | esp32_firmware/main/control/device_manager.c:296-326 | A received command is dispatched with the reply, talk slot, audio owner, remote address and media calls of the command rule, no slot or socket changing, and the handler goes on while connected; a close or error empties only that slot, closes its socket, releases the talk slot and stops media when the client held it, sends no reply, and ends the handler task |
| Receiver.SliceFrom | python_server/audio_video_test.py:74 | A Python slice: at most `len` bytes from `from`, stopping at the end |
| Receiver.ParseAudioHeader | python_server/audio_video_test.py:69-83 | Fewer than 15 bytes give None; otherwise the fields and at most `length` payload bytes |
| Receiver.ParseVideoHeader | python_server/audio_video_test.py:49-67 | Fewer than 19 bytes give None; otherwise the fields and at most `length` payload bytes |
| Receiver.AudioDatagramRoundTrip | python_server/audio_video_test.py:69-83 | A datagram the UDP writer sends decodes to its sequence, timestamp bit pattern and length, and the payload sent |
| Receiver.AudioDatagramDecodes | python_server/audio_video_test.py:69-83 | An audio header followed by a payload decodes to its fields and the first `length` payload bytes |
| Receiver.AudioHeaderPrefix | python_server/audio_video_test.py:72-74 | The decoded audio header depends only on the first 15 bytes |
| Receiver.VideoDatagramDecodes | python_server/audio_video_test.py:49-67 | A video header followed by a payload decodes to every field and the payload |
| Receiver.VideoHeaderPrefix | python_server/audio_video_test.py:54-56 | The decoded video header depends only on the first 19 bytes |
| Receiver.VideoDatagramRoundTrip | python_server/audio_video_test.py:49-67 | Fragment k of a frame decodes to its frame id, timestamp, length, index, total and exactly its bytes |
| Receiver.JpegMarkers | python_server/audio_video_test.py:90-101 | A body between SOI and EOI is accepted exactly when it has at least 6 bytes |
| Receiver.JpegFramedShape | python_server/audio_video_test.py:90-101 | Anything accepted is such a body between the markers |
| Receiver.StepConsistent | python_server/audio_video_test.py:180-223 | Stored fragments and seen seqs stay in agreement |
| Receiver.CompletionRule | python_server/audio_video_test.py:200-223 | A fragment completes its frame exactly when the distinct seqs seen equal its total and all seqs below it are stored; the frame is then joined in seq order and forgotten; otherwise nothing is emitted |
| Receiver.DuplicateNotCounted | python_server/audio_video_test.py:207-211 | A repeated fragment does not raise the count of distinct seqs |
| Receiver.Reassembler.constructor | python_server/audio_video_test.py:182-183 | Empty maps, nothing shown or completed |
| Receiver.Reassembler.QueueForDisplay | python_server/audio_video_test.py:85-109 | Returns True; shows the frame only when it is JPEG-framed |
| Receiver.Reassembler.StorePayload | python_server/audio_video_test.py:200-208 | The state after storing the fragment |
| Receiver.Reassembler.CheckComplete | python_server/audio_video_test.py:211-223 | The state after the completion check |
| Receiver.Reassembler.OnDatagram | python_server/audio_video_test.py:185-223 | The state after one datagram on the video port |
| Receiver.PartsBelowExtend | python_server/audio_video_test.py:207-208 | One more payload extends the stored map and the seqs seen by that seq |
| Receiver.StoreFirst | python_server/audio_video_test.py:200-208 | The first payload of an unused frame id creates its entries |
| Receiver.StoreNext | python_server/audio_video_test.py:207-208 | Payload m after payloads 0..m-1 extends both entries by seq m |
| Receiver.CompleteEarly | python_server/audio_video_test.py:211 | Before the last payload, the frame is not complete |
| Receiver.CompleteLast | python_server/audio_video_test.py:211-223 | After the last payload, the frame is joined, delivered and its entries removed |
| Receiver.FeedInOrder | python_server/audio_video_test.py:180-223 | A frame's datagrams in order emit nothing before the last, which emits the joined payloads and leaves the maps as they were |
| Receiver.FeedPrefix | python_server/audio_video_test.py:180-223 | No proper prefix of a frame's datagrams emits anything |
| Receiver.FeedAll | python_server/audio_video_test.py:180-223 | All of a frame's datagrams emit the joined payloads |
| Receiver.AssembleFragments | python_server/audio_video_test.py:214 | Joining the first m fragments gives the frame up to where they end |
| Receiver.FrameDatagramDecodes | python_server/audio_video_test.py:188-194 | Datagram k of a frame decodes to header k and fragment k |
| Receiver.FrameDatagramsInOrder | python_server/audio_video_test.py:188-194 | A frame's datagrams decode in order |
| Receiver.AssembleFrame | python_server/audio_video_test.py:214 | Joining all fragments of a frame gives the frame |
| Receiver.FrameRoundTrip | python_server/audio_video_test.py:180-223 | All datagrams the video manager sends for a frame, fed in order, emit exactly that frame |
| Receiver.FrameNotEarly | python_server/audio_video_test.py:211 | Before the last datagram of a frame, no frame is emitted |
| Receiver.GapAsWrittenAtWrap | python_server/audio_video_test.py:161 | The gap test as written reports a gap from 2^32-1 to 0 |
| Receiver.GapOnlyOnLoss | python_server/audio_video_test.py:161 | The corrected test reports no gap between consecutive writer sequence numbers, across the wrap too |
| Receiver.AudioMonitor.constructor | python_server/audio_video_test.py:144 | No sequence seen, nothing echoed |
| Receiver.AudioMonitor.OnDatagram | python_server/audio_video_test.py:147-165 | An audio datagram is counted, checked for a gap with the unbounded successor test as written (`GapAsWritten`), remembered and echoed as received; anything else is dropped |
| PeripheralManager.InitialButtons | esp32_firmware/main/peripheral/peripheral_manager.c:65-67 | Every start tick 0, nothing pressed, no ring |
| PeripheralManager.Elapsed | esp32_firmware/main/peripheral/peripheral_manager.c:81 | Elapsed milliseconds in `uint32_t` arithmetic, exact when nothing wraps |
| PeripheralManager.NegativeIdPassesGuard | esp32_firmware/main/peripheral/peripheral_manager.c:72 | The check as written lets id -1 through although it is no index |
| PeripheralManager.ValidButtonIsIndex | esp32_firmware/main/peripheral/peripheral_manager.c:72 | The corrected check admits exactly the guarded ids that are non-negative |
| PeripheralManager.Callback | esp32_firmware/main/peripheral/peripheral_manager.c:63-110 | Keeps the state well formed and makes at most one call |
| PeripheralManager.Release | esp32_firmware/main/peripheral/peripheral_manager.c:77-106 | Keeps the state well formed and makes at most one call |
| PeripheralManager.ClickRecords | esp32_firmware/main/peripheral/peripheral_manager.c:70-76 | A click on a valid key records the tick and marks it pressed; nothing else changes |
| PeripheralManager.ReleaseWithoutClick | esp32_firmware/main/peripheral/peripheral_manager.c:79 | A release of an unpressed or invalid key does nothing |
| PeripheralManager.DoorbellRule | esp32_firmware/main/peripheral/peripheral_manager.c:85-92 | Releasing the doorbell key rings exactly when no ring was recorded or 5000 ms passed, then records the tick; the key is unmarked either way |
| PeripheralManager.ResetRule | esp32_firmware/main/peripheral/peripheral_manager.c:93-102 | Releasing the reset key clears provisioning exactly when the press lasted at least 3000 ms |
| PeripheralManager.Run | esp32_firmware/main/peripheral/peripheral_manager.c:63-110 | A run of events keeps the state well formed |
| PeripheralManager.Rings | esp32_firmware/main/peripheral/peripheral_manager.c:89 | The rings among the calls |
| PeripheralManager.CallbackRing | esp32_firmware/main/peripheral/peripheral_manager.c:85-91 | One event rings only when allowed; the ring tick changes only by a ring |
| PeripheralManager.RingsSpaced | esp32_firmware/main/peripheral/peripheral_manager.c:85-91 | Over any run, every ring is the first or comes at least 5000 ms after the previous one, and the state holds the last ring's tick |
| PeripheralManager.RingsAppend | esp32_firmware/main/peripheral/peripheral_manager.c:89 | The rings of a longer run extend the rings of the shorter one |
| PeripheralManager.ButtonCallback.constructor | esp32_firmware/main/peripheral/peripheral_manager.c:65-67 | Static arrays zeroed, no calls |
| PeripheralManager.ButtonCallback.OnEvent | esp32_firmware/main/peripheral/peripheral_manager.c:63-110 | Updates the arrays and ring tick as the callback rule says, records its calls, returns ESP_OK |
| WifiProvisioning.Truncate | esp32_firmware/main/network/wifi_provisioning.c:330-335 | `strncpy` into a zeroed buffer keeps a prefix of at most n bytes, the whole string when it fits |
| WifiProvisioning.ServerStartStop | esp32_firmware/main/network/wifi_provisioning.c:513-562 | Starting a running server is a no-op; a start succeeds exactly when the server then runs and is active; stopping leaves it stopped and inactive; a second stop changes nothing |
| WifiProvisioning.DisconnectWithoutCredentials | esp32_firmware/main/network/wifi_provisioning.c:50-55 | A disconnect without credentials changes nothing |
| WifiProvisioning.LostConnectionRestarts | esp32_firmware/main/network/wifi_provisioning.c:56-59 | After GOT_IP the state is connected and complete and the credentials are saved; a later disconnect only restarts the device |
| WifiProvisioning.DisconnectKeepsBound | esp32_firmware/main/network/wifi_provisioning.c:65-91 | The attempt count stays between 0 and 3 and only grows by one, with a retry |
| WifiProvisioning.RetriesThenFails | esp32_firmware/main/network/wifi_provisioning.c:65-91 | n disconnects bring the attempts to min(a + n, 3), retrying meanwhile; the connection fails exactly when a disconnect came at 3 attempts |
| WifiProvisioning.BodyReceivedRule | esp32_firmware/main/network/wifi_provisioning.c:300-308 | Positive receive results always complete the body; a failing first result with bytes missing fails it |
| WifiProvisioning.ConfigRejects | esp32_firmware/main/network/wifi_provisioning.c:293-327 | A body of 1024 bytes or more, an incomplete body, bad JSON or no string ssid is refused with ESP_FAIL and the matching 414, 500 or 400 reply, and changes nothing; the corrected handler refuses it the same way |
| WifiProvisioning.ClearedOnExit | esp32_firmware/main/network/wifi_provisioning.c:363 | The wait with clear-on-exit leaves neither the connected nor the fail bit set |
| WifiProvisioning.ConfigAnswersAsWritten | esp32_firmware/main/network/wifi_provisioning.c:330-386 | As written, any other body stores its credentials and configures the station, and the handler answers success, with the send result, exactly when `esp_wifi_connect` succeeded; otherwise ESP_FAIL and the connect-failed reply |
| WifiProvisioning.SuccessAfterFailAsWritten | esp32_firmware/main/network/wifi_provisioning.c:363-384 | As written, a wait ended by the fail bit still gives the success reply and marks it sent; the corrected handler answers with the credentials error |
| WifiProvisioning.ConfigAccepts | esp32_firmware/main/network/wifi_provisioning.c:330-386 | With the fail test on the bits the wait returned, any other body stores its credentials, configures the station, and reports success (and marks it sent) exactly when the connection started and the fail bit did not end the wait; it agrees with the handler as written whenever the fail bit did not end the wait |
| WifiProvisioning.AcceptRule | esp32_firmware/main/network/wifi_provisioning.c:330-341 | The stored SSID and password are prefixes of at most 31 and 63 bytes, whole when they fit; the retry machine restarts |
| WifiProvisioning.AcceptedCredentialsRetry | esp32_firmware/main/network/wifi_provisioning.c:330-341 | Credentials accepted by the handler get three retries before the connection fails |
| WifiProvisioning.ConnectWithLoaded | esp32_firmware/main/network/wifi_provisioning.c:668-697 | Loaded credentials reach the state unchanged and the retry count restarts |
| WifiProvisioning.QueryBlob | esp32_firmware/main/network/wifi_provisioning.c:155-165 | A length query of a stored key without a fault gives its length |
| WifiProvisioning.ReadBlob | esp32_firmware/main/network/wifi_provisioning.c:180-185 | A successful read gives the stored blob, which fits the room |
| WifiProvisioning.Load | esp32_firmware/main/network/wifi_provisioning.c:123-224 | A successful load has a non-empty SSID under 32 bytes and a password under 64; a failed one has no password |
| WifiProvisioning.LoadPassword | esp32_firmware/main/network/wifi_provisioning.c:192-223 | Keeps the SSID; ESP_OK with a password under 64 bytes, or INVALID_SIZE with none |
| WifiProvisioning.LoadFromBlobs | esp32_firmware/main/network/wifi_provisioning.c:123-224 | With no faults: no or empty SSID is NOT_FOUND, 32 bytes or more INVALID_SIZE; no or empty password is an open network; 64 bytes or more INVALID_SIZE |
| WifiProvisioning.LoadFailures | esp32_firmware/main/network/wifi_provisioning.c:123-224 | An open failure is returned as is; a failed second password read still loads as an open network |
| WifiProvisioning.SaveAsWritten | esp32_firmware/main/network/wifi_provisioning.c:227-251 | ESP_OK exactly when open, writes and commit succeed; only then the namespace changes; the SSID is stored, and the password only when non-empty |
| WifiProvisioning.StalePasswordAsWritten | esp32_firmware/main/network/wifi_provisioning.c:240-247 | Saving an open network over earlier credentials, the next load gives the new SSID with the old password |
| WifiProvisioning.Save | esp32_firmware/main/network/wifi_provisioning.c:227-251 | ESP_OK exactly when every call succeeds, and only then the namespace changes |
| WifiProvisioning.SaveLoadRoundTrip | esp32_firmware/main/network/wifi_provisioning.c:123-251 | Credentials the handler accepts load back exactly after a successful save, whatever was stored before |
| WifiProvisioning.CredentialsBuffer.constructor | esp32_firmware/main/network/wifi_provisioning.h:17-20 | An empty credentials buffer |
| WifiProvisioning.LoadCredentials | esp32_firmware/main/network/wifi_provisioning.c:123-224 | INVALID_ARG for NULL; otherwise the result and buffer contents are those of the load |
| WifiProvisioning.Provisioning.constructor | esp32_firmware/main/network/wifi_provisioning.c:20-40 | The initial state: no credentials, no attempts, server stopped, no effects |
| WifiProvisioning.Provisioning.StartProvisioningServer | esp32_firmware/main/network/wifi_provisioning.c:513-551 | The server flags and result are those of a start; nothing else changes |
| WifiProvisioning.Provisioning.StopProvisioningServer | esp32_firmware/main/network/wifi_provisioning.c:554-562 | The server flags are those of a stop; nothing else changes |
| WifiProvisioning.Provisioning.OnStaDisconnected | esp32_firmware/main/network/wifi_provisioning.c:50-92 | State, server flags and requested effects follow the disconnect rule |
| WifiProvisioning.Provisioning.OnGotIp | esp32_firmware/main/network/wifi_provisioning.c:103-119 | State and effects follow the GOT_IP rule; server flags unchanged |
| WifiProvisioning.Provisioning.ReceiveBody | esp32_firmware/main/network/wifi_provisioning.c:300-308 | The receive loop succeeds exactly when the body arrives whole |
| WifiProvisioning.Provisioning.AcceptCredentials | esp32_firmware/main/network/wifi_provisioning.c:330-341 | The state becomes the accepted credentials with the retry machine reset |
| WifiProvisioning.Provisioning.ConfigHandler | esp32_firmware/main/network/wifi_provisioning.c:286-387 | Result, reply, state and effects follow the handler as written (`Config`): every call it makes is recorded, including a failed `esp_wifi_connect` and the wait's clear-on-exit; server flags unchanged |
| WifiProvisioning.Provisioning.ConnectAndAnswer | esp32_firmware/main/network/wifi_provisioning.c:346-386 | Result, reply and effects follow the tail of the handler as written (`Connected`): configure, call `esp_wifi_connect` (recorded whether or not it succeeds), and on success wait clearing both bits, then read the fail bit, which is no longer set |
| WifiProvisioning.Provisioning.ConnectWithCredentials | esp32_firmware/main/network/wifi_provisioning.c:668-697 | State and effects follow the connect rule; server flags unchanged |

## Left out

- Sockets, tasks, mutexes, event groups, timers, the camera and the WiFi driver are not executed. Their results are parameters and their requests are recorded effects. Concurrency between tasks is not modelled: each mutex-guarded function is one atomic step.
- The ESP-ADF constants (`AEL_IO_*`, `portMAX_DELAY`, the minimum task stack size) come from ESP-ADF and FreeRTOS headers, which are not part of this model. They are constants with the usual values.
- The I2S stream parameters of the audio pipelines (sample rate, bits, channels) are not modelled. Only the UDP element configuration and the order of library calls are.
- `TALK_DID_NOT_END` has no value on the client side, so `Commands.Code` gives None for it. The coordinator's reply is recorded as that command.
- VideoManager.FrameFits: a frame must be short enough that counting its fragments does not overflow the 32-bit `size_t`. Camera frames are at most `MAX_FRAME_SIZE` bytes, far below that.
- Statistics counters, logging, console output and timing in the Python client are not modelled. Neither are `display_frame` (OpenCV) and the main thread's display loop.
- The `audio_store` pruning in the audio thread is not modelled, because nothing in the thread ever writes to `audio_store`.
- A Python exception in a receive thread drops the datagram. The parsers return None for the `struct.error` case; other exceptions (socket errors) are not modelled.
- PeripheralManager.Callback: a negative button id (which the C guard lets through, see Findings) does nothing in the model instead of indexing outside the arrays.
- WifiProvisioning.Load: when the password length query fails without writing `password_len`, the variable is uninitialised in C. The model takes its value as the `passwordLeftover` fault parameter.
- NVS writes are modelled as staying only when the commit succeeds. C strings are byte sequences without a NUL.
- `device_manager_init`, `video_manager_init` (camera configuration), `video_manager_cleanup`, `peripheral_manager_init`, `delayed_provisioning_cleanup`, `scan_handler`, `start_ap_mode` (recorded as an effect only), `clear_wifi_provisioning` (recorded as an effect), `start_wifi_provisioning` and `display_wifi_credentials` are not modelled. They are set-up or I/O code outside the modelled core.
- `ESP_ERROR_CHECK` aborts are not modelled.
- The `/config` handler's wait is one step: `woke` stands for the bits that ended it. A fail bit set again by the event handler between the wait's return and the read at wifi_provisioning.c:365 is not modelled; after a failure the driver is not asked to reconnect, so no new disconnect event follows.
- mDNS and `main.c` are not part of this model.

## Findings

| source | as written | input that shows it | evidently intended | confidence | as-written member | corrected member |
|---|---|---|---|---|---|---|
| python_server/audio_video_test.py:161 | `seq + 1 != header_info['sequence']` compares unbounded Python integers | previous sequence 4294967295, next 0 (the writer's `uint32_t` counter wraps) | no gap between consecutive sequence numbers modulo 2^32 | not executed | Receiver.GapAsWrittenAtWrap | Receiver.GapOnlyOnLoss |
| esp32_firmware/main/peripheral/peripheral_manager.c:72 | `button_id < INPUT_KEY_NUM` is the only bound check before indexing the arrays | button id -1 | `0 <= button_id && button_id < INPUT_KEY_NUM` | not executed | PeripheralManager.NegativeIdPassesGuard | PeripheralManager.ValidButtonIsIndex |
| esp32_firmware/main/network/wifi_provisioning.c:240-247 | the password blob is written only when the password is non-empty, and an old one is never erased | stored ("Home", "secret"), then save ("Cafe", ""); the next load gives ("Cafe", "secret") | an empty password removes the stored password | not executed | WifiProvisioning.StalePasswordAsWritten | WifiProvisioning.SaveLoadRoundTrip |
| esp32_firmware/main/network/wifi_provisioning.c:363-365 | the wait clears `WIFI_CONNECTED_BIT` and `WIFI_FAIL_BIT` on exit, then the fail test reads the group again with `xEventGroupGetBits` | credentials the station rejects three times: the fail bit ends the wait, yet the reply is `{"success": true}` and `WIFI_CONNECT_SUCCESS_SENT` is set | test the fail bit in the value the wait returned | not executed | WifiProvisioning.SuccessAfterFailAsWritten | WifiProvisioning.ConfigAccepts |
