/**
 * The audio pipeline manager (`audio_pipeline_manager`): building the send
 * pipeline (I2S microphone -> UDP writer) and the receive pipeline (UDP reader
 * -> I2S speaker) into one handle record, and tearing them down again.
 *
 * The ESP-ADF constructors are inputs: what each `*_init` call returns is
 * given as a `Handles` value (None standing for NULL). The library calls the
 * manager makes are recorded, in order, as a trace of `Call`s.
 */
module AudioPipelineManager {
  import opened Platform
  import UdpStream

  const UDP_PORT_LOCAL: uint16 := 12345
  const AUDIO_BUFFER_LEN: int := 324
  const UDP_OUT_RB_SIZE: int := 2 * 1024
  const UDP_TASK_STACK: int := 4096

  /** An opaque pipeline or element handle. */
  type Handle = nat

  /** The six handles of `struct audio_pipeline_manager_info`, NULL as None. */
  datatype Handles = Handles(
    pipelineSend: Option<Handle>,
    i2sReader: Option<Handle>,
    udpWriter: Option<Handle>,
    pipelineRecv: Option<Handle>,
    udpReader: Option<Handle>,
    i2sWriter: Option<Handle>)

  /** A call into the ESP-ADF pipeline and element libraries. */
  datatype Call =
    | PipelineInit
    | I2sInit(kind: UdpStream.StreamType)
    | UdpInit(cfg: UdpStream.Config)
    | Register(pipeline: Handle, element: Handle, tag: string)
    | Link(pipeline: Handle, tags: seq<string>)
    | Terminate(pipeline: Handle)
    | Unregister(pipeline: Handle, element: Handle)
    | Deinit(pipeline: Handle)

  /** The configuration of the UDP element of the send pipeline. */
  function WriterConfig(remoteAddr: uint32): (cfg: UdpStream.Config)
    ensures cfg.kind == UdpStream.Writer && cfg.destAddr == remoteAddr && cfg.destPort == UDP_PORT_LOCAL
    ensures cfg.bufferLen == AUDIO_BUFFER_LEN && cfg.outRbSize == UDP_OUT_RB_SIZE && cfg.taskStack == UDP_TASK_STACK
  {
    UdpStream.Config(UdpStream.Writer, remoteAddr, UDP_PORT_LOCAL, AUDIO_BUFFER_LEN, UDP_OUT_RB_SIZE, UDP_TASK_STACK)
  }

  /** The configuration of the UDP element of the receive pipeline. */
  function ReaderConfig(remoteAddr: uint32): (cfg: UdpStream.Config)
    ensures cfg.kind == UdpStream.Reader && cfg.destAddr == remoteAddr && cfg.destPort == UDP_PORT_LOCAL
    ensures cfg.bufferLen == AUDIO_BUFFER_LEN && cfg.outRbSize == UDP_OUT_RB_SIZE && cfg.taskStack == UDP_TASK_STACK
  {
    UdpStream.Config(UdpStream.Reader, remoteAddr, UDP_PORT_LOCAL, AUDIO_BUFFER_LEN, UDP_OUT_RB_SIZE, UDP_TASK_STACK)
  }

  /** The handles in build order. */
  function BuildOrder(h: Handles): seq<Option<Handle>>
  {
    [h.pipelineSend, h.i2sReader, h.udpWriter, h.pipelineRecv, h.udpReader, h.i2sWriter]
  }

  /** How many constructors succeed before the first one that returns NULL. */
  function BuiltCount(a: Handles): (c: nat)
    ensures c <= 6
    ensures forall i :: 0 <= i < c ==> BuildOrder(a)[i].Some?
    ensures c < 6 ==> BuildOrder(a)[c].None?
  {
    if a.pipelineSend.None? then 0
    else if a.i2sReader.None? then 1
    else if a.udpWriter.None? then 2
    else if a.pipelineRecv.None? then 3
    else if a.udpReader.None? then 4
    else if a.i2sWriter.None? then 5
    else 6
  }

  /** The library calls that build the send pipeline, up to the first NULL. */
  function SendInitCalls(a: Handles, remoteAddr: uint32): seq<Call>
  {
    [PipelineInit] +
    if a.pipelineSend.None? then [] else
    [I2sInit(UdpStream.Reader)] +
    if a.i2sReader.None? then [] else
    [UdpInit(WriterConfig(remoteAddr))] +
    if a.udpWriter.None? then [] else
    [Register(a.pipelineSend.value, a.i2sReader.value, "i2s_reader"),
     Register(a.pipelineSend.value, a.udpWriter.value, "udp_writer"),
     Link(a.pipelineSend.value, ["i2s_reader", "udp_writer"])]
  }

  /** The library calls that build the receive pipeline, up to the first NULL. */
  function RecvInitCalls(a: Handles, remoteAddr: uint32): seq<Call>
  {
    [PipelineInit] +
    if a.pipelineRecv.None? then [] else
    [UdpInit(ReaderConfig(remoteAddr))] +
    if a.udpReader.None? then [] else
    [I2sInit(UdpStream.Writer)] +
    if a.i2sWriter.None? then [] else
    [Register(a.pipelineRecv.value, a.udpReader.value, "udp_reader"),
     Register(a.pipelineRecv.value, a.i2sWriter.value, "i2s_writer"),
     Link(a.pipelineRecv.value, ["udp_reader", "i2s_writer"])]
  }

  /**
   * The library calls `audio_pipelines_init` makes when the constructors
   * return `a`: the receive pipeline is only started once the send pipeline
   * is complete.
   */
  function InitCalls(a: Handles, remoteAddr: uint32): seq<Call>
  {
    SendInitCalls(a, remoteAddr) + (if BuiltCount(a) >= 3 then RecvInitCalls(a, remoteAddr) else [])
  }

  /**
   * Every UDP element init builds is aimed at the remote address on port
   * 12345 with 324-byte buffers; the writer is built before the reader, and
   * each exactly when the constructors before it succeeded.
   */
  lemma InitUdpConfigs(a: Handles, remoteAddr: uint32)
    ensures forall c :: c in InitCalls(a, remoteAddr) && c.UdpInit? ==>
      c.cfg.destAddr == remoteAddr && c.cfg.destPort == UDP_PORT_LOCAL && c.cfg.bufferLen == AUDIO_BUFFER_LEN
    ensures UdpInit(WriterConfig(remoteAddr)) in InitCalls(a, remoteAddr) <==> BuiltCount(a) >= 2
    ensures UdpInit(ReaderConfig(remoteAddr)) in InitCalls(a, remoteAddr) <==> BuiltCount(a) >= 4
  {
    SendUdpConfig(a, remoteAddr);
    RecvUdpConfig(a, remoteAddr);
  }

  lemma SendUdpConfig(a: Handles, remoteAddr: uint32)
    ensures forall c :: c in SendInitCalls(a, remoteAddr) && c.UdpInit? ==> c == UdpInit(WriterConfig(remoteAddr))
    ensures UdpInit(WriterConfig(remoteAddr)) in SendInitCalls(a, remoteAddr) <==> BuiltCount(a) >= 2
  {
    if BuiltCount(a) >= 2 {
      assert SendInitCalls(a, remoteAddr)[2] == UdpInit(WriterConfig(remoteAddr));
    }
  }

  lemma RecvUdpConfig(a: Handles, remoteAddr: uint32)
    ensures forall c :: c in RecvInitCalls(a, remoteAddr) && c.UdpInit? ==> c == UdpInit(ReaderConfig(remoteAddr))
    ensures UdpInit(ReaderConfig(remoteAddr)) in RecvInitCalls(a, remoteAddr) <==> a.pipelineRecv.Some?
  {
    if a.pipelineRecv.Some? {
      assert RecvInitCalls(a, remoteAddr)[1] == UdpInit(ReaderConfig(remoteAddr));
    }
  }

  /** After a complete init, cleanup unregisters every element init registered, from its pipeline. */
  lemma CleanupUndoesInit(h: Handles, a: Handles, remoteAddr: uint32)
    requires BuiltCount(a) == 6
    ensures forall c :: c in InitCalls(a, remoteAddr) && c.Register? ==>
      Unregister(c.pipeline, c.element) in CleanupCalls(InitHandles(h, a))
  {
    BothPipelinesUndone(h, a, remoteAddr);
  }

  /** After a complete init, cleanup unregisters only elements init registered with that pipeline. */
  lemma CleanupOnlyUndoesInit(h: Handles, a: Handles, remoteAddr: uint32)
    requires BuiltCount(a) == 6
    ensures forall c :: c in CleanupCalls(InitHandles(h, a)) && c.Unregister? ==>
      exists tag :: Register(c.pipeline, c.element, tag) in InitCalls(a, remoteAddr)
  {
    BothPipelinesUndone(h, a, remoteAddr);
  }

  /** The two halves of a complete init and of the cleanup after it, pipeline by pipeline. */
  lemma BothPipelinesUndone(h: Handles, a: Handles, remoteAddr: uint32)
    requires BuiltCount(a) == 6
    ensures InitCalls(a, remoteAddr) == SendInitCalls(a, remoteAddr) + RecvInitCalls(a, remoteAddr)
    ensures CleanupCalls(InitHandles(h, a)) ==
      TeardownCalls(a.pipelineSend, a.i2sReader, a.udpWriter) + TeardownCalls(a.pipelineRecv, a.udpReader, a.i2sWriter)
    ensures PipelineUndone(SendInitCalls(a, remoteAddr), TeardownCalls(a.pipelineSend, a.i2sReader, a.udpWriter))
    ensures PipelineUndone(RecvInitCalls(a, remoteAddr), TeardownCalls(a.pipelineRecv, a.udpReader, a.i2sWriter))
  {
    SendPipelineUndone(a, remoteAddr);
    RecvPipelineUndone(a, remoteAddr);
  }

  lemma SendPipelineUndone(a: Handles, remoteAddr: uint32)
    requires BuiltCount(a) >= 3
    ensures PipelineUndone(SendInitCalls(a, remoteAddr), TeardownCalls(a.pipelineSend, a.i2sReader, a.udpWriter))
  {
    OnePipelineUndone(SendInitCalls(a, remoteAddr), PipelineInit, I2sInit(UdpStream.Reader),
                      UdpInit(WriterConfig(remoteAddr)), a.pipelineSend.value, a.i2sReader.value, a.udpWriter.value,
                      "i2s_reader", "udp_writer");
  }

  lemma RecvPipelineUndone(a: Handles, remoteAddr: uint32)
    requires BuiltCount(a) == 6
    ensures PipelineUndone(RecvInitCalls(a, remoteAddr), TeardownCalls(a.pipelineRecv, a.udpReader, a.i2sWriter))
  {
    OnePipelineUndone(RecvInitCalls(a, remoteAddr), PipelineInit, UdpInit(ReaderConfig(remoteAddr)),
                      I2sInit(UdpStream.Writer), a.pipelineRecv.value, a.udpReader.value, a.i2sWriter.value,
                      "udp_reader", "i2s_writer");
  }

  /**
   * Each element registered with a pipeline is unregistered from it by its
   * teardown, and the teardown unregisters nothing else.
   */
  ghost predicate PipelineUndone(built: seq<Call>, teardown: seq<Call>)
  {
    && (forall c :: c in built && c.Register? ==> Unregister(c.pipeline, c.element) in teardown)
    && (forall c :: c in teardown && c.Unregister? ==> exists tag :: Register(c.pipeline, c.element, tag) in built)
  }

  /** A pipeline built with two registered elements is undone by its teardown. */
  lemma OnePipelineUndone(built: seq<Call>, x0: Call, x1: Call, x2: Call,
                          p: Handle, e1: Handle, e2: Handle, t1: string, t2: string)
    requires built == [x0, x1, x2, Register(p, e1, t1), Register(p, e2, t2), Link(p, [t1, t2])]
    requires !x0.Register? && !x1.Register? && !x2.Register?
    ensures PipelineUndone(built, TeardownCalls(Some(p), Some(e1), Some(e2)))
  {
    var t := TeardownCalls(Some(p), Some(e1), Some(e2));
    assert t == [Terminate(p), Unregister(p, e1), Unregister(p, e2), Deinit(p)];
    assert built[3] == Register(p, e1, t1) && built[4] == Register(p, e2, t2);
  }

  /**
   * The handles `audio_pipelines_init` leaves in a record that held `h`:
   * every slot up to and including the first NULL result is overwritten.
   */
  function InitHandles(h: Handles, a: Handles): (r: Handles)
    ensures var c := BuiltCount(a);
      forall i :: 0 <= i < 6 ==> BuildOrder(r)[i] == if i <= c then BuildOrder(a)[i] else BuildOrder(h)[i]
  {
    var c := BuiltCount(a);
    Handles(a.pipelineSend,
            if c >= 1 then a.i2sReader else h.i2sReader,
            if c >= 2 then a.udpWriter else h.udpWriter,
            if c >= 3 then a.pipelineRecv else h.pipelineRecv,
            if c >= 4 then a.udpReader else h.udpReader,
            if c >= 5 then a.i2sWriter else h.i2sWriter)
  }

  /** The handles `audio_pipeline_cleanup` leaves: both pipelines NULL, elements kept. */
  function AfterCleanup(h: Handles): (r: Handles)
    ensures r.pipelineSend.None? && r.pipelineRecv.None?
    ensures r.i2sReader == h.i2sReader && r.udpWriter == h.udpWriter
    ensures r.udpReader == h.udpReader && r.i2sWriter == h.i2sWriter
  {
    h.(pipelineSend := None, pipelineRecv := None)
  }

  /** The teardown calls for one pipeline and its two element slots. */
  function TeardownCalls(pipeline: Option<Handle>, first: Option<Handle>, second: Option<Handle>): seq<Call>
  {
    if pipeline.None? then []
    else
      [Terminate(pipeline.value)]
      + (if first.Some? then [Unregister(pipeline.value, first.value)] else [])
      + (if second.Some? then [Unregister(pipeline.value, second.value)] else [])
      + [Deinit(pipeline.value)]
  }

  /** The library calls `audio_pipeline_cleanup` makes on handles `h`. */
  function CleanupCalls(h: Handles): seq<Call>
  {
    TeardownCalls(h.pipelineSend, h.i2sReader, h.udpWriter)
    + TeardownCalls(h.pipelineRecv, h.udpReader, h.i2sWriter)
  }

  /**
   * Cleanup terminates and deinitialises each non-NULL pipeline exactly once
   * (send before receive), and unregisters from it exactly its non-NULL
   * elements; a NULL pipeline is not touched.
   */
  lemma TeardownShape(pipeline: Option<Handle>, first: Option<Handle>, second: Option<Handle>)
    ensures var t := TeardownCalls(pipeline, first, second);
      && (pipeline.None? ==> t == [])
      && (pipeline.Some? ==>
            && t[0] == Terminate(pipeline.value) && t[|t| - 1] == Deinit(pipeline.value)
            && |t| == 2 + (if first.Some? then 1 else 0) + (if second.Some? then 1 else 0)
            && (forall c :: c in t[1..|t| - 1] ==>
                  c.Unregister? && c.pipeline == pipeline.value && Some(c.element) in [first, second])
            && (first.Some? ==> Unregister(pipeline.value, first.value) in t)
            && (second.Some? ==> Unregister(pipeline.value, second.value) in t))
  {
    if pipeline.Some? {
      var t := TeardownCalls(pipeline, first, second);
      var u := (if first.Some? then [Unregister(pipeline.value, first.value)] else [])
        + (if second.Some? then [Unregister(pipeline.value, second.value)] else []);
      assert t == [Terminate(pipeline.value)] + u + [Deinit(pipeline.value)];
      assert t[1..|t| - 1] == u;
    }
  }

  /** A second cleanup makes no library call and changes no handle. */
  lemma CleanupIdempotent(h: Handles)
    ensures AfterCleanup(AfterCleanup(h)) == AfterCleanup(h)
    ensures CleanupCalls(AfterCleanup(h)) == []
  {
  }

  /** `struct audio_pipeline_manager_info`, with the trace of library calls made on it. */
  class PipelineInfo {
    var pipelineSend: Option<Handle>
    var pipelineRecv: Option<Handle>
    var i2sReader: Option<Handle>
    var udpWriter: Option<Handle>
    var udpReader: Option<Handle>
    var i2sWriter: Option<Handle>
    var remoteAddr: uint32
    var calls: seq<Call>

    /** A zero-initialised record. */
    constructor ()
      ensures Snapshot() == Handles(None, None, None, None, None, None)
      ensures remoteAddr == 0 && calls == []
    {
      pipelineSend, pipelineRecv := None, None;
      i2sReader, udpWriter, udpReader, i2sWriter := None, None, None, None;
      remoteAddr, calls := 0, [];
    }

    function Snapshot(): Handles
      reads this
    {
      Handles(pipelineSend, i2sReader, udpWriter, pipelineRecv, udpReader, i2sWriter)
    }
  }

  /** The send half of `audio_pipelines_init`; `ok` when all three handles are non-NULL. */
  method InitSend(info: PipelineInfo, a: Handles) returns (ok: bool)
    modifies info
    ensures ok <==> BuiltCount(a) >= 3
    ensures info.calls == old(info.calls) + SendInitCalls(a, info.remoteAddr)
    ensures info.remoteAddr == old(info.remoteAddr)
    ensures info.pipelineSend == a.pipelineSend
    ensures info.i2sReader == (if a.pipelineSend.Some? then a.i2sReader else old(info.i2sReader))
    ensures info.udpWriter == (if BuiltCount(a) >= 2 then a.udpWriter else old(info.udpWriter))
    ensures info.pipelineRecv == old(info.pipelineRecv) && info.udpReader == old(info.udpReader)
    ensures info.i2sWriter == old(info.i2sWriter)
  {
    var t := [PipelineInit];
    info.pipelineSend := a.pipelineSend;
    if a.pipelineSend.None? {
      info.calls := info.calls + t;
      return false;
    }
    t := t + [I2sInit(UdpStream.Reader)];
    info.i2sReader := a.i2sReader;
    if a.i2sReader.None? {
      info.calls := info.calls + t;
      return false;
    }
    t := t + [UdpInit(WriterConfig(info.remoteAddr))];
    info.udpWriter := a.udpWriter;
    if a.udpWriter.None? {
      info.calls := info.calls + t;
      return false;
    }
    var p := a.pipelineSend.value;
    t := t + [Register(p, a.i2sReader.value, "i2s_reader"),
              Register(p, a.udpWriter.value, "udp_writer"),
              Link(p, ["i2s_reader", "udp_writer"])];
    info.calls := info.calls + t;
    ok := true;
  }

  /** The receive half of `audio_pipelines_init`; `ok` when all three handles are non-NULL. */
  method InitRecv(info: PipelineInfo, a: Handles) returns (ok: bool)
    modifies info
    ensures ok <==> a.pipelineRecv.Some? && a.udpReader.Some? && a.i2sWriter.Some?
    ensures info.calls == old(info.calls) + RecvInitCalls(a, info.remoteAddr)
    ensures info.remoteAddr == old(info.remoteAddr)
    ensures info.pipelineRecv == a.pipelineRecv
    ensures info.udpReader == (if a.pipelineRecv.Some? then a.udpReader else old(info.udpReader))
    ensures info.i2sWriter == (if a.pipelineRecv.Some? && a.udpReader.Some? then a.i2sWriter else old(info.i2sWriter))
    ensures info.pipelineSend == old(info.pipelineSend) && info.i2sReader == old(info.i2sReader)
    ensures info.udpWriter == old(info.udpWriter)
  {
    var t := [PipelineInit];
    info.pipelineRecv := a.pipelineRecv;
    if a.pipelineRecv.None? {
      info.calls := info.calls + t;
      return false;
    }
    t := t + [UdpInit(ReaderConfig(info.remoteAddr))];
    info.udpReader := a.udpReader;
    if a.udpReader.None? {
      info.calls := info.calls + t;
      return false;
    }
    t := t + [I2sInit(UdpStream.Writer)];
    info.i2sWriter := a.i2sWriter;
    if a.i2sWriter.None? {
      info.calls := info.calls + t;
      return false;
    }
    var p := a.pipelineRecv.value;
    t := t + [Register(p, a.udpReader.value, "udp_reader"),
              Register(p, a.i2sWriter.value, "i2s_writer"),
              Link(p, ["udp_reader", "i2s_writer"])];
    info.calls := info.calls + t;
    ok := true;
  }

  /**
   * `audio_pipelines_init`. `a` holds what each constructor returns. Every
   * handle up to and including the first NULL one is stored; on a NULL the
   * function returns at once and releases nothing already built.
   */
  method Init(info: PipelineInfo?, a: Handles) returns (r: EspErr)
    modifies info
    ensures info == null ==> r == ErrInvalidArg
    ensures info != null ==> (r == EspOk <==> BuiltCount(a) == 6) && (r != EspOk ==> r == EspFail)
    ensures info != null ==> info.calls == old(info.calls) + InitCalls(a, old(info.remoteAddr))
    ensures info != null ==> info.remoteAddr == old(info.remoteAddr)
    ensures info != null ==> info.Snapshot() == InitHandles(old(info.Snapshot()), a)
  {
    if info == null {
      return ErrInvalidArg;
    }
    var sendOk := InitSend(info, a);
    if !sendOk {
      return EspFail;
    }
    var recvOk := InitRecv(info, a);
    r := if recvOk then EspOk else EspFail;
  }

  /**
   * One half of `audio_pipeline_cleanup`: the calls it makes on a pipeline
   * and the two elements registered with it. It builds exactly
   * `TeardownCalls`, whose shape `TeardownShape` proves.
   */
  method Teardown(pipeline: Option<Handle>, first: Option<Handle>, second: Option<Handle>)
    returns (t: seq<Call>)
    ensures t == TeardownCalls(pipeline, first, second)
  {
    t := [];
    if pipeline.Some? {
      var p := pipeline.value;
      t := [Terminate(p)];
      if first.Some? {
        t := t + [Unregister(p, first.value)];
      }
      if second.Some? {
        t := t + [Unregister(p, second.value)];
      }
      t := t + [Deinit(p)];
    }
  }

  /**
   * `audio_pipeline_cleanup`: a NULL record is left alone; otherwise each
   * non-NULL pipeline is terminated, stripped of its non-NULL elements,
   * deinitialised and set to NULL, and the remote address is cleared.
   */
  method Cleanup(info: PipelineInfo?)
    modifies info
    ensures info != null ==> info.Snapshot() == AfterCleanup(old(info.Snapshot()))
    ensures info != null ==> info.calls == old(info.calls) + CleanupCalls(old(info.Snapshot()))
    ensures info != null ==> info.remoteAddr == 0
  {
    if info == null {
      return;
    }
    var sendCalls := Teardown(info.pipelineSend, info.i2sReader, info.udpWriter);
    var recvCalls := Teardown(info.pipelineRecv, info.udpReader, info.i2sWriter);
    info.calls := info.calls + sendCalls + recvCalls;
    info.pipelineSend, info.pipelineRecv := None, None;
    info.remoteAddr := 0;
  }
}
