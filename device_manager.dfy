/**
 * The session coordinator (`device_manager`): a fixed table of TCP control
 * clients, a single talk slot held by at most one client, the dispatch of
 * control commands to replies and media calls, and the doorbell broadcast.
 *
 * Each mutex-guarded C function is one atomic method. Sockets, tasks and the
 * media stack are abstract: replies, closed sockets and media calls are
 * recorded as traces, and the outcome of each media call is an input.
 */
module DeviceManager {
  import opened Platform
  import opened Commands

  const MAX_CLIENTS: nat := 5
  const INACTIVE_CLIENT_INDEX: int := -1

  /** `tcp_client_t`; `hasTask` stands for a non-NULL `task_handle`. */
  datatype Client = Client(socket: int, ip: uint32, connected: bool, hasTask: bool)

  /** A slot after `memset` or `_cleanup_client`. */
  const EmptyClient := Client(0, 0, false, false)

  /** A call into the audio pipeline manager or the video manager. */
  datatype MediaCall =
    | AudioInit(remote: uint32)   // audio_pipelines_init with remote_addr set
    | RunSend                     // audio_pipeline_run(pipeline_send)
    | RunRecv                     // audio_pipeline_run(pipeline_recv)
    | AudioCleanup                // audio_pipeline_cleanup
    | VideoStart(ip: uint32)      // video_manager_start_streaming
    | VideoStop                   // video_manager_stop_streaming

  /** What each fallible media call returns (true for ESP_OK). */
  datatype MediaOutcome = MediaOutcome(initOk: bool, sendRunOk: bool, recvRunOk: bool, videoOk: bool)

  /** One 4-byte command sent on a client socket. */
  datatype Reply = Reply(socket: int, cmd: Command)

  /** The result of one `recv` of a command: 1 to 4 bytes, 0 (peer closed) or an error. */
  datatype RecvEvent = Bytes(b: seq<uint8>) | PeerClosed | RecvError

  // ---------------------------------------------------------------------------
  // The talk slot

  /** A request for, or a release of, the talk slot by a client. */
  datatype TalkOp = Request(client: nat) | Release(client: nat)

  datatype TalkResult = TalkResult(holder: int, ok: bool)

  /**
   * `_request_talk_permission` and `_release_talk_permission` on the holder
   * index `holder` (-1 when the slot is free).
   */
  function Talk(holder: int, op: TalkOp): TalkResult
  {
    match op
    case Request(i) => if holder == INACTIVE_CLIENT_INDEX then TalkResult(i, true) else TalkResult(holder, false)
    case Release(i) => if holder == i then TalkResult(INACTIVE_CLIENT_INDEX, true) else TalkResult(holder, false)
  }

  /** The holder after a sequence of operations. */
  function RunTalk(holder: int, ops: seq<TalkOp>): int
    decreases |ops|
  {
    if ops == [] then holder else RunTalk(Talk(holder, ops[0]).holder, ops[1..])
  }

  /**
   * A request is granted exactly when the slot is free and then gives it to
   * the requester; a release succeeds exactly for the holder and frees the
   * slot. A refused operation changes nothing.
   */
  lemma TalkStep(holder: int, op: TalkOp)
    requires holder >= INACTIVE_CLIENT_INDEX
    ensures op.Request? ==> (Talk(holder, op).ok <==> holder == INACTIVE_CLIENT_INDEX)
    ensures op.Release? ==> (Talk(holder, op).ok <==> holder == op.client)
    ensures Talk(holder, op).ok && op.Request? ==> Talk(holder, op).holder == op.client
    ensures Talk(holder, op).ok && op.Release? ==> Talk(holder, op).holder == INACTIVE_CLIENT_INDEX
    ensures !Talk(holder, op).ok ==> Talk(holder, op).holder == holder
  {
  }

  /**
   * Once a client holds the slot it keeps it, and every other request
   * (including a repeated one of its own) is refused, until it releases it.
   */
  lemma {:induction false} HolderKeepsSlot(holder: nat, ops: seq<TalkOp>)
    requires Release(holder) !in ops
    ensures RunTalk(holder, ops) == holder
    ensures forall k :: 0 <= k < |ops| ==> !Talk(holder, ops[k]).ok
  {
    if ops != [] {
      assert ops[0] != Release(holder);
      assert Release(holder) !in ops[1..];
      HolderKeepsSlot(holder, ops[1..]);
      forall k | 0 <= k < |ops|
        ensures !Talk(holder, ops[k]).ok
      {
        assert ops[k] != Release(holder);
      }
    }
  }

  // ---------------------------------------------------------------------------
  // Starting media for a client

  /** The media calls `_start_audio_and_video_for_client` makes for a client at `ip`. */
  function StartMediaCalls(ip: uint32, o: MediaOutcome): seq<MediaCall>
  {
    if !o.initOk then [AudioInit(ip)]
    else if !o.sendRunOk || !o.recvRunOk then [AudioInit(ip), RunSend, RunRecv, AudioCleanup]
    else if !o.videoOk then [AudioInit(ip), RunSend, RunRecv, VideoStart(ip), AudioCleanup]
    else [AudioInit(ip), RunSend, RunRecv, VideoStart(ip)]
  }

  function StartMediaResult(o: MediaOutcome): EspErr
  {
    if o.initOk && o.sendRunOk && o.recvRunOk && o.videoOk then EspOk else EspFail
  }

  /** The audio remote address afterwards: cleanup resets it to 0. */
  function StartMediaRemote(ip: uint32, o: MediaOutcome): uint32
  {
    if o.initOk && !(o.sendRunOk && o.recvRunOk && o.videoOk) then 0 else ip
  }

  /**
   * Media start initialises audio first, runs both pipelines (the receive one
   * even when the send one failed), then starts video. It succeeds only when
   * every step does; the audio pipelines are cleaned up after a run or video
   * failure but not after an init failure, and video is never stopped here.
   */
  lemma StartMediaOrder(ip: uint32, o: MediaOutcome)
    ensures var c := StartMediaCalls(ip, o);
      && c[0] == AudioInit(ip)
      && (StartMediaResult(o) == EspOk <==> o.initOk && o.sendRunOk && o.recvRunOk && o.videoOk)
      && (AudioCleanup in c <==> o.initOk && StartMediaResult(o) != EspOk)
      && (RunSend in c <==> o.initOk) && (RunRecv in c <==> o.initOk)
      && (VideoStart(ip) in c <==> o.initOk && o.sendRunOk && o.recvRunOk)
      && VideoStop !in c
      && (VideoStart(ip) in c ==> c[1] == RunSend && c[2] == RunRecv && c[3] == VideoStart(ip))
  {
  }

  // ---------------------------------------------------------------------------
  // Command dispatch

  /** Everything one command changes: the holder, the reply, the media calls, the audio state. */
  datatype Effect = Effect(holder: int, reply: Option<Command>, media: seq<MediaCall>, remote: uint32, audioActive: int)

  /**
   * `_handle_client_command` for client `i` at `ip`, given the holder, the
   * audio state and the outcome of any media start.
   */
  function CommandEffect(holder: int, audioActive: int, remote: uint32, i: nat, ip: uint32, command: int, o: MediaOutcome)
    : Effect
  {
    match FromCode(command)
    case Some(RequestTalk) =>
      if holder == INACTIVE_CLIENT_INDEX then Effect(i, Some(GrantTalk), StartMediaCalls(ip, o), StartMediaRemote(ip, o), audioActive)
      else Effect(holder, Some(DenyTalk), [], remote, audioActive)
    case Some(EndTalk) =>
      if holder == i then Effect(INACTIVE_CLIENT_INDEX, Some(TalkEnded), [AudioCleanup, VideoStop], 0, INACTIVE_CLIENT_INDEX)
      else Effect(holder, Some(TalkDidNotEnd), [], remote, audioActive)
    case Some(OpenDoor) => Effect(holder, Some(OpenDoor), [], remote, audioActive)
    case _ => Effect(holder, None, [], remote, audioActive)
  }

  /**
   * REQUEST_TALK is answered GRANT_TALK and starts media exactly when the
   * slot is free; the grant stands even when media start fails. Otherwise it
   * is answered DENY_TALK and nothing else happens.
   */
  lemma RequestTalkEffect(holder: int, audioActive: int, remote: uint32, i: nat, ip: uint32, o: MediaOutcome)
    ensures var e := CommandEffect(holder, audioActive, remote, i, ip, Code(RequestTalk).value, o);
      && (e.reply == Some(GrantTalk) <==> holder == INACTIVE_CLIENT_INDEX)
      && (e.reply == Some(GrantTalk) ==> e.holder == i && e.media == StartMediaCalls(ip, o))
      && (e.reply != Some(GrantTalk) ==> e.reply == Some(DenyTalk) && e.holder == holder && e.media == [])
  {
  }

  /**
   * END_TALK from the holder frees the slot, answers TALK_ENDED and stops
   * audio and video; from anyone else it answers TALK_DID_NOT_END and
   * changes nothing.
   */
  lemma EndTalkEffect(holder: int, audioActive: int, remote: uint32, i: nat, ip: uint32, o: MediaOutcome)
    ensures var e := CommandEffect(holder, audioActive, remote, i, ip, Code(EndTalk).value, o);
      && (e.reply == Some(TalkEnded) <==> holder == i)
      && (holder == i ==> e.holder == INACTIVE_CLIENT_INDEX && e.media == [AudioCleanup, VideoStop] && e.remote == 0)
      && (holder != i ==> e == Effect(holder, Some(TalkDidNotEnd), [], remote, audioActive))
  {
  }

  /**
   * OPEN_DOOR is echoed; any other value (including the reply codes) is
   * ignored without a reply. Neither touches the talk slot or media.
   */
  lemma OtherCommandEffect(holder: int, audioActive: int, remote: uint32, i: nat, ip: uint32, command: int, o: MediaOutcome)
    requires command != Code(RequestTalk).value && command != Code(EndTalk).value
    ensures var e := CommandEffect(holder, audioActive, remote, i, ip, command, o);
      && e.holder == holder && e.media == [] && e.remote == remote && e.audioActive == audioActive
      && (e.reply.Some? <==> command == Code(OpenDoor).value)
      && (e.reply.Some? ==> e.reply == Some(OpenDoor))
  {
  }

  // ---------------------------------------------------------------------------
  // The client table

  /** The lowest slot that is not connected, or -1 when every slot is. */
  function FirstFree(cs: seq<Client>): (k: int)
    ensures -1 <= k < |cs|
    ensures k == -1 <==> forall j :: 0 <= j < |cs| ==> cs[j].connected
    ensures k >= 0 ==> !cs[k].connected && forall j :: 0 <= j < k ==> cs[j].connected
  {
    if cs == [] then -1
    else if !cs[0].connected then 0
    else
      var k := FirstFree(cs[1..]);
      assert forall j :: 0 < j < |cs| ==> cs[j] == cs[1..][j - 1];
      if k == -1 then -1 else k + 1
  }

  /** The connected slots in increasing order. */
  function ConnectedSlots(cs: seq<Client>): (slots: seq<nat>)
    ensures forall k :: k in slots <==> 0 <= k < |cs| && cs[k].connected
    ensures forall a, b :: 0 <= a < b < |slots| ==> slots[a] < slots[b]
  {
    if cs == [] then []
    else
      var n := |cs| - 1;
      assert forall k :: 0 <= k < n ==> cs[..n][k] == cs[k];
      var init := ConnectedSlots(cs[..n]);
      assert forall a :: 0 <= a < |init| ==> init[a] < n by {
        forall a | 0 <= a < |init|
          ensures init[a] < n
        {
          assert init[a] in init;
        }
      }
      init + (if cs[n].connected then [n] else [])
  }

  /** A broadcast reaches no slot twice: one send per connected slot. */
  lemma ConnectedSlotsCount(cs: seq<Client>)
    ensures |ConnectedSlots(cs)| == |set k | 0 <= k < |cs| && cs[k].connected|
  {
    var slots := ConnectedSlots(cs);
    var s := set k | 0 <= k < |cs| && cs[k].connected;
    var b := set j | 0 <= j < |slots| :: slots[j];
    forall x | x in s
      ensures x in b
    {
      var j :| 0 <= j < |slots| && slots[j] == x;
    }
    forall j | 0 <= j < |slots|
      ensures slots[j] in s
    {
      assert slots[j] in slots;
    }
    assert s == b;
    DistinctCard(slots);
  }

  lemma {:induction false} DistinctCard(slots: seq<nat>)
    requires forall a, b :: 0 <= a < b < |slots| ==> slots[a] < slots[b]
    ensures |set j | 0 <= j < |slots| :: slots[j]| == |slots|
  {
    if slots != [] {
      var n := |slots| - 1;
      var init := slots[..n];
      DistinctCard(init);
      var a := set j | 0 <= j < |init| :: init[j];
      var b := set j | 0 <= j < |slots| :: slots[j];
      assert b == a + {slots[n]};
      assert slots[n] !in a;
    }
  }

  // ---------------------------------------------------------------------------
  // The coordinator

  /** The module's static state: `clients[]`, `active_talker_index`, `audio_info`, with traces. */
  class Coordinator {
    const clients: array<Client>
    var activeTalker: int
    var audioActiveClient: int
    var audioRemote: uint32
    var replies: seq<Reply>
    var media: seq<MediaCall>
    var closed: seq<int>

    ghost predicate Valid()
      reads this
    {
      clients.Length == MAX_CLIENTS && INACTIVE_CLIENT_INDEX <= activeTalker < MAX_CLIENTS
    }

    /** The zeroed table and audio state of `device_manager_init`, with the slot free. */
    constructor ()
      ensures Valid() && fresh(clients)
      ensures clients[..] == seq(MAX_CLIENTS, _ => EmptyClient)
      ensures activeTalker == INACTIVE_CLIENT_INDEX && audioActiveClient == INACTIVE_CLIENT_INDEX
      ensures audioRemote == 0 && replies == [] && media == [] && closed == []
    {
      clients := new Client[MAX_CLIENTS](_ => EmptyClient);
      activeTalker := INACTIVE_CLIENT_INDEX;
      audioActiveClient := INACTIVE_CLIENT_INDEX;
      audioRemote := 0;
      replies, media, closed := [], [], [];
    }

    /** `_request_talk_permission`. */
    method RequestTalkPermission(i: nat) returns (granted: bool)
      requires Valid() && i < MAX_CLIENTS
      modifies this
      ensures Valid()
      ensures TalkResult(activeTalker, granted) == Talk(old(activeTalker), Request(i))
      ensures audioActiveClient == old(audioActiveClient) && audioRemote == old(audioRemote)
      ensures replies == old(replies) && media == old(media) && closed == old(closed)
    {
      if activeTalker == INACTIVE_CLIENT_INDEX {
        activeTalker := i;
        return true;
      }
      granted := false;
    }

    /** `_release_talk_permission`: also marks the audio pipelines unused. */
    method ReleaseTalkPermission(i: nat) returns (released: bool)
      requires Valid()
      modifies this
      ensures Valid()
      ensures TalkResult(activeTalker, released) == Talk(old(activeTalker), Release(i))
      ensures audioActiveClient == if released then INACTIVE_CLIENT_INDEX else old(audioActiveClient)
      ensures audioRemote == old(audioRemote)
      ensures replies == old(replies) && media == old(media) && closed == old(closed)
    {
      released := false;
      if activeTalker == i {
        activeTalker := INACTIVE_CLIENT_INDEX;
        audioActiveClient := INACTIVE_CLIENT_INDEX;
        released := true;
      }
    }

    /** `_stop_audio_and_video`: cleanup resets the audio remote address. */
    method StopMedia()
      modifies this
      ensures media == old(media) + [AudioCleanup, VideoStop] && audioRemote == 0
      ensures activeTalker == old(activeTalker) && audioActiveClient == old(audioActiveClient)
      ensures replies == old(replies) && closed == old(closed)
    {
      media := media + [AudioCleanup, VideoStop];
      audioRemote := 0;
    }

    /** `_start_audio_and_video_for_client`. */
    method StartMedia(i: nat, o: MediaOutcome) returns (r: EspErr)
      requires Valid() && i < MAX_CLIENTS
      modifies this
      ensures r == StartMediaResult(o)
      ensures media == old(media) + StartMediaCalls(clients[i].ip, o)
      ensures audioRemote == StartMediaRemote(clients[i].ip, o)
      ensures activeTalker == old(activeTalker) && audioActiveClient == old(audioActiveClient)
      ensures replies == old(replies) && closed == old(closed)
    {
      var ip := clients[i].ip;
      audioRemote := ip;
      media := media + [AudioInit(ip)];
      if !o.initOk {
        return EspFail;
      }
      media := media + [RunSend, RunRecv];
      if !o.sendRunOk || !o.recvRunOk {
        media := media + [AudioCleanup];
        audioRemote := 0;
        return EspFail;
      }
      media := media + [VideoStart(ip)];
      if !o.videoOk {
        media := media + [AudioCleanup];
        audioRemote := 0;
        return EspFail;
      }
      r := EspOk;
    }

    /** `_handle_client_command` for client `i`; the result of media start is discarded. */
    method HandleCommand(i: nat, command: int, o: MediaOutcome)
      requires Valid() && i < MAX_CLIENTS
      modifies this
      ensures Valid()
      ensures var e := CommandEffect(old(activeTalker), old(audioActiveClient), old(audioRemote), i, clients[i].ip, command, o);
        && activeTalker == e.holder && audioActiveClient == e.audioActive && audioRemote == e.remote
        && media == old(media) + e.media
        && replies == old(replies) + (if e.reply.Some? then [Reply(clients[i].socket, e.reply.value)] else [])
        && closed == old(closed)
    {
      var sock := clients[i].socket;
      match FromCode(command)
      case Some(RequestTalk) =>
        var granted := RequestTalkPermission(i);
        if granted {
          replies := replies + [Reply(sock, GrantTalk)];
          var _ := StartMedia(i, o);
        } else {
          replies := replies + [Reply(sock, DenyTalk)];
        }
      case Some(EndTalk) =>
        var released := ReleaseTalkPermission(i);
        if released {
          replies := replies + [Reply(sock, TalkEnded)];
          StopMedia();
        } else {
          replies := replies + [Reply(sock, TalkDidNotEnd)];
        }
      case Some(OpenDoor) =>
        replies := replies + [Reply(sock, OpenDoor)];
      case _ =>
    }

    /**
     * `_cleanup_client`: stops media if `i` holds the talk slot, releases the
     * slot, closes the socket and resets the table entry.
     */
    method Cleanup(i: nat)
      requires Valid() && i < MAX_CLIENTS
      modifies this, clients
      ensures Valid()
      ensures clients[..] == old(clients[..])[i := EmptyClient]
      ensures closed == old(closed) + [old(clients[i].socket)]
      ensures activeTalker == if old(activeTalker) == i then INACTIVE_CLIENT_INDEX else old(activeTalker)
      ensures audioActiveClient == if old(activeTalker) == i then INACTIVE_CLIENT_INDEX else old(audioActiveClient)
      ensures media == old(media) + (if old(activeTalker) == i then [AudioCleanup, VideoStop] else [])
      ensures audioRemote == if old(activeTalker) == i then 0 else old(audioRemote)
      ensures replies == old(replies)
    {
      if activeTalker == i {
        StopMedia();
      }
      var _ := ReleaseTalkPermission(i);
      closed := closed + [clients[i].socket];
      clients[i] := EmptyClient;
    }

    /**
     * `_add_new_client`: the lowest free slot takes the socket and address;
     * if its task cannot be created the slot is marked free again (the
     * socket and address stay written). With no free slot nothing changes.
     */
    method AddClient(sock: int, ip: uint32, taskOk: bool) returns (added: bool)
      requires Valid()
      modifies clients
      ensures var k := FirstFree(old(clients[..]));
        && (k == -1 ==> !added && clients[..] == old(clients[..]))
        && (k >= 0 ==>
              added == taskOk
              && clients[..] == old(clients[..])[k := Client(sock, ip, taskOk, taskOk || old(clients[k]).hasTask)])
    {
      var i := 0;
      while i < MAX_CLIENTS
        invariant 0 <= i <= MAX_CLIENTS
        invariant forall j :: 0 <= j < i ==> clients[j].connected
        invariant clients[..] == old(clients[..])
      {
        if !clients[i].connected {
          clients[i] := Client(sock, ip, true, clients[i].hasTask);
          if taskOk {
            clients[i] := clients[i].(hasTask := true);
            return true;
          }
          clients[i] := clients[i].(connected := false);
          return false;
        }
        i := i + 1;
      }
      added := false;
    }

    /** One iteration of the accept loop: a client that cannot be added has its socket closed. */
    method Accept(sock: int, ip: uint32, taskOk: bool) returns (added: bool)
      requires Valid()
      modifies this, clients
      ensures Valid()
      ensures var k := FirstFree(old(clients[..]));
        && added == (k >= 0 && taskOk)
        && closed == old(closed) + (if added then [] else [sock])
        && clients[..] == if k == -1 then old(clients[..])
                          else old(clients[..])[k := Client(sock, ip, taskOk, taskOk || old(clients[k]).hasTask)]
      ensures activeTalker == old(activeTalker) && media == old(media) && replies == old(replies)
      ensures audioActiveClient == old(audioActiveClient) && audioRemote == old(audioRemote)
    {
      added := AddClient(sock, ip, taskOk);
      if !added {
        closed := closed + [sock];
      }
    }

    /**
     * `broadcast_doorbell_ring`: the slots, in order, whose sockets are sent
     * DOORBELL_RING, one send per slot. The returned slots are those sends;
     * unlike command replies they are not appended to `replies`, since the
     * broadcast changes no coordinator state.
     */
    method BroadcastDoorbell() returns (slots: seq<nat>)
      requires Valid()
      ensures slots == ConnectedSlots(clients[..])
    {
      slots := [];
      var i := 0;
      while i < MAX_CLIENTS
        invariant 0 <= i <= MAX_CLIENTS
        invariant slots == ConnectedSlots(clients[..i])
      {
        assert clients[..i + 1][..i] == clients[..i];
        if clients[i].connected {
          slots := slots + [i];
        }
        i := i + 1;
      }
      assert clients[..MAX_CLIENTS] == clients[..];
    }

    /**
     * One iteration of `_client_handler_task`: a received command is
     * dispatched, with the reply, talk slot, audio owner and media calls of
     * `CommandEffect`; a closed or failed receive cleans the client up,
     * releasing the slot and stopping media when the client held it, and
     * touches no other slot. The handler goes on while the slot stays
     * connected.
     */
    method HandlerStep(i: nat, ev: RecvEvent, o: MediaOutcome) returns (continues: bool)
      requires Valid() && i < MAX_CLIENTS
      requires ev.Bytes? ==> 1 <= |ev.b| <= 4
      modifies this, clients
      ensures Valid()
      ensures ev.Bytes? ==>
        var e := CommandEffect(old(activeTalker), old(audioActiveClient), old(audioRemote), i, clients[i].ip,
                               ReceivedCommand(ev.b), o);
        && clients[..] == old(clients[..]) && continues == clients[i].connected
        && activeTalker == e.holder && audioActiveClient == e.audioActive && audioRemote == e.remote
        && media == old(media) + e.media
        && replies == old(replies) + (if e.reply.Some? then [Reply(clients[i].socket, e.reply.value)] else [])
        && closed == old(closed)
      ensures !ev.Bytes? ==>
        var holder := old(activeTalker) == i;
        && !continues
        && clients[..] == old(clients[..])[i := EmptyClient]
        && closed == old(closed) + [old(clients[i].socket)]
        && activeTalker == (if holder then INACTIVE_CLIENT_INDEX else old(activeTalker))
        && audioActiveClient == (if holder then INACTIVE_CLIENT_INDEX else old(audioActiveClient))
        && media == old(media) + (if holder then [AudioCleanup, VideoStop] else [])
        && audioRemote == (if holder then 0 else old(audioRemote))
        && replies == old(replies)
    {
      if ev.Bytes? {
        HandleCommand(i, ReceivedCommand(ev.b), o);
        continues := clients[i].connected;
      } else {
        Cleanup(i);
        continues := false;
      }
    }
  }
}
