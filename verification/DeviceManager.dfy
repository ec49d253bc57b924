/** The socket tables of the device manager in configuration mode (device_manager.cpp). */
module DeviceManager {
  import opened Options

  type Socket = int

  /** The "host:port" string that names a channel. */
  datatype Key = Key(host: string, port: nat)

  const DETECTION_PORT := 56000
  const HOST_DEBUG_POINT_CLOUD_PORT := 44332
  const LOG_PORT := 0
  const PA_HOST_FAULT_PORT := 42867
  const MID360 := 9
  const PA := 16
  const MID360S := 35
  const AVIA2 := 40

  /** What the tables need of a lidar's configuration. */
  datatype LidarCfg = LidarCfg(
    deviceType: nat,
    hostIp: string,
    pointDataPort: nat,
    imuDataPort: nat,
    cmdDataPort: nat,
    pushMsgPort: nat,
    logDataPort: nat)

  /** The tables a socket may be in. */
  datatype Tables = Tables(
    channelInfo: map<Key, Socket>,
    customCommandChannel: map<Key, Socket>,
    socketVec: seq<Socket>,
    commandChannel: set<Socket>,
    dataChannel: set<Socket>,
    broadcast: seq<Socket>,
    detectionSocket: Socket,
    detectionBroadcastSocket: Socket,
    /** Sockets still open that the code has overwritten and will not close. */
    lost: set<Socket>)

  const EMPTY := Tables(map[], map[], [], {}, {}, [], 0, 0, {})

  /** No channels, as before the first start and after a teardown. */
  predicate Emptied(t: Tables) {
    t == EMPTY.(detectionSocket := t.detectionSocket, detectionBroadcastSocket := t.detectionBroadcastSocket,
                lost := t.lost)
  }

  /** No detection sockets either. */
  predicate Cleared(t: Tables) {
    Emptied(t) && t.detectionSocket <= 0 && t.detectionBroadcastSocket <= 0
  }

  /** The socket a variable holds, if it holds one. */
  function Held(s: Socket): set<Socket> {
    if s > 0 then {s} else {}
  }

  /** The types whose command channels come with a broadcast socket, which has no key. */
  predicate Broadcasting(cfg: LidarCfg) {
    cfg.deviceType == 9 || cfg.deviceType == 35 || cfg.deviceType == 40
  }

  function Broadcasts(cfgs: seq<LidarCfg>): nat {
    if cfgs == [] then 0 else Broadcasts(cfgs[..|cfgs| - 1]) + (if Broadcasting(cfgs[|cfgs| - 1]) then 1 else 0)
  }

  lemma {:induction false} BroadcastsMore(cfgs: seq<LidarCfg>, cfg: LidarCfg)
    ensures Broadcasts(cfgs + [cfg]) == Broadcasts(cfgs) + (if Broadcasting(cfg) then 1 else 0)
  {
    assert (cfgs + [cfg])[..|cfgs|] == cfgs;
  }

  /** How many broadcast sockets `n` discoveries open when there are lidars for `b` of them before. */
  function Reopened(b: nat, n: nat): nat {
    if n == 0 then 0 else Reopened(b, n - 1) + b + n
  }

  lemma {:induction false} ReopenedIs(b: nat, n: nat)
    ensures 2 * Reopened(b, n) == 2 * n * b + n * (n + 1)
  {
    if n > 0 {
      ReopenedIs(b, n - 1);
      assert 2 * (n - 1) * b + (n - 1) * n + 2 * b + 2 * n == 2 * n * b + n * (n + 1);
    }
  }

  /** A data port makes no channel on the detection port, whose socket there is already. */
  function DataKey(host: string, port: nat): set<Key> {
    if host != "" && port != 0 && port != 56000 then {Key(host, port)} else {}
  }

  function CommandKey(host: string, port: nat): set<Key> {
    if host != "" && port != 0 then {Key(host, port)} else {}
  }

  /** The channels a lidar's data come through: points, IMU and debug points. */
  function DataKeys(cfg: LidarCfg): set<Key> {
    DataKey(cfg.hostIp, cfg.pointDataPort) + DataKey(cfg.hostIp, cfg.imuDataPort) + DataKey(cfg.hostIp, 44332)
  }

  /** The channels of commands and pushed messages: of a master SDK, always, of a PA, and with logging. */
  function CommandKeys(cfg: LidarCfg, master: bool, log: bool): set<Key> {
    (if master then CommandKey(cfg.hostIp, cfg.cmdDataPort) else {}) + CommandKey(cfg.hostIp, cfg.pushMsgPort)
    + (if cfg.deviceType == 16 then CommandKey(cfg.hostIp, 42867) else {})
    + (if log then CommandKey(cfg.hostIp, cfg.logDataPort) else {})
  }

  function AllDataKeys(cfgs: seq<LidarCfg>): set<Key> {
    if cfgs == [] then {} else AllDataKeys(cfgs[..|cfgs| - 1]) + DataKeys(cfgs[|cfgs| - 1])
  }

  function AllCommandKeys(cfgs: seq<LidarCfg>, master: bool, log: bool): set<Key> {
    if cfgs == [] then {}
    else AllCommandKeys(cfgs[..|cfgs| - 1], master, log) + CommandKeys(cfgs[|cfgs| - 1], master, log)
  }

  lemma {:induction false} NoKeys(master: bool, log: bool)
    ensures AllDataKeys([]) == {} && AllCommandKeys([], master, log) == {} && Broadcasts([]) == 0
  {
  }

  lemma {:induction false} KeysMore(cfgs: seq<LidarCfg>, cfg: LidarCfg, master: bool, log: bool)
    ensures AllDataKeys(cfgs + [cfg]) == AllDataKeys(cfgs) + DataKeys(cfg)
    ensures AllCommandKeys(cfgs + [cfg], master, log)
      == AllCommandKeys(cfgs, master, log) + CommandKeys(cfg, master, log)
  {
    assert (cfgs + [cfg])[..|cfgs|] == cfgs;
  }

  lemma {:induction false} KeysOfEach(cfgs: seq<LidarCfg>, i: nat, master: bool, log: bool)
    requires i < |cfgs|
    ensures DataKeys(cfgs[i]) <= AllDataKeys(cfgs)
    ensures CommandKeys(cfgs[i], master, log) <= AllCommandKeys(cfgs, master, log)
  {
    hide DataKeys, CommandKeys;
    if i < |cfgs| - 1 {
      KeysOfEach(cfgs[..|cfgs| - 1], i, master, log);
    }
  }

  lemma {:induction false} KeysOfFirst(cfgs: seq<LidarCfg>, i: nat, master: bool, log: bool)
    requires i <= |cfgs|
    ensures AllDataKeys(cfgs[..i]) <= AllDataKeys(cfgs)
    ensures AllCommandKeys(cfgs[..i], master, log) <= AllCommandKeys(cfgs, master, log)
  {
    hide DataKeys, CommandKeys;
    if i == |cfgs| {
      assert cfgs[..i] == cfgs;
    } else {
      var init := cfgs[..|cfgs| - 1];
      assert init[..i] == cfgs[..i];
      KeysOfFirst(init, i, master, log);
    }
  }

  /** A data port that gets a channel of its own. */
  predicate OwnDataPort(hostIp: string, port: nat) {
    hostIp != "" && port != 0 && port != LOG_PORT && port != DETECTION_PORT
  }

  predicate Distinct(s: seq<Socket>) {
    forall i, j | 0 <= i < j < |s| :: s[i] != s[j]
  }

  function Elements(s: seq<Socket>): set<Socket> {
    set x | x in s
  }

  function Detection(t: Tables): seq<Socket> {
    (if t.detectionSocket > 0 then [t.detectionSocket] else [])
    + (if t.detectionBroadcastSocket > 0 then [t.detectionBroadcastSocket] else [])
  }

  /** The sockets in the order in which a teardown closes them, detection sockets last. */
  function Owned(t: Tables): seq<Socket> {
    t.socketVec + t.broadcast + Detection(t)
  }

  predicate Open(t: Tables, s: Socket) {
    s in Owned(t) || s in t.lost
  }

  /**
   * The sockets are accounted for: each is owned once or lost, the data and command sets partition the
   * socket vector, and every channel, of which the command channels are some, has an open socket.
   */
  predicate Accounted(t: Tables) {
    && Distinct(Owned(t)) && (forall s | s in Owned(t) :: s > 0)
    && (forall s | s in t.lost :: s > 0 && s !in Owned(t))
    && t.commandChannel !! t.dataChannel
    && t.commandChannel + t.dataChannel == Elements(t.socketVec)
    && (forall k | k in t.channelInfo :: Open(t, t.channelInfo[k]))
    && (forall k | k in t.customCommandChannel :: k in t.channelInfo && Open(t, t.customCommandChannel[k]))
  }

  /**
   * The tables agree besides: channels have sockets of their own that are in the vector or are the
   * detection socket, all sockets of the vector have a channel, and a command channel has the socket
   * of the channel of the same key.
   */
  predicate Agree(t: Tables) {
    && Accounted(t)
    && (forall k | k in t.channelInfo :: t.channelInfo[k] in t.socketVec || t.channelInfo[k] == t.detectionSocket > 0)
    && (forall s | s in t.socketVec :: exists k :: k in t.channelInfo && t.channelInfo[k] == s)
    && (forall k, m | k in t.channelInfo && m in t.channelInfo && k != m :: t.channelInfo[k] != t.channelInfo[m])
    && (forall k | k in t.customCommandChannel :: t.channelInfo[k] == t.customCommandChannel[k])
  }

  /** A socket for a key that has none, in one of the two sets. */
  function WithChannel(t: Tables, key: Key, sock: Socket, isData: bool): Tables {
    if isData then
      t.(socketVec := t.socketVec + [sock], channelInfo := t.channelInfo[key := sock],
         dataChannel := t.dataChannel + {sock})
    else
      t.(socketVec := t.socketVec + [sock], channelInfo := t.channelInfo[key := sock],
         commandChannel := t.commandChannel + {sock}, customCommandChannel := t.customCommandChannel[key := sock])
  }

  lemma {:induction false} OwnedMembers(t: Tables, s: Socket)
    ensures s in Owned(t) <==>
      s in t.socketVec || s in t.broadcast || (s == t.detectionSocket > 0) || (s == t.detectionBroadcastSocket > 0)
  {
  }

  /** Putting a new element anywhere into a sequence without it keeps its elements distinct. */
  lemma {:induction false} InsertDistinct(a: seq<Socket>, b: seq<Socket>, s: Socket)
    requires Distinct(a + b) && s !in a + b
    ensures Distinct(a + [s] + b)
    ensures forall x :: x in a + [s] + b <==> x in a + b || x == s
  {
    var all, was := a + [s] + b, a + b;
    forall i, j | 0 <= i < j < |all| ensures all[i] != all[j] {
      assert i < |a| ==> all[i] == was[i];
      assert i > |a| ==> all[i] == was[i - 1];
      assert j < |a| ==> all[j] == was[j];
      assert j > |a| ==> all[j] == was[j - 1];
    }
  }

  lemma {:induction false} OwnedGrows(t: Tables, sock: Socket)
    requires Distinct(Owned(t)) && sock !in Owned(t)
    ensures Distinct(Owned(t.(socketVec := t.socketVec + [sock])))
    ensures Distinct(Owned(t.(broadcast := t.broadcast + [sock])))
  {
    hide Detection, Distinct;
    var a, b, c := t.socketVec, t.broadcast, Detection(t);
    SameDetection(t, sock);
    Regroup(a, b, c, sock);
    InsertDistinct(a, b + c, sock);
    InsertDistinct(a + b, c, sock);
  }

  lemma {:induction false} SameDetection(t: Tables, sock: Socket)
    ensures Detection(t.(socketVec := t.socketVec + [sock])) == Detection(t)
    ensures Detection(t.(broadcast := t.broadcast + [sock])) == Detection(t)
  {
  }

  lemma {:induction false} Regroup(a: seq<Socket>, b: seq<Socket>, c: seq<Socket>, s: Socket)
    ensures a + b + c == a + (b + c)
    ensures a + [s] + b + c == a + [s] + (b + c)
    ensures a + (b + [s]) + c == a + b + [s] + c
  {
  }

  /** A new channel keeps all sockets accounted for. */
  lemma {:induction false} ChannelAccounted(t: Tables, key: Key, sock: Socket, isData: bool)
    requires Accounted(t) && key !in t.channelInfo && sock > 0 && !Open(t, sock)
    ensures
      var u := WithChannel(t, key, sock, isData);
      Accounted(u) && forall s :: Open(u, s) <==> Open(t, s) || s == sock
    ensures key !in t.customCommandChannel
  {
    var u := WithChannel(t, key, sock, isData);
    OwnedGrows(t, sock);
    forall s ensures s in Owned(u) <==> s in Owned(t) || s == sock {
      OwnedMembers(t, s);
      OwnedMembers(u, s);
    }
    assert Owned(u) == Owned(t.(socketVec := t.socketVec + [sock]));
    OwnedMembers(t, sock);
    assert Elements(u.socketVec) == Elements(t.socketVec) + {sock};
    assert sock !in t.commandChannel + t.dataChannel;
  }

  /** A new channel keeps the tables in agreement. */
  lemma {:induction false} ChannelAgrees(t: Tables, key: Key, sock: Socket, isData: bool)
    requires Agree(t) && key !in t.channelInfo && sock > 0 && !Open(t, sock)
    ensures Agree(WithChannel(t, key, sock, isData))
  {
    ChannelAccounted(t, key, sock, isData);
    ChannelSockets(t, sock);
    ChannelKeyed(t, key, sock, isData);
    hide Accounted, Open;
  }

  lemma {:induction false} ChannelKeyed(t: Tables, key: Key, sock: Socket, isData: bool)
    requires Agree(t) && key !in t.channelInfo
    ensures
      var u := WithChannel(t, key, sock, isData);
      forall s | s in u.socketVec :: exists k :: k in u.channelInfo && u.channelInfo[k] == s
  {
    hide Accounted;
    var u := WithChannel(t, key, sock, isData);
    forall s | s in u.socketVec ensures exists k :: k in u.channelInfo && u.channelInfo[k] == s {
      if s == sock {
        assert key in u.channelInfo && u.channelInfo[key] == s;
      } else {
        var k :| k in t.channelInfo && t.channelInfo[k] == s;
        assert k in u.channelInfo && u.channelInfo[k] == s;
      }
    }
  }

  lemma {:induction false} ChannelSockets(t: Tables, sock: Socket)
    requires Agree(t) && sock > 0 && !Open(t, sock)
    ensures sock !in t.socketVec && t.detectionSocket != sock
    ensures forall k | k in t.channelInfo :: t.channelInfo[k] != sock
  {
    OwnedMembers(t, sock);
  }

  /** A channel that exists may be used for commands too. */
  lemma {:induction false} CommandAgrees(t: Tables, key: Key)
    requires Accounted(t) && key in t.channelInfo
    ensures
      var u := t.(customCommandChannel := t.customCommandChannel[key := t.channelInfo[key]]);
      Accounted(u) && (Agree(t) ==> Agree(u)) && Owned(u) == Owned(t)
  {
    var u := t.(customCommandChannel := t.customCommandChannel[key := t.channelInfo[key]]);
    assert Owned(u) == Owned(t);
  }

  lemma {:induction false} BroadcastAgrees(t: Tables, sock: Socket)
    requires Accounted(t) && sock > 0 && !Open(t, sock)
    ensures
      var u := t.(broadcast := t.broadcast + [sock]);
      Accounted(u) && (Agree(t) ==> Agree(u)) && forall s :: Open(u, s) <==> Open(t, s) || s == sock
  {
    var u := t.(broadcast := t.broadcast + [sock]);
    OwnedGrows(t, sock);
    forall s ensures s in Owned(u) <==> s in Owned(t) || s == sock {
      OwnedMembers(t, s);
      OwnedMembers(u, s);
    }
  }

  /** An element or none in place of another. */
  lemma {:induction false} ReplaceDistinct(a: seq<Socket>, b: seq<Socket>, c: seq<Socket>, d: seq<Socket>)
    requires Distinct(a + b + c) && |d| <= 1 && forall s | s in d :: s !in a + b + c
    ensures Distinct(a + d + c) && forall s | s in b :: s !in a + d + c
  {
    var all, rest := a + b + c, a + c;
    PartsDistinct(a + b, c);
    PartsDistinct(a, b);
    forall i, j | 0 <= i < j < |rest| ensures rest[i] != rest[j] {
      assert rest[i] == all[if i < |a| then i else i + |b|];
      assert rest[j] == all[if j < |a| then j else j + |b|];
    }
    assert forall s | s in b :: s in a + b && s !in c;
    if d == [] {
      assert a + d + c == rest;
    } else {
      assert forall s | s in rest :: s in a + b + c;
      InsertDistinct(a, c, d[0]);
      assert a + [d[0]] + c == a + d + c;
    }
  }

  /** The detection sockets are overwritten, and whatever they were before is lost. */
  lemma {:induction false} BroadcastReplaced(t: Tables, sock: Socket)
    requires Accounted(t) && (sock > 0 ==> !Open(t, sock))
    ensures
      var u := t.(detectionBroadcastSocket := sock, lost := t.lost + Held(t.detectionBroadcastSocket));
      Accounted(u) && forall s :: Open(u, s) <==> Open(t, s) || s == sock > 0
  {
    var u := t.(detectionBroadcastSocket := sock, lost := t.lost + Held(t.detectionBroadcastSocket));
    var a := t.socketVec + t.broadcast + (if t.detectionSocket > 0 then [t.detectionSocket] else []);
    var b := if t.detectionBroadcastSocket > 0 then [t.detectionBroadcastSocket] else [];
    var d := if sock > 0 then [sock] else [];
    assert Owned(t) == a + b + [] && Owned(u) == a + d + [];
    ReplaceDistinct(a, b, [], d);
    ReplacedAccounted(t, u, a, b, [], d);
  }

  lemma {:induction false} DetectionReplaced(t: Tables, sock: Socket)
    requires Accounted(t) && (sock > 0 ==> !Open(t, sock))
    ensures
      var u := t.(detectionSocket := sock, lost := t.lost + Held(t.detectionSocket));
      Accounted(u) && forall s :: Open(u, s) <==> Open(t, s) || s == sock > 0
  {
    var u := t.(detectionSocket := sock, lost := t.lost + Held(t.detectionSocket));
    var a := t.socketVec + t.broadcast;
    var b := if t.detectionSocket > 0 then [t.detectionSocket] else [];
    var c := if t.detectionBroadcastSocket > 0 then [t.detectionBroadcastSocket] else [];
    var d := if sock > 0 then [sock] else [];
    assert Owned(t) == a + b + c && Owned(u) == a + d + c;
    ReplaceDistinct(a, b, c, d);
    ReplacedAccounted(t, u, a, b, c, d);
  }

  lemma {:induction false} ReplacedAccounted(t: Tables, u: Tables, a: seq<Socket>, b: seq<Socket>, c: seq<Socket>,
                                            d: seq<Socket>)
    requires Accounted(t) && Owned(t) == a + b + c && Owned(u) == a + d + c && Distinct(Owned(u))
    requires (forall s | s in d :: s > 0 && !Open(t, s)) && forall s | s in b :: s !in Owned(u)
    requires u == t.(detectionSocket := u.detectionSocket, detectionBroadcastSocket := u.detectionBroadcastSocket,
                     lost := t.lost + Elements(b))
    ensures Accounted(u) && forall s :: Open(u, s) <==> Open(t, s) || s in d
  {
    assert forall s :: s in a + b + c <==> s in a || s in b || s in c;
    assert forall s :: s in a + d + c <==> s in a || s in d || s in c;
    assert forall s :: Open(u, s) <==> Open(t, s) || s in d;
  }

  /** The entries for the detection socket: a command channel that is there stays. */
  function WithDetection(t: Tables, key: Key): Tables {
    t.(channelInfo := t.channelInfo[key := t.detectionSocket],
       customCommandChannel := if key in t.customCommandChannel then t.customCommandChannel
                               else t.customCommandChannel[key := t.detectionSocket])
  }

  lemma {:induction false} DetectionEntered(t: Tables, key: Key)
    requires Accounted(t) && t.detectionSocket > 0
    ensures Accounted(WithDetection(t, key)) && Owned(WithDetection(t, key)) == Owned(t)
    ensures Emptied(t) ==> Agree(WithDetection(t, key))
  {
    OwnedMembers(t, t.detectionSocket);
  }

  /**
   * What became of channels that were due: others were not made, none was lost or changed its socket,
   * and if all went well all are there, those for commands as command channels. A new one has its
   * socket among those for data or for commands, as it was due. Tables that agreed still do.
   */
  predicate Grows(t: Tables, u: Tables, ok: bool, data: set<Key>, command: set<Key>) {
    && u.detectionSocket == t.detectionSocket && u.detectionBroadcastSocket == t.detectionBroadcastSocket
    && u.lost == t.lost && (Agree(t) ==> Agree(u))
    && (forall k | k in t.channelInfo :: k in u.channelInfo && u.channelInfo[k] == t.channelInfo[k])
    && (forall k | k in t.customCommandChannel ::
          k in u.customCommandChannel && u.customCommandChannel[k] == t.customCommandChannel[k])
    && (forall k | k in u.channelInfo :: k in t.channelInfo || k in data || k in command)
    && (forall k | k in u.customCommandChannel :: k in t.customCommandChannel || k in command)
    && (ok ==> (forall k | k in data :: k in u.channelInfo)
               && (forall k | k in command :: k in u.channelInfo && k in u.customCommandChannel))
    && (forall k | k in u.channelInfo && k !in t.channelInfo ::
          && (k !in command ==> u.channelInfo[k] in u.dataChannel)
          && (k !in data ==> u.channelInfo[k] in u.commandChannel))
    && t.dataChannel <= u.dataChannel && t.commandChannel <= u.commandChannel
  }

  lemma {:induction false} GrowsNot(t: Tables)
    ensures Grows(t, t, true, {}, {})
    ensures forall data, command :: Grows(t, t, false, data, command)
  {
  }

  /** More channels for data after others, and what a failure among them comes to. */
  lemma {:induction false} DataOn(t: Tables, u: Tables, v: Tables, ok: bool, data: set<Key>, next: set<Key>,
                                  all: set<Key>)
    requires Grows(t, u, true, data, {}) && Grows(u, v, ok, next, {}) && data + next <= all
    ensures Grows(t, v, ok, data + next, {}) && (!ok ==> Grows(t, v, false, all, {}))
  {
    hide Agree;
  }

  lemma {:induction false} CommandsOn(t: Tables, u: Tables, v: Tables, ok: bool, command: set<Key>, next: set<Key>,
                                      all: set<Key>)
    requires Grows(t, u, true, {}, command) && Grows(u, v, ok, {}, next) && command + next <= all
    ensures Grows(t, v, ok, {}, command + next) && (!ok ==> Grows(t, v, false, {}, all))
  {
    hide Agree;
  }

  /** Channels for data and then those for commands, as far as it gets. */
  lemma {:induction false} LidarOn(t: Tables, u: Tables, v: Tables, ok: bool, data: set<Key>, command: set<Key>)
    ensures Grows(t, u, true, data, {}) && Grows(u, v, ok, {}, command) ==> Grows(t, v, ok, data, command)
    ensures Grows(t, u, false, data, {}) ==> Grows(t, u, false, data, command)
  {
    hide Agree;
  }

  /** The channels of one more lidar. */
  lemma {:induction false} LidarsOn(t: Tables, u: Tables, v: Tables, ok: bool, data: set<Key>, command: set<Key>,
                                    data2: set<Key>, command2: set<Key>)
    requires Grows(t, u, true, data, command) && Grows(u, v, ok, data2, command2)
    ensures Grows(t, v, ok, data + data2, command + command2)
  {
    hide Agree;
  }

  lemma {:induction false} FailsWithin(t: Tables, u: Tables, data: set<Key>, command: set<Key>, allData: set<Key>,
                                       allCommand: set<Key>)
    requires Grows(t, u, false, data, command) && data <= allData && command <= allCommand
    ensures Grows(t, u, false, allData, allCommand)
  {
    hide Agree;
  }

  lemma {:induction false} ChannelGrows(t: Tables, key: Key, sock: Socket, isData: bool)
    requires Accounted(t) && key !in t.channelInfo && sock > 0 && !Open(t, sock)
    ensures
      Grows(t, WithChannel(t, key, sock, isData), true, if isData then {key} else {}, if isData then {} else {key})
  {
    hide Accounted, Agree, Open, Owned;
    ChannelAccounted(t, key, sock, isData);
    if Agree(t) {
      ChannelAgrees(t, key, sock, isData);
    }
  }

  /** The host address detection uses: that of the first configuration there is. */
  function DetectionHost(types: seq<LidarCfg>, custom: seq<(nat, LidarCfg)>): string {
    if types != [] then types[0].hostIp else if custom != [] then custom[0].1.hostIp else ""
  }

  function Configs(custom: seq<(nat, LidarCfg)>): (r: seq<LidarCfg>)
    ensures |r| == |custom|
  {
    seq(|custom|, i requires 0 <= i < |custom| => custom[i].1)
  }

  function ByType(types: seq<LidarCfg>): (r: seq<(nat, LidarCfg)>)
    ensures |r| == |types|
  {
    seq(|types|, i requires 0 <= i < |types| => (types[i].deviceType, types[i]))
  }

  /** The last entry for a key. */
  function LastFor(entries: seq<(nat, LidarCfg)>, k: nat): Option<LidarCfg> {
    if entries == [] then None
    else
      var last := entries[|entries| - 1];
      if last.0 == k then Some(last.1) else LastFor(entries[..|entries| - 1], k)
  }

  /** A map after these entries: the last for each key counts, and keys without one are as they were. */
  ghost predicate Latest(was: map<nat, LidarCfg>, now: map<nat, LidarCfg>, entries: seq<(nat, LidarCfg)>) {
    forall k: nat ::
      var last := LastFor(entries, k);
      && (k in now <==> last.Some? || k in was)
      && (k in now ==> now[k] == if last.Some? then last.value else was[k])
  }
  lemma {:induction false} LatestNone(was: map<nat, LidarCfg>)
    ensures Latest(was, was, [])
  {
  }

  lemma {:induction false} LatestMore(was: map<nat, LidarCfg>, now: map<nat, LidarCfg>,
                                      entries: seq<(nat, LidarCfg)>, k: nat)
    requires k < |entries| && Latest(was, now, entries[..k])
    ensures Latest(was, now[entries[k].0 := entries[k].1], entries[..k + 1])
  {
    assert entries[..k + 1][..k] == entries[..k];
  }

  /** What growing tables keep. */
  lemma {:induction false} GrowsKeeps(t: Tables, u: Tables, ok: bool, data: set<Key>, command: set<Key>)
    requires Grows(t, u, ok, data, command)
    ensures u.detectionSocket == t.detectionSocket && u.detectionBroadcastSocket == t.detectionBroadcastSocket
    ensures u.lost == t.lost && (Agree(t) ==> Agree(u))
    ensures forall k | k in t.customCommandChannel ::
      k in u.customCommandChannel && u.customCommandChannel[k] == t.customCommandChannel[k]
    ensures forall k | k in t.channelInfo :: k in u.channelInfo && u.channelInfo[k] == t.channelInfo[k]
  {
  }

  /**
   * The channels after all went well: those of before, that for detection and those due for the
   * lidars, no others; the new ones with a socket for data or for commands, as it was due.
   */
  predicate Started(t: Tables, u: Tables, host: string, data: set<Key>, command: set<Key>) {
    var detection := Key(host, 56000);
    && u.channelInfo.Keys == t.channelInfo.Keys + {detection} + data + command
    && u.customCommandChannel.Keys == t.customCommandChannel.Keys + {detection} + command
    && u.channelInfo[detection] == u.detectionSocket
    && (forall k | k in u.channelInfo && k !in t.channelInfo && k != detection ::
          && (k !in command ==> u.channelInfo[k] in u.dataChannel)
          && (k !in data ==> u.channelInfo[k] in u.commandChannel))
  }

  lemma {:induction false} ChannelsStarted(t: Tables, u: Tables, v: Tables, host: string, data: set<Key>,
                                           command: set<Key>)
    requires
      var key := Key(host, DETECTION_PORT);
      && u.channelInfo == t.channelInfo[key := u.detectionSocket]
      && u.customCommandChannel.Keys == t.customCommandChannel.Keys + {key}
    requires Grows(u, v, true, data, command)
    ensures Started(t, v, host, data, command)
  {
    hide Agree;
  }

  // ----- the operating system's side

  /**
   * Sockets as the process sees them: each creation fails or gives a number never given before.
   * `fails` is the operating system's answer to each of them in turn.
   */
  class Network {
    const fails: nat -> bool
    var calls: nat
    var last: nat
    ghost var openSockets: set<Socket>
    ghost var closed: seq<Socket>

    constructor (fails: nat -> bool)
      ensures Valid() && this.fails == fails && calls == 0 && openSockets == {} && closed == []
    {
      this.fails := fails;
      calls, last, openSockets, closed := 0, 0, {}, [];
    }

    ghost predicate Valid()
      reads this
    {
      forall s | s in openSockets :: 0 < s <= last
    }

    method CreateSocket() returns (sock: Socket)
      requires Valid()
      modifies this
      ensures Valid() && closed == old(closed)
      ensures sock < 0 ==> openSockets == old(openSockets)
      ensures sock >= 0 ==> sock > 0 && sock !in old(openSockets) && openSockets == old(openSockets) + {sock}
      ensures calls == old(calls) + 1 && (sock < 0 <==> fails(old(calls)))
    {
      calls := calls + 1;
      if fails(calls - 1) {
        return -1;
      }
      last := last + 1;
      openSockets := openSockets + {last};
      sock := last;
    }

    method CloseSock(sock: Socket)
      requires Valid() && sock in openSockets
      modifies this
      ensures Valid() && openSockets == old(openSockets) - {sock} && closed == old(closed) + [sock]
      ensures calls == old(calls)
    {
      openSockets := openSockets - {sock};
      closed := closed + [sock];
    }
  }

  class DeviceManager {
    const network: Network
    const masterSdk: bool
    const logEnable: bool
    var channelInfo: map<Key, Socket>
    var customCommandChannel: map<Key, Socket>
    var socketVec: seq<Socket>
    var commandChannel: set<Socket>
    var dataChannel: set<Socket>
    var broadcast: seq<Socket>
    var detectionSocket: Socket
    var detectionBroadcastSocket: Socket
    var detectionThread: bool
    /** The open sockets whose last variable was overwritten. */
    ghost var lost: set<Socket>
    var typeLidarsCfg: map<nat, LidarCfg>
    var customLidarsCfgMap: map<nat, LidarCfg>
    var customLidarsCfg: seq<LidarCfg>

    constructor (network: Network, masterSdk: bool, logEnable: bool)
      requires network.Valid() && network.openSockets == {}
      ensures this.network == network && Valid() && State() == EMPTY && !detectionThread
    {
      this.network, this.masterSdk, this.logEnable := network, masterSdk, logEnable;
      channelInfo, customCommandChannel, socketVec, commandChannel, dataChannel, broadcast :=
        map[], map[], [], {}, {}, [];
      detectionSocket, detectionBroadcastSocket, detectionThread, lost := 0, 0, false, {};
      typeLidarsCfg, customLidarsCfgMap, customLidarsCfg := map[], map[], [];
      new;
      EmptyAgrees();
    }

    ghost function State(): Tables
      reads this
    {
      Tables(channelInfo, customCommandChannel, socketVec, commandChannel, dataChannel, broadcast,
             detectionSocket, detectionBroadcastSocket, lost)
    }

    /** The sockets accounted for are exactly the open ones. */
    ghost predicate Valid()
      reads this, network
    {
      && network.Valid() && Accounted(State())
      && forall s :: s in network.openSockets <==> Open(State(), s)
    }

    /** Since a successful Init, the detection sockets are there and so is the thread. */
    ghost predicate Running()
      reads this, network
    {
      Valid() && detectionThread && detectionSocket > 0 && detectionBroadcastSocket > 0
    }

    /** Nothing but the channel tables changes, and no socket is closed. */
    twostate predicate OnlyChannels()
      reads this, network
    {
      detectionThread == old(detectionThread) && network.closed == old(network.closed)
      && typeLidarsCfg == old(typeLidarsCfg) && customLidarsCfgMap == old(customLidarsCfgMap)
      && customLidarsCfg == old(customLidarsCfg)
    }

    /** The lidar's points need a socket of their own, and the next one is refused. */
    predicate Refused(cfg: LidarCfg)
      reads this, network
    {
      && OwnDataPort(cfg.hostIp, cfg.pointDataPort) && Key(cfg.hostIp, cfg.pointDataPort) !in channelInfo
      && network.fails(network.calls)
    }

    /** The end that both functions below have in common: a socket for a key that has none. */
    method MakeChannel(key: Key, isData: bool) returns (ok: bool)
      requires Valid() && key !in channelInfo
      modifies this, network
      ensures Valid() && OnlyChannels() && broadcast == old(broadcast)
      ensures Grows(old(State()), State(), ok, if isData then {key} else {}, if isData then {} else {key})
      ensures ok == !network.fails(old(network.calls)) && network.calls == old(network.calls) + 1
      ensures !ok ==> State() == old(State())
    {
      hide Accounted, Agree, Open, Owned, Grows;
      var sock := network.CreateSocket();
      ok := sock >= 0;
      if ok {
        EnterChannel(key, sock, isData);
      } else {
        GrowsNot(State());
      }
    }

    /** The entries for a new socket. */
    method EnterChannel(key: Key, sock: Socket, isData: bool)
      requires Accounted(State()) && key !in channelInfo && sock > 0 && !Open(State(), sock)
      modifies this`socketVec, this`channelInfo, this`dataChannel, this`commandChannel, this`customCommandChannel
      ensures Accounted(State()) && State() == WithChannel(old(State()), key, sock, isData)
      ensures Grows(old(State()), State(), true, if isData then {key} else {}, if isData then {} else {key})
      ensures forall s :: Open(State(), s) <==> old(Open(State(), s)) || s == sock
    {
      hide Accounted, Agree, Open, Owned, Grows;
      ChannelAccounted(State(), key, sock, isData);
      ChannelGrows(State(), key, sock, isData);
      socketVec := socketVec + [sock];
      channelInfo := channelInfo[key := sock];
      if isData {
        dataChannel := dataChannel + {sock};
      } else {
        commandChannel := commandChannel + {sock};
        customCommandChannel := customCommandChannel[key := sock];
      }
    }

    method CreateDataSocketAndAddDelegate(hostIp: string, port: nat) returns (ok: bool)
      requires Valid()
      modifies this, network
      ensures Valid() && OnlyChannels() && broadcast == old(broadcast)
      ensures Grows(old(State()), State(), ok, DataKey(hostIp, port), {})
      ensures
        OwnDataPort(hostIp, port) && Key(hostIp, port) !in old(channelInfo) && network.fails(old(network.calls)) ==>
        !ok && State() == old(State()) && network.calls == old(network.calls) + 1
    {
      hide Accounted, Agree, Open, Owned;
      if hostIp == "" || port == 0 || port == LOG_PORT || port == DETECTION_PORT {
        return true;
      }
      var key := Key(hostIp, port);
      if key in channelInfo {
        return true;
      }
      ok := MakeChannel(key, true);
    }

    method CreateCmdSocketAndAddDelegate(hostIp: string, port: nat) returns (ok: bool)
      requires Valid()
      modifies this, network
      ensures Valid() && OnlyChannels() && broadcast == old(broadcast)
      ensures Grows(old(State()), State(), ok, {}, CommandKey(hostIp, port))
    {
      hide Accounted, Agree, Owned;
      if hostIp == "" || port == 0 || port == LOG_PORT {
        return true;
      }
      var key := Key(hostIp, port);
      if key in channelInfo {
        if key !in customCommandChannel {
          CommandAgrees(State(), key);
          customCommandChannel := customCommandChannel[key := channelInfo[key]];
        }
        return true;
      }
      ok := MakeChannel(key, false);
    }

    method CreateDataChannel(cfg: LidarCfg) returns (ok: bool)
      requires Valid()
      modifies this, network
      ensures Valid() && OnlyChannels() && broadcast == old(broadcast)
      ensures Grows(old(State()), State(), ok, DataKeys(cfg), {})
      ensures old(Refused(cfg)) ==> !ok && State() == old(State()) && network.calls == old(network.calls) + 1
    {
      hide Accounted, Agree, Open, Owned, Grows, DataKey;
      ghost var t, all := State(), DataKeys(cfg);
      GrowsNot(t);
      ok := CreateDataSocketAndAddDelegate(cfg.hostIp, cfg.pointDataPort);
      ghost var due := DataKey(cfg.hostIp, cfg.pointDataPort);
      DataOn(t, t, State(), ok, {}, due, all);
      if !ok {
        return;
      }
      ghost var u := State();
      ok := CreateDataSocketAndAddDelegate(cfg.hostIp, cfg.imuDataPort);
      DataOn(t, u, State(), ok, due, DataKey(cfg.hostIp, cfg.imuDataPort), all);
      if !ok {
        return;
      }
      due, u := due + DataKey(cfg.hostIp, cfg.imuDataPort), State();
      ok := CreateDataSocketAndAddDelegate(cfg.hostIp, HOST_DEBUG_POINT_CLOUD_PORT);
      DataOn(t, u, State(), ok, due, DataKey(cfg.hostIp, HOST_DEBUG_POINT_CLOUD_PORT), all);
    }

    method CreateBroadcast() returns (ok: bool)
      requires Valid()
      modifies this, network
      ensures Valid() && OnlyChannels()
      ensures |broadcast| == |old(broadcast)| + if ok then 1 else 0
      ensures Grows(old(State()), State(), ok, {}, {})
    {
      hide Accounted, Agree, Open, Owned;
      var sock := network.CreateSocket();
      if sock < 0 {
        return false;
      }
      BroadcastAgrees(State(), sock);
      broadcast := broadcast + [sock];
      ok := true;
    }

    /** One of the steps below: `all` are the command keys due, `due` those of the steps before. */
    method NextCommandChannel(hostIp: string, port: nat, ghost t: Tables, ghost due: set<Key>, ghost all: set<Key>)
        returns (ok: bool)
      requires Valid() && Grows(t, State(), true, {}, due) && due + CommandKey(hostIp, port) <= all
      modifies this, network
      ensures Valid() && OnlyChannels() && broadcast == old(broadcast)
      ensures Grows(t, State(), ok, {}, if ok then due + CommandKey(hostIp, port) else all)
    {
      hide Accounted, Agree, Open, Owned, Grows, CommandKey;
      ghost var u := State();
      ok := CreateCmdSocketAndAddDelegate(hostIp, port);
      CommandsOn(t, u, State(), ok, due, CommandKey(hostIp, port), all);
    }

    method CreateCommandChannel(cfg: LidarCfg) returns (ok: bool)
      requires Valid()
      modifies this, network
      ensures Valid() && OnlyChannels()
      ensures Grows(old(State()), State(), ok, {}, CommandKeys(cfg, masterSdk, logEnable))
      ensures ok ==> |broadcast| == |old(broadcast)| + if Broadcasting(cfg) then 1 else 0
    {
      hide Accounted, Agree, Open, Owned, Grows, CommandKey;
      ghost var t, all, due := State(), CommandKeys(cfg, masterSdk, logEnable), {};
      GrowsNot(t);
      ok := true;
      if masterSdk {
        ok := NextCommandChannel(cfg.hostIp, cfg.cmdDataPort, t, due, all);
        if !ok {
          return;
        }
        due := due + CommandKey(cfg.hostIp, cfg.cmdDataPort);
      }
      ok := NextCommandChannel(cfg.hostIp, cfg.pushMsgPort, t, due, all);
      if !ok {
        return;
      }
      due := due + CommandKey(cfg.hostIp, cfg.pushMsgPort);
      if cfg.deviceType == PA {
        ok := NextCommandChannel(cfg.hostIp, PA_HOST_FAULT_PORT, t, due, all);
        if !ok {
          return;
        }
        due := due + CommandKey(cfg.hostIp, PA_HOST_FAULT_PORT);
      }
      if cfg.deviceType == MID360 || cfg.deviceType == MID360S || cfg.deviceType == AVIA2 {
        ghost var u := State();
        ok := CreateBroadcast();
        CommandsOn(t, u, State(), ok, due, {}, all);
        if !ok {
          return;
        }
        assert due + {} == due;
      }
      if logEnable {
        ok := NextCommandChannel(cfg.hostIp, cfg.logDataPort, t, due, all);
        due := due + CommandKey(cfg.hostIp, cfg.logDataPort);
      }
      assert ok ==> due == all;
    }

    /** One round of the loop of CreateChannel. */
    method CreateLidarChannels(cfg: LidarCfg) returns (ok: bool)
      requires Valid()
      modifies this, network
      ensures Valid() && OnlyChannels()
      ensures Grows(old(State()), State(), ok, DataKeys(cfg), CommandKeys(cfg, masterSdk, logEnable))
      ensures old(Refused(cfg)) ==> !ok && State() == old(State()) && network.calls == old(network.calls) + 1
      ensures ok ==> |broadcast| == |old(broadcast)| + if Broadcasting(cfg) then 1 else 0
    {
      hide Accounted, Agree, Open, Owned, Grows, DataKeys, CommandKeys;
      ghost var t := State();
      ok := CreateDataChannel(cfg);
      ghost var u := State();
      if ok {
        ok := CreateCommandChannel(cfg);
      }
      LidarOn(t, u, State(), ok, DataKeys(cfg), CommandKeys(cfg, masterSdk, logEnable));
    }

    /** The channels of all configured lidars; it stops at the first socket that cannot be made. */
    method CreateChannels() returns (ok: bool)
      requires Valid()
      modifies this, network
      ensures Valid() && OnlyChannels()
      ensures Grows(old(State()), State(), ok, AllDataKeys(customLidarsCfg),
                    AllCommandKeys(customLidarsCfg, masterSdk, logEnable))
      ensures old(customLidarsCfg != [] && Refused(customLidarsCfg[0])) ==>
        !ok && State() == old(State()) && network.calls == old(network.calls) + 1
      ensures ok ==> |broadcast| == |old(broadcast)| + Broadcasts(customLidarsCfg)
    {
      hide Accounted, Agree, Open, Owned, Grows, AllDataKeys, AllCommandKeys, DataKeys, CommandKeys, Broadcasts;
      hide Broadcasting;
      NoKeys(masterSdk, logEnable);
      ghost var t := State();
      ghost var refused := customLidarsCfg != [] && Refused(customLidarsCfg[0]);
      GrowsNot(t);
      ok := true;
      var i := 0;
      while i < |customLidarsCfg|
        invariant i <= |customLidarsCfg| && ok
        invariant Valid() && OnlyChannels()
        invariant |broadcast| == |old(broadcast)| + Broadcasts(customLidarsCfg[..i])
        invariant i == 0 ==> State() == old(State()) && network.calls == old(network.calls)
        invariant i > 0 ==> !refused
        invariant Grows(t, State(), true, AllDataKeys(customLidarsCfg[..i]),
                        AllCommandKeys(customLidarsCfg[..i], masterSdk, logEnable))
      {
        BroadcastsMore(customLidarsCfg[..i], customLidarsCfg[i]);
        assert customLidarsCfg[..i] + [customLidarsCfg[i]] == customLidarsCfg[..i + 1];
        KeysMore(customLidarsCfg[..i], customLidarsCfg[i], masterSdk, logEnable);
        KeysOfFirst(customLidarsCfg, i + 1, masterSdk, logEnable);
        ok := NextLidar(customLidarsCfg[i], t, AllDataKeys(customLidarsCfg[..i]),
                        AllCommandKeys(customLidarsCfg[..i], masterSdk, logEnable),
                        AllDataKeys(customLidarsCfg), AllCommandKeys(customLidarsCfg, masterSdk, logEnable));
        if !ok {
          return;
        }
        i := i + 1;
      }
      assert customLidarsCfg[..i] == customLidarsCfg;
    }

    /** A round of the loop, as one of all of them. */
    method NextLidar(cfg: LidarCfg, ghost t: Tables, ghost data: set<Key>, ghost command: set<Key>,
                     ghost allData: set<Key>, ghost allCommand: set<Key>) returns (ok: bool)
      requires Valid() && Grows(t, State(), true, data, command)
      requires data + DataKeys(cfg) <= allData && command + CommandKeys(cfg, masterSdk, logEnable) <= allCommand
      modifies this, network
      ensures Valid() && OnlyChannels()
      ensures
        if ok then Grows(t, State(), true, data + DataKeys(cfg), command + CommandKeys(cfg, masterSdk, logEnable))
        else Grows(t, State(), false, allData, allCommand)
      ensures old(Refused(cfg)) ==> !ok && State() == old(State()) && network.calls == old(network.calls) + 1
      ensures ok ==> |broadcast| == |old(broadcast)| + if Broadcasting(cfg) then 1 else 0
    {
      hide Accounted, Agree, Open, Owned, Grows, DataKeys, CommandKeys, Broadcasting;
      ghost var u := State();
      ok := CreateLidarChannels(cfg);
      ghost var data2, command2 := data + DataKeys(cfg), command + CommandKeys(cfg, masterSdk, logEnable);
      LidarsOn(t, u, State(), ok, data, command, DataKeys(cfg), CommandKeys(cfg, masterSdk, logEnable));
      if !ok {
        FailsWithin(t, State(), data2, command2, allData, allCommand);
      }
    }

    /** The broadcast socket, on which detection starts; one that was there is overwritten. */
    method CreateDetectionBroadcast() returns (ok: bool)
      requires Valid()
      modifies this`detectionBroadcastSocket, this`lost, network
      ensures Valid() && network.closed == old(network.closed) && network.calls == old(network.calls) + 1
      ensures ok == (detectionBroadcastSocket > 0) == !network.fails(old(network.calls))
      ensures lost == old(lost) + Held(old(detectionBroadcastSocket))
    {
      hide Accounted, Owned;
      var sock := network.CreateSocket();
      BroadcastReplaced(State(), sock);
      lost := lost + Held(detectionBroadcastSocket);
      detectionBroadcastSocket := sock;
      ok := detectionBroadcastSocket >= 0;
    }

    method CreateDetectionSocket() returns (ok: bool)
      requires Valid()
      modifies this`detectionSocket, this`lost, network
      ensures Valid() && network.closed == old(network.closed) && network.calls == old(network.calls) + 1
      ensures ok == (detectionSocket > 0) == !network.fails(old(network.calls))
      ensures lost == old(lost) + Held(old(detectionSocket))
    {
      hide Accounted, Owned;
      var sock := network.CreateSocket();
      DetectionReplaced(State(), sock);
      lost := lost + Held(detectionSocket);
      detectionSocket := sock;
      ok := detectionSocket >= 0;
    }

    /**
     * Detection sockets left over from a failed start are overwritten without being closed, and a
     * command channel left over keeps the socket it had.
     */
    method CreateDetectionChannel(detectionHostIp: string) returns (ok: bool)
      requires Valid()
      modifies this`detectionSocket, this`detectionBroadcastSocket, this`channelInfo, this`customCommandChannel
      modifies this`lost, network
      ensures Valid() && network.closed == old(network.closed) && (old(Emptied(State())) ==> Agree(State()))
      ensures ok ==> detectionSocket > 0 && detectionBroadcastSocket > 0
      ensures ok == (!network.fails(old(network.calls)) && !network.fails(old(network.calls) + 1))
      ensures ok ==> network.calls == old(network.calls) + 2
      ensures lost == old(lost) + Overwritten(old(network.calls), old(State()))
      ensures
        var key, was := Key(detectionHostIp, DETECTION_PORT), old(customCommandChannel);
        if ok then
          && channelInfo == old(channelInfo)[key := detectionSocket]
          && customCommandChannel == if key in was then was else was[key := detectionSocket]
        else channelInfo == old(channelInfo) && customCommandChannel == was
    {
      hide Accounted, Agree, Owned;
      ok := CreateDetectionBroadcast();
      EmptiedAgrees(State());
      if !ok {
        return;
      }
      var key := Key(detectionHostIp, DETECTION_PORT);
      ok := CreateDetectionSocket();
      EmptiedAgrees(State());
      if !ok {
        return;
      }
      DetectionEntered(State(), key);
      channelInfo := channelInfo[key := detectionSocket];
      if key !in customCommandChannel {
        customCommandChannel := customCommandChannel[key := detectionSocket];
      }
    }

    /** The detection sockets that a start overwrites: the second one only if the first could be made. */
    ghost function Overwritten(calls: nat, t: Tables): set<Socket>
      reads network
    {
      Held(t.detectionBroadcastSocket) + (if network.fails(calls) then {} else Held(t.detectionSocket))
    }

    /** The key's command channel has the socket it had, or else the detection socket. */
    predicate Commanding(was: map<Key, Socket>, key: Key)
      reads this
    {
      key in customCommandChannel
      && customCommandChannel[key] == if key in was then was[key] else detectionSocket
    }

    /** The command channels a failed start has left stay as they are. */
    twostate predicate CommandsStay()
      reads this
    {
      forall k | k in old(customCommandChannel) ::
        k in customCommandChannel && customCommandChannel[k] == old(customCommandChannel)[k]
    }

    /** The detection channel and then those of the lidars. */
    method CreateChannel(detectionHostIp: string) returns (ok: bool)
      requires Valid()
      modifies this, network
      ensures Valid() && network.closed == old(network.closed) && detectionThread == old(detectionThread)
      ensures (old(Emptied(State())) ==> Agree(State())) && CommandsStay()
      ensures ok ==> detectionSocket > 0 && detectionBroadcastSocket > 0
      ensures lost == old(lost) + Overwritten(old(network.calls), old(State()))
      ensures ok ==> Started(old(State()), State(), detectionHostIp, AllDataKeys(customLidarsCfg),
                             AllCommandKeys(customLidarsCfg, masterSdk, logEnable))
      ensures typeLidarsCfg == old(typeLidarsCfg) && customLidarsCfgMap == old(customLidarsCfgMap)
      ensures customLidarsCfg == old(customLidarsCfg)
      ensures old(customLidarsCfg != [] && LateFailure(customLidarsCfg[0])) ==>
        !ok && detectionSocket > 0 && detectionBroadcastSocket > 0
        && socketVec == old(socketVec) && broadcast == old(broadcast) && network.calls == old(network.calls) + 3
        && Commanding(old(customCommandChannel), Key(detectionHostIp, DETECTION_PORT))
    {
      hide Accounted, Agree, Open, Owned, Emptied, Grows, Started, AllDataKeys, AllCommandKeys;
      ghost var t := State();
      ok := CreateDetectionChannel(detectionHostIp);
      if ok {
        ghost var u := State();
        ok := CreateChannels();
        GrowsKeeps(u, State(), ok, AllDataKeys(customLidarsCfg),
                   AllCommandKeys(customLidarsCfg, masterSdk, logEnable));
        if ok {
          ChannelsStarted(t, u, State(), detectionHostIp, AllDataKeys(customLidarsCfg),
                          AllCommandKeys(customLidarsCfg, masterSdk, logEnable));
        }
      }
    }

    /** Init, once the configurations are in place and the threads run. */
    method Init(types: seq<LidarCfg>, custom: seq<(nat, LidarCfg)>) returns (ok: bool)
      requires Valid() && !detectionThread
      modifies this, network
      ensures Valid() && network.closed == old(network.closed)
      ensures ok ==> Running() && customLidarsCfg == Configs(custom)
      ensures ok ==>
        Started(old(State()), State(), DetectionHost(types, custom), AllDataKeys(Configs(custom)),
                AllCommandKeys(Configs(custom), masterSdk, logEnable))
      ensures types != [] || custom != [] ==>
        Latest(old(typeLidarsCfg), typeLidarsCfg, ByType(types))
        && Latest(old(customLidarsCfgMap), customLidarsCfgMap, custom)
      ensures !ok ==> !detectionThread
      ensures (old(Emptied(State())) ==> Agree(State())) && CommandsStay()
      ensures lost ==
        if types == [] && custom == [] then old(lost)
        else old(lost) + Overwritten(old(network.calls), old(State()))
      ensures custom != [] && old(LateFailure(custom[0].1)) ==>
        !ok && detectionSocket > 0 && detectionBroadcastSocket > 0
        && socketVec == old(socketVec) && broadcast == old(broadcast) && network.calls == old(network.calls) + 3
        && Commanding(old(customCommandChannel),
                      Key(DetectionHost(types, custom), DETECTION_PORT))
    {
      hide Accounted, Agree, Open, Owned, OwnDataPort, Started, Latest, Overwritten;
      hide Emptied, AllDataKeys, AllCommandKeys, ByType, Commanding, LateFailure;
      customLidarsCfg := [];
      EmptiedAgrees(State());
      var host;
      if types != [] {
        host := types[0].hostIp;
      } else if custom != [] {
        host := custom[0].1.hostIp;
      } else {
        return false;
      }
      LoadConfig(types, custom);
      ok := CreateChannel(host);
      if !ok {
        return;
      }
      if types != [] || custom != [] {
        detectionThread := true;
      }
    }

    /** The detection sockets can be made, but not the socket for the points of the first configured lidar. */
    predicate LateFailure(first: LidarCfg)
      reads this`channelInfo, network
    {
      var calls := network.calls;
      && OwnDataPort(first.hostIp, first.pointDataPort) && Key(first.hostIp, first.pointDataPort) !in channelInfo
      && !network.fails(calls) && !network.fails(calls + 1) && network.fails(calls + 2)
    }

    /** GetLidarConfigMap: later entries win. */
    method LoadConfig(types: seq<LidarCfg>, custom: seq<(nat, LidarCfg)>)
      modifies this`typeLidarsCfg, this`customLidarsCfgMap, this`customLidarsCfg
      ensures Latest(old(typeLidarsCfg), typeLidarsCfg, ByType(types))
      ensures Latest(old(customLidarsCfgMap), customLidarsCfgMap, custom) && customLidarsCfg == Configs(custom)
    {
      hide Latest;
      customLidarsCfg := [];
      ghost var byType := ByType(types);
      LatestNone(typeLidarsCfg);
      LatestNone(customLidarsCfgMap);
      for k := 0 to |types|
        invariant customLidarsCfg == [] && customLidarsCfgMap == old(customLidarsCfgMap)
        invariant Latest(old(typeLidarsCfg), typeLidarsCfg, byType[..k])
      {
        LatestMore(old(typeLidarsCfg), typeLidarsCfg, byType, k);
        typeLidarsCfg := typeLidarsCfg[types[k].deviceType := types[k]];
      }
      assert byType[..|types|] == byType && custom[..|custom|] == custom;
      for k := 0 to |custom|
        invariant Latest(old(typeLidarsCfg), typeLidarsCfg, byType)
        invariant Latest(old(customLidarsCfgMap), customLidarsCfgMap, custom[..k])
        invariant customLidarsCfg == Configs(custom)[..k]
      {
        LatestMore(old(customLidarsCfgMap), customLidarsCfgMap, custom, k);
        customLidarsCfgMap := customLidarsCfgMap[custom[k].0 := custom[k].1];
        customLidarsCfg := customLidarsCfg + [custom[k].1];
      }
    }

    /**
     * The tail of OnData, for a search answer from a lidar that is not configured yet: it is added
     * with the configuration of its type and all channels are gone through again. Whether that
     * succeeds or not, tables that agree stay in agreement and no socket is lost or closed; but each
     * time all the lidars that want a broadcast socket get another one.
     */
    method Discover(handle: nat, deviceType: nat) returns (ok: bool)
      requires Running()
      modifies this, network
      ensures Running() && network.closed == old(network.closed) && lost == old(lost)
      ensures old(Agree(State())) ==> Agree(State())
      ensures Grows(old(State()), State(), ok, AllDataKeys(customLidarsCfg),
                    AllCommandKeys(customLidarsCfg, masterSdk, logEnable))
      ensures forall h | h in old(customLidarsCfgMap) ::
        h in customLidarsCfgMap && customLidarsCfgMap[h] == old(customLidarsCfgMap)[h]
      ensures handle in old(customLidarsCfgMap) || deviceType !in typeLidarsCfg ==>
        !ok && State() == old(State()) && customLidarsCfg == old(customLidarsCfg)
      ensures typeLidarsCfg == old(typeLidarsCfg)
      ensures ok ==>
        && customLidarsCfgMap == old(customLidarsCfgMap)[handle := typeLidarsCfg[deviceType]]
        && customLidarsCfg == old(customLidarsCfg) + [typeLidarsCfg[deviceType]]
        && |broadcast| == |old(broadcast)| + Broadcasts(customLidarsCfg)
    {
      hide Accounted, Agree, Open, Owned, Grows, AllDataKeys, AllCommandKeys, Broadcasts;
      GrowsNot(State());
      ok := false;
      if handle in customLidarsCfgMap {
        return;
      }
      if deviceType !in typeLidarsCfg {
        return;
      }
      var cfg := typeLidarsCfg[deviceType];
      customLidarsCfgMap := customLidarsCfgMap[handle := cfg];
      customLidarsCfg := customLidarsCfg + [cfg];
      ghost var t := State();
      ok := CreateChannels();
      GrowsKeeps(t, State(), ok, AllDataKeys(customLidarsCfg), AllCommandKeys(customLidarsCfg, masterSdk, logEnable));
    }

    /**
     * Lidars of a broadcasting type discovered one after the other, as long as all their channels can
     * be made: `n` of them open n * b + n * (n + 1) / 2 broadcast sockets, `b` being the number of lidars
     * that had one before.
     */
    method DiscoverAll(handles: seq<nat>, deviceType: nat) returns (ok: bool)
      requires Running() && deviceType in typeLidarsCfg && Broadcasting(typeLidarsCfg[deviceType])
      requires forall i, j | 0 <= i < j < |handles| :: handles[i] != handles[j]
      requires forall i | 0 <= i < |handles| :: handles[i] !in customLidarsCfgMap
      modifies this, network
      ensures Running() && network.closed == old(network.closed)
      ensures ok ==>
        var n, b := |handles|, Broadcasts(old(customLidarsCfg));
        2 * (|broadcast| - |old(broadcast)|) == 2 * n * b + n * (n + 1)
    {
      hide Accounted, Agree, Owned, Broadcasts, Broadcasting, Grows, AllDataKeys, AllCommandKeys;
      ok := true;
      ghost var b := Broadcasts(customLidarsCfg);
      var i := 0;
      while i < |handles|
        invariant i <= |handles| && Running() && network.closed == old(network.closed)
        invariant typeLidarsCfg == old(typeLidarsCfg) && Broadcasts(customLidarsCfg) == b + i
        invariant forall k | i <= k < |handles| :: handles[k] !in customLidarsCfgMap
        invariant |broadcast| == |old(broadcast)| + Reopened(b, i)
      {
        BroadcastsMore(customLidarsCfg, typeLidarsCfg[deviceType]);
        ok := Discover(handles[i], deviceType);
        if !ok {
          return;
        }
        i := i + 1;
      }
      ReopenedIs(b, i);
    }

    /** The channel a configured lidar is sent commands through, or those about its log. */
    function ChannelKey(handle: nat, logger: bool): Key
      requires handle in customLidarsCfgMap
      reads this
    {
      var cfg := customLidarsCfgMap[handle];
      Key(cfg.hostIp, if logger then cfg.logDataPort else cfg.cmdDataPort)
    }

    /** GetCmdChannel and GetLoggerCmdChannel, by the port of the lidar's configuration. */
    method CommandSocket(handle: nat, logger: bool) returns (found: bool, sock: Socket)
      requires Valid()
      ensures found <==> handle in customLidarsCfgMap && ChannelKey(handle, logger) in customCommandChannel
      ensures found ==> sock == customCommandChannel[ChannelKey(handle, logger)] && sock in network.openSockets
    {
      found, sock := false, -1;
      if handle in customLidarsCfgMap {
        var cfg := customLidarsCfgMap[handle];
        var key := Key(cfg.hostIp, if logger then cfg.logDataPort else cfg.cmdDataPort);
        if key in customCommandChannel {
          OwnedMembers(State(), customCommandChannel[key]);
          return true, customCommandChannel[key];
        }
      }
    }

    /**
     * The socket SendCommand and SendLoggerCommand send through: the lidar's command channel if it has
     * one, and the detection socket otherwise; always an open one.
     */
    method SendingSocket(handle: nat, logger: bool) returns (sock: Socket)
      requires Running()
      ensures sock in network.openSockets
      ensures sock ==
        if handle in customLidarsCfgMap && ChannelKey(handle, logger) in customCommandChannel
        then customCommandChannel[ChannelKey(handle, logger)] else detectionSocket
    {
      var found;
      found, sock := CommandSocket(handle, logger);
      if !found {
        sock := detectionSocket;
        OwnedMembers(State(), sock);
      }
    }

    method CloseAll(socks: seq<Socket>)
      requires network.Valid() && Distinct(socks) && forall s | s in socks :: s in network.openSockets
      modifies network
      ensures network.Valid() && network.closed == old(network.closed) + socks
      ensures forall s :: s in network.openSockets <==> s in old(network.openSockets) && s !in socks
    {
      var i := 0;
      while i < |socks|
        invariant i <= |socks| && network.Valid() && network.closed == old(network.closed) + socks[..i]
        invariant forall s :: s in network.openSockets <==> s in old(network.openSockets) && s !in socks[..i]
      {
        assert socks[i] !in socks[..i];
        network.CloseSock(socks[i]);
        assert socks[..i + 1] == socks[..i] + [socks[i]];
        i := i + 1;
      }
      assert socks[..i] == socks;
    }

    method CloseTables()
      requires network.Valid() && Distinct(socketVec) && Distinct(broadcast)
      requires forall s | s in socketVec :: s in network.openSockets
      requires forall s | s in broadcast :: s in network.openSockets
      requires forall s | s in broadcast :: s !in socketVec
      modifies this`socketVec, this`broadcast, network
      ensures network.Valid() && network.closed == old(network.closed) + old(socketVec + broadcast)
      ensures forall s ::
        s in network.openSockets <==> s in old(network.openSockets) && s !in old(socketVec) && s !in old(broadcast)
      ensures socketVec == [] && broadcast == []
    {
      hide Distinct;
      CloseAll(socketVec);
      socketVec := [];
      CloseAll(broadcast);
      broadcast := [];
    }

    method CloseDetection(ghost t: Tables)
      requires network.Valid() && Distinct(Detection(t)) && forall s | s in Detection(t) :: s in network.openSockets
      requires detectionSocket == t.detectionSocket && detectionBroadcastSocket == t.detectionBroadcastSocket
      modifies this`detectionSocket, this`detectionBroadcastSocket, network
      ensures network.Valid() && network.closed == old(network.closed) + Detection(t)
      ensures forall s :: s in network.openSockets <==> s in old(network.openSockets) && s !in Detection(t)
      ensures detectionSocket <= 0 && detectionBroadcastSocket <= 0
    {
      if detectionSocket > 0 {
        network.CloseSock(detectionSocket);
        detectionSocket := -1;
      }
      if detectionBroadcastSocket > 0 {
        assert t.detectionSocket > 0 ==> Detection(t)[0] != Detection(t)[1];
        network.CloseSock(detectionBroadcastSocket);
        detectionBroadcastSocket := -1;
      }
    }

    /** A running manager torn down can be started again, and loses nothing by that. */
    method Restart(types: seq<LidarCfg>, custom: seq<(nat, LidarCfg)>) returns (ok: bool)
      requires Running()
      modifies this, network
      ensures Valid() && Agree(State()) && lost == old(lost) && (ok ==> Running())
      ensures network.closed == old(network.closed) + old(Owned(State()))
    {
      Destory();
      ok := Init(types, custom);
    }

    /** The closing part of Destory. */
    method CloseSockets()
      requires Valid()
      modifies this`socketVec, this`broadcast, this`detectionSocket, this`detectionBroadcastSocket
      modifies this`detectionThread, network
      ensures network.Valid() && socketVec == [] && broadcast == [] && detectionThread == false
      ensures
        var all := if old(detectionThread) then old(Owned(State())) else old(socketVec + broadcast);
        && Distinct(all) && network.closed == old(network.closed) + all
        && forall s :: s in network.openSockets <==> s in old(network.openSockets) && s !in all
      ensures if old(detectionThread) then detectionSocket <= 0 && detectionBroadcastSocket <= 0
        else detectionSocket == old(detectionSocket) && detectionBroadcastSocket == old(detectionBroadcastSocket)
    {
      hide Accounted, Owned, Distinct, Detection;
      ghost var t := State();
      AgreeParts(t);
      CloseTables();
      if detectionThread {
        detectionThread := false;
        CloseDetection(t);
      }
    }

    /**
     * Destory: closes every socket of the tables once, and the detection sockets too when the
     * detection thread had been started; nothing but what was lost stays open then, and a second call
     * closes nothing.
     */
    method Destory()
      requires Valid()
      modifies this, network
      ensures Valid() && Emptied(State()) && lost == old(lost) && detectionThread == false
      ensures
        var all := if old(detectionThread) then old(Owned(State())) else old(socketVec + broadcast);
        && Distinct(all) && network.closed == old(network.closed) + all
        && forall s :: s in network.openSockets <==> s in old(network.openSockets) && s !in all
      ensures old(detectionThread) ==> network.openSockets == lost && Cleared(State())
      ensures !old(detectionThread) ==>
        detectionSocket == old(detectionSocket) && detectionBroadcastSocket == old(detectionBroadcastSocket)
    {
      hide Accounted, Owned, Distinct, Detection;
      ghost var t := State();
      AgreeParts(t);
      CloseSockets();
      typeLidarsCfg, customLidarsCfgMap, customLidarsCfg := map[], map[], [];
      channelInfo, customCommandChannel, commandChannel, dataChannel := map[], map[], {}, {};
      EmptiedAccounted(t, State());
      if old(detectionThread) {
        assert forall s :: s in network.openSockets <==> s in lost;
        assert network.openSockets == lost;
      }
    }
  }

  /** Torn down twice, a manager has closed each of its sockets exactly once and left none of them open. */
  method DestoryTwice(manager: DeviceManager)
    requires manager.Running()
    modifies manager, manager.network
    ensures manager.network.openSockets == old(manager.lost)
    ensures manager.network.closed == old(manager.network.closed) + old(Owned(manager.State()))
    ensures Distinct(old(Owned(manager.State())))
      && old(manager.network.openSockets) == Elements(old(Owned(manager.State()))) + old(manager.lost)
  {
    ghost var all := Owned(manager.State());
    assert forall s :: s in manager.network.openSockets <==> s in Elements(all) + manager.lost;
    manager.Destory();
    manager.Destory();
    assert forall s :: s in manager.network.openSockets <==> s in manager.lost;
  }

  /**
   * After a start of a master SDK every configured lidar is commanded through a channel of its own host
   * and port, whose socket is one for commands or data and not the detection socket, unless its command
   * port is that of detection.
   */
  method StartedCommands(manager: DeviceManager, types: seq<LidarCfg>, custom: seq<(nat, LidarCfg)>, handle: nat)
      returns (ok: bool, sock: Socket)
    requires manager.Valid() && Emptied(manager.State()) && !manager.detectionThread
    requires manager.masterSdk && LastFor(custom, handle).Some?
    requires
      var cfg := LastFor(custom, handle).value;
      cfg.hostIp != "" && cfg.cmdDataPort != 0 && cfg.cmdDataPort != 56000
    modifies manager, manager.network
    ensures ok ==>
      var cfg := LastFor(custom, handle).value;
      && Key(cfg.hostIp, cfg.cmdDataPort) in manager.channelInfo
      && sock == manager.channelInfo[Key(cfg.hostIp, cfg.cmdDataPort)]
      && sock in manager.commandChannel + manager.dataChannel && sock != manager.detectionSocket
      && sock in manager.network.openSockets
  {
    hide Accounted, Agree, Open, Owned, Emptied, Started, AllDataKeys, AllCommandKeys;
    var cfg := LastFor(custom, handle).value;
    ghost var t, command := manager.State(), AllCommandKeys(Configs(custom), manager.masterSdk, manager.logEnable);
    sock := -1;
    ok := manager.Init(types, custom);
    if ok {
      LastIsThere(custom, handle, manager.masterSdk, manager.logEnable);
      ApartFromDetection(t, manager.State(), DetectionHost(types, custom), AllDataKeys(Configs(custom)), command,
                         Key(cfg.hostIp, cfg.cmdDataPort));
      sock := manager.SendingSocket(handle, false);
    }
  }

  lemma {:induction false} LastIsThere(custom: seq<(nat, LidarCfg)>, handle: nat, master: bool, log: bool)
    requires LastFor(custom, handle).Some?
    ensures CommandKeys(LastFor(custom, handle).value, master, log) <= AllCommandKeys(Configs(custom), master, log)
  {
    hide CommandKeys;
    var last := |custom| - 1;
    if custom[last].0 == handle {
      KeysOfEach(Configs(custom), last, master, log);
    } else {
      LastIsThere(custom[..last], handle, master, log);
      assert Configs(custom)[..last] == Configs(custom[..last]);
    }
  }

  lemma {:induction false} ApartFromDetection(t: Tables, u: Tables, host: string, data: set<Key>, command: set<Key>,
                                              key: Key)
    requires Agree(u) && Started(t, u, host, data, command) && key in command && key.port != 56000
    ensures key in u.channelInfo && key in u.customCommandChannel
    ensures u.customCommandChannel[key] == u.channelInfo[key] != u.detectionSocket
    ensures u.channelInfo[key] in u.commandChannel + u.dataChannel
  {
    hide Owned;
  }

  /**
   * A start that fails behind the detection sockets leaves them open for good: both were made, the
   * next socket was refused, Init reports the failure, and the teardown closes nothing, as there is no
   * detection thread.
   */
  method FailedStartLeaks(cfg: LidarCfg) returns (network: Network, manager: DeviceManager, ok: bool)
    requires OwnDataPort(cfg.hostIp, cfg.pointDataPort)
    ensures !ok && network.closed == []
    ensures manager.detectionSocket > 0 && manager.detectionBroadcastSocket > 0
    ensures network.openSockets == {manager.detectionSocket, manager.detectionBroadcastSocket}
    ensures manager.detectionSocket != manager.detectionBroadcastSocket
  {
    hide Accounted, Owned, Distinct;
    network := new Network(n => n >= 2);
    manager := new DeviceManager(network, true, false);
    ok := manager.Init([], [(1, cfg)]);
    DetectionOnly(manager.State());
    assert forall s ::
      s in network.openSockets <==> s == manager.detectionSocket || s == manager.detectionBroadcastSocket;
    assert manager.socketVec + manager.broadcast == [];
    manager.Destory();
    assert network.closed == [] + [];
    assert forall s ::
      s in network.openSockets <==> s == manager.detectionSocket || s == manager.detectionBroadcastSocket;
  }

  /**
   * The start tried again with no teardown in between, as the SDK does not tear down what did not start:
   * whatever the configuration now, both detection sockets of the first try are lost, and the command
   * channel of the first detection key still sends through one of them. If the second start succeeds,
   * they are what a teardown leaves open.
   */
  method RetryLoses(cfg: LidarCfg, types: seq<LidarCfg>, custom: seq<(nat, LidarCfg)>)
      returns (network: Network, manager: DeviceManager, ok: bool)
    requires OwnDataPort(cfg.hostIp, cfg.pointDataPort) && (types != [] || custom != [])
    ensures |manager.lost| == 2 && manager.lost <= network.openSockets
    ensures
      var key := Key(cfg.hostIp, DETECTION_PORT);
      key in manager.customCommandChannel && manager.customCommandChannel[key] in manager.lost
    ensures ok ==> manager.Running()
  {
    hide Agree, Accounted, Distinct;
    network := new Network(n => n == 2);
    manager := new DeviceManager(network, true, false);
    ok := manager.Init([], [(1, cfg)]);
    ghost var one, two := manager.detectionSocket, manager.detectionBroadcastSocket;
    DetectionOnly(manager.State());
    ok := manager.Init(types, custom);
    assert manager.lost == {one, two};
  }

  lemma {:induction false} DetectionOnly(t: Tables)
    requires Accounted(t) && t.socketVec == [] && t.broadcast == []
    requires t.detectionSocket > 0 && t.detectionBroadcastSocket > 0
    ensures forall s :: s in Owned(t) <==> s == t.detectionSocket || s == t.detectionBroadcastSocket
    ensures t.detectionSocket != t.detectionBroadcastSocket
  {
    assert Owned(t) == [t.detectionSocket, t.detectionBroadcastSocket];
    assert Owned(t)[0] != Owned(t)[1];
  }

  lemma {:induction false} EmptiedAgrees(t: Tables)
    ensures Accounted(t) && Emptied(t) ==> Agree(t)
  {
  }

  /** A teardown of `t` that leaves its detection sockets alone or closes them both. */
  lemma {:induction false} EmptiedAccounted(t: Tables, u: Tables)
    requires Accounted(t) && Emptied(u) && u.lost == t.lost
    requires
      || (u.detectionSocket <= 0 && u.detectionBroadcastSocket <= 0)
      || (u.detectionSocket == t.detectionSocket && u.detectionBroadcastSocket == t.detectionBroadcastSocket)
    ensures Accounted(u) && Owned(u) == Detection(u)
    ensures u.detectionSocket == t.detectionSocket && u.detectionBroadcastSocket == t.detectionBroadcastSocket ==>
      Detection(u) == Detection(t)
    ensures u.detectionSocket <= 0 && u.detectionBroadcastSocket <= 0 ==> Owned(u) == []
  {
    OwnedParts(t);
    assert [] + [] + Detection(u) == Detection(u);
    assert forall s | s in Detection(u) :: s in Owned(t);
  }

  lemma {:induction false} EmptyAgrees()
    ensures Agree(EMPTY) && Owned(EMPTY) == []
  {
  }

  lemma {:induction false} OwnedParts(t: Tables)
    requires Distinct(Owned(t))
    ensures Distinct(t.socketVec) && Distinct(t.broadcast) && Distinct(Detection(t))
    ensures forall s | s in t.broadcast :: s !in t.socketVec
    ensures forall s | s in Detection(t) :: s !in t.socketVec && s !in t.broadcast
    ensures Distinct(t.socketVec + t.broadcast)
  {
    hide Detection;
    PartsDistinct(t.socketVec + t.broadcast, Detection(t));
    PartsDistinct(t.socketVec, t.broadcast);
  }

  lemma {:induction false} AgreeParts(t: Tables)
    requires Accounted(t)
    ensures Distinct(Owned(t)) && Distinct(t.socketVec) && Distinct(t.broadcast) && Distinct(Detection(t))
    ensures forall s | s in t.broadcast :: s !in t.socketVec
    ensures forall s | s in Detection(t) :: s !in t.socketVec && s !in t.broadcast
    ensures Distinct(t.socketVec + t.broadcast)
    ensures forall s :: s in Owned(t) <==> s in t.socketVec || s in t.broadcast || s in Detection(t)
    ensures forall s | s in t.lost :: s !in t.socketVec && s !in t.broadcast && s !in Detection(t)
    ensures Owned(t) == t.socketVec + t.broadcast + Detection(t)
  {
    hide Distinct, Detection;
    OwnedParts(t);
  }

  lemma {:induction false} PartsDistinct(a: seq<Socket>, b: seq<Socket>)
    requires Distinct(a + b)
    ensures Distinct(a) && Distinct(b) && forall s | s in b :: s !in a
  {
    var all := a + b;
    forall i, j | 0 <= i < j < |a| ensures a[i] != a[j] {
      assert all[i] == a[i] && all[j] == a[j];
    }
    forall i, j | 0 <= i < j < |b| ensures b[i] != b[j] {
      assert all[|a| + i] == b[i] && all[|a| + j] == b[j];
    }
    forall i, j | 0 <= i < |a| && 0 <= j < |b| ensures a[i] != b[j] {
      assert all[i] == a[i] && all[|a| + j] == b[j];
    }
  }
}
