/** The manager object: each handler's work before its first await is one step of the state machine. */
module Managers {
  import opened Bytes
  import opened AmxDevices
  import opened Packets
  import opened Envelopes
  import opened EndToEnd
  import opened Rc4Cipher
  import opened Clients
  import H = Handshakes

  class DeviceInfoData {
    const Device: ushort
    var System: ushort

    constructor (device: ushort, system: ushort)
      ensures Device == device && System == system
    {
      Device, System := device, system;
    }
  }

  class CreateDeviceInfoRequest {
    const DeviceInfo: DeviceInfoData
    const Counts: H.Counts
    var State: H.ConnectionState
    var MsgID: ushort
    /** The number of the allocation that MsgID came from. */
    ghost var born: nat

    constructor (msgId: ushort, ghost born: nat, info: DeviceInfoData, counts: H.Counts)
      ensures State == H.Uninitialized && MsgID == msgId && this.born == born
      ensures DeviceInfo == info && Counts == counts
    {
      this.DeviceInfo, this.Counts := info, counts;
      this.State, this.MsgID, this.born := H.Uninitialized, msgId, born;
    }

    ghost function AsRequest(): H.Request<DeviceInfoData>
      reads this
    {
      H.Request(State, MsgID, born, DeviceInfo.Device, DeviceInfo, Counts)
    }
  }

  type Requests = set<CreateDeviceInfoRequest>

  ghost function RequestMap(rs: Requests): (m: map<CreateDeviceInfoRequest, H.Request<DeviceInfoData>>)
    reads rs
    ensures m.Keys == rs
  {
    map r | r in rs :: r.AsRequest()
  }

  ghost function SystemMap(infos: set<DeviceInfoData>): (m: map<DeviceInfoData, ushort>)
    reads infos
    ensures m.Keys == infos
  {
    map i | i in infos :: i.System
  }

  /** One request is new or changed, the others are as they were. */
  twostate lemma RequestChanged(rs: Requests, new r: CreateDeviceInfoRequest)
    requires forall q | q in rs && q != r :: unchanged(q)
    ensures RequestMap(rs + {r}) == old(RequestMap(rs))[r := r.AsRequest()]
    ensures r in rs ==> RequestMap(rs) == old(RequestMap(rs))[r := r.AsRequest()]
  {
  }

  twostate lemma SystemChanged(infos: set<DeviceInfoData>, new info: DeviceInfoData)
    requires forall i | i in infos && i != info :: unchanged(i)
    ensures SystemMap(infos + {info}) == old(SystemMap(infos))[info := info.System]
    ensures info in infos ==> SystemMap(infos) == old(SystemMap(infos))[info := info.System]
  {
  }

  /** An authentication for RC4 sending leads to a mode in which every request that fits is written as an envelope
      which the cipher of the client opens. */
  lemma AuthenticatedSendsEncrypted(s: Machine, id: ushort, status: ushort, system: ushort,
                                    again: CreateDeviceInfoRequest, c: Cipher, raw: seq<byte>, source: AmxDevice,
                                    dest: AmxDevice, salt: Salt)
    requires H.Hits(s, id) && Bit(status, 0) == 1 && Bit(status, 2) == 1 && |raw| <= 65521
    ensures var mode := H.Step(s, H.ChallengeAck(id, status, system, again)).mode;
            var w := SendBytes(Some(c), raw, source, dest, mode, salt).0;
            && w.Returned? && w.value[0] == 4 && ParsedEnvelope(w.value).Returned?
            && Decrypted(c, ParsedEnvelope(w.value).value).0 == raw
  {
    hide H.Step, H.Masked, H.Authenticated, Bit, Built, ParsedEnvelope, Decrypted, SendBytes;
    var e := H.ChallengeAck(id, status, system, again);
    H.ModeStep(s, e);
    H.StatusBits(status, 2);
    H.OnlyAnswersAuthenticate(e);
    assert H.Authenticates(e);
    WrittenByMode(Some(c), raw, source, dest, H.Step(s, e).mode, salt);
  }

  type Machine = H.State<CreateDeviceInfoRequest, DeviceInfoData>

  class ICSPManager {
    const ids: MsgIdCounter
    const client: ICSPClient
    var CurrentSystem: ushort
    var mPendingDevicesRequests: map<ushort, CreateDeviceInfoRequest>
    var mDevices: map<ushort, DeviceInfoData>
    /** The cached requests, and the device numbers cached by a ping. */
    var cache: Requests
    var deviceCache: set<ushort>

    /** All requests and device infos so far, and the number of message ids drawn. */
    ghost var requests: Requests
    ghost var infos: set<DeviceInfoData>
    ghost var allocs: nat

    ghost predicate Valid()
      reads this, ids, requests
    {
      && ids.value == H.MsgId(allocs)
      && (forall id | id in mPendingDevicesRequests :: mPendingDevicesRequests[id] in requests)
      && (forall r | r in requests :: r.DeviceInfo in infos)
    }

    ghost function State(): Machine
      reads this, client, requests, infos
    {
      H.State(CurrentSystem, client.EncryptionMode, client.CryptoProvider != null, allocs,
              RequestMap(requests), mPendingDevicesRequests, cache, deviceCache, mDevices, SystemMap(infos))
    }

    constructor (ids: MsgIdCounter, client: ICSPClient)
      requires ids.value == 0 && client.EncryptionMode == 0 && client.CryptoProvider == null
      ensures Valid() && State() == H.Initial() && this.ids == ids && this.client == client
    {
      this.ids, this.client := ids, client;
      CurrentSystem, mPendingDevicesRequests, mDevices, cache, deviceCache := 0, map[], map[], {}, {};
      requests, infos, allocs := {}, {}, 0;
    }

    /** What serializing a message without an id of its own does to the counter. */
    method NextId() returns (id: ushort)
      requires Valid()
      modifies this`allocs, ids
      ensures Valid() && allocs == State().allocs == old(State()).allocs + 1 && id == H.MsgId(allocs)
      ensures State() == old(State()).(allocs := allocs)
    {
      hide RequestMap, SystemMap;
      ids.value := ToUShort(ids.value + 1);
      allocs := allocs + 1;
      id := ids.value;
    }

    ghost method Know(info: DeviceInfoData)
      requires Valid()
      modifies this`infos
      ensures Valid() && infos == old(infos) + {info}
      ensures State() == old(State()).(systems := old(State()).systems[info := info.System])
    {
      hide RequestMap, SystemMap;
      infos := infos + {info};
      SystemChanged(old(infos), info);
    }

    method NewRequest(id: ushort, info: DeviceInfoData, counts: H.Counts) returns (r: CreateDeviceInfoRequest)
      requires Valid() && info in infos
      modifies this`requests
      ensures Valid() && fresh(r) && requests == old(requests) + {r}
      ensures State() == old(State()).(requests :=
                old(State()).requests[r := H.Request(H.Uninitialized, id, allocs, info.Device, info, counts)])
    {
      hide RequestMap, SystemMap;
      r := new CreateDeviceInfoRequest(id, allocs, info, counts);
      requests := requests + {r};
      RequestChanged(old(requests), r);
    }

    method Track(id: ushort, r: CreateDeviceInfoRequest)
      requires Valid() && r in requests
      modifies this`mPendingDevicesRequests, this`cache
      ensures Valid()
      ensures var s := old(State());
              State() == s.(pending := H.TryAdd(s.pending, id, r), cache := s.cache + {r})
    {
      hide H.TryAdd, RequestMap, SystemMap;
      Put(id, r);
      cache := cache + {r};
    }

    method CreateDeviceInfoAsync(info: DeviceInfoData, counts: H.Counts) returns (r: CreateDeviceInfoRequest)
      requires Valid()
      modifies this`mPendingDevicesRequests, this`cache, this`requests, this`infos, this`allocs, ids
      ensures Valid() && fresh(r) && requests == old(requests) + {r} && infos == old(infos) + {info}
      ensures var s := old(State());
              State() == H.Register(s.(systems := s.systems[info := info.System]), r, info.Device, info, counts)
    {
      hide H.TryAdd, H.MsgId, State;
      Know(info);
      var id := NextId();
      r := NewRequest(id, info, counts);
      Track(id, r);
    }

    /** TryRemove, the removal from the cache, and the new state of the request. */
    method Retire(id: ushort) returns (r: CreateDeviceInfoRequest)
      requires Valid() && id in mPendingDevicesRequests
      modifies this`mPendingDevicesRequests, this`cache, requests
      ensures Valid() && r == old(mPendingDevicesRequests)[id]
      ensures H.Hits(old(State()), id) && r == old(State()).pending[id] && r in requests && r.DeviceInfo in infos
      ensures var q := old(State()).requests[r];
              q.info == r.DeviceInfo && q.device == r.DeviceInfo.Device && q.counts == r.Counts
      ensures State() == H.Retire(old(State()), id)
    {
      hide RequestMap, SystemMap;
      r := mPendingDevicesRequests[id];
      assert old(RequestMap(requests))[r] == old(r.AsRequest()) by { EntryOf(requests, r); }
      mPendingDevicesRequests := mPendingDevicesRequests - {id};
      cache := cache - {r};
      r.State := H.Connected;
      RequestChanged(requests, r);
      assert r.AsRequest() == old(r.AsRequest()).(state := H.Connected);
    }

    static lemma EntryOf(rs: Requests, r: CreateDeviceInfoRequest)
      requires r in rs
      ensures RequestMap(rs)[r] == r.AsRequest()
    {
    }

    method SeeSystem(system: ushort)
      modifies this`CurrentSystem
      ensures State() == H.WithSystem(old(State()), system)
    {
      if CurrentSystem == 0 {
        CurrentSystem := system;
      }
    }

    method SetSystem(info: DeviceInfoData, system: ushort)
      requires Valid() && info in infos
      modifies info
      ensures Valid() && State() == old(State()).(systems := old(State()).systems[info := system])
      ensures info.System == system
    {
      hide SystemMap, RequestMap;
      info.System := system;
      SystemChanged(infos, info);
    }

    method AddDevice(info: DeviceInfoData)
      requires Valid()
      modifies this`mDevices
      ensures Valid() && State() == old(State()).(devices := H.TryAdd(old(State()).devices, info.Device, info))
    {
      hide RequestMap, SystemMap;
      mDevices := H.TryAdd(mDevices, info.Device, info);
    }

    method SetMode(mode: ushort)
      requires Valid()
      modifies client`EncryptionMode
      ensures Valid() && State() == old(State()).(mode := mode)
    {
      hide RequestMap, SystemMap;
      client.EncryptionMode := mode;
    }

    ghost predicate IsPending(id: ushort)
      requires Valid()
      reads this, ids, client, requests, infos
      ensures IsPending(id) <==> H.Hits(State(), id)
    {
      hide RequestMap, SystemMap;
      id in mPendingDevicesRequests
    }

    /** MsgCmdAck */
    method OnAck(id: ushort, system: ushort)
      requires Valid()
      modifies this`CurrentSystem, this`mPendingDevicesRequests, this`cache, this`mDevices, requests, infos
      ensures Valid() && State() == H.OnAck(old(State()), id, system)
    {
      hide H.TryAdd, H.WithSystem, H.Retire, H.Hits, State;
      SeeSystem(system);
      ghost var pending := IsPending(id);
      if id in mPendingDevicesRequests {
        var lRequestInfo := Retire(id);
        var lDeviceInfo := lRequestInfo.DeviceInfo;
        SetSystem(lDeviceInfo, system);
        AddDevice(lDeviceInfo);
      }
    }

    /** MsgCmdChallengeAckMD5; again is the request that replaces an authenticated one. */
    method OnChallengeAck(id: ushort, status: ushort, system: ushort) returns (again: CreateDeviceInfoRequest?)
      requires Valid()
      modifies this, ids, client`EncryptionMode, requests, infos
      ensures Valid()
      ensures again != null <==> H.Hits(old(State()), id) && H.Authenticated(status)
      ensures again != null ==>
                fresh(again) && State() == H.OnChallengeAck(old(State()), id, status, system, again)
      ensures again == null ==> State() == if H.Hits(old(State()), id) then H.Retire(old(State()), id) else old(State())
    {
      hide H.TryAdd, H.Retire, H.Register, H.Masked, H.Hits, H.Authenticated, H.OnChallengeAck, State;
      again := null;
      ghost var pending := IsPending(id);
      if id in mPendingDevicesRequests {
        var lRequestInfo := Retire(id);
        if H.Authenticated(status) {
          SetMode(H.Masked(status));
          var lDeviceInfo := lRequestInfo.DeviceInfo;
          SetSystem(lDeviceInfo, system);
          ghost var marked := State();
          again := CreateDeviceInfoAsync(lDeviceInfo, lRequestInfo.Counts);
          assert marked.systems[lDeviceInfo := system] == marked.systems;
          H.Replaced(old(State()), id, status, system, again);
        }
      }
    }

    /** MsgCmdChallengeRequestMD5: the hash of the challenge keys the cipher; without a challenge hashing throws. */
    method OnChallengeRequest(id: ushort, hash: array?<byte>)
      requires Valid() && (hash != null ==> hash.Length == 16)
      modifies this, ids, client`CryptoProvider, requests
      ensures Valid()
      ensures State() == if hash == null then old(State()) else H.OnChallengeRequest(old(State()), id)
      ensures hash != null ==>
                client.CryptoProvider != null && fresh(client.CryptoProvider) && client.CryptoProvider.Valid()
                && client.CryptoProvider.State() == Keyed(hash[..])
    {
      hide H.OnChallengeRequest, State, Keyed, RC4.State, RC4.Valid, RequestMap, SystemMap;
      if hash == null {
        return;
      }
      InstallCipher(hash);
      AnswerChallenge(id);
      H.CipherInstalled(old(State()), id);
    }

    /** Builds the response, whose id a pending request takes over. */
    method AnswerChallenge(id: ushort)
      requires Valid() && State().crypto
      modifies this`mPendingDevicesRequests, this`allocs, ids, requests
      ensures Valid() && State() == H.OnChallengeRequest(old(State()), id)
    {
      hide H.TryAdd, H.MsgId, H.Hits, H.OnChallengeRequest, State, RequestMap, SystemMap;
      ghost var pending := IsPending(id);
      var responseId := NextId();
      H.Challenging(old(State()), id);
      if id in mPendingDevicesRequests {
        Rekey(id, responseId);
      }
    }

    method InstallCipher(hash: array<byte>)
      requires Valid() && hash.Length == 16
      modifies client`CryptoProvider
      ensures Valid() && State() == old(State()).(crypto := true)
      ensures client.CryptoProvider != null && fresh(client.CryptoProvider) && client.CryptoProvider.Valid()
      ensures fresh(client.CryptoProvider.KeyValue) && fresh(client.CryptoProvider.mKeyValueLast)
      ensures client.CryptoProvider.State() == Keyed(hash[..])
    {
      hide RequestMap, SystemMap, Keyed;
      var crypto := CreateRC4(hash);
      SetCrypto(crypto.value);
    }

    method SetCrypto(crypto: RC4)
      requires Valid()
      modifies client`CryptoProvider
      ensures Valid() && State() == old(State()).(crypto := true) && client.CryptoProvider == crypto
    {
      hide RequestMap, SystemMap;
      client.CryptoProvider := crypto;
    }

    /** The pending request moves to the id of the response. */
    method Rekey(id: ushort, responseId: ushort)
      requires Valid() && id in mPendingDevicesRequests && responseId == H.MsgId(allocs)
      modifies this`mPendingDevicesRequests, requests
      ensures Valid() && H.Hits(old(State()), id)
      ensures var s := old(State());
              var r := s.pending[id];
              State() == s.(requests := s.requests[r := s.requests[r].(state := H.Unverified, msgId := responseId,
                                                                       born := allocs)],
                            pending := H.TryAdd(s.pending - {id}, responseId, r))
    {
      hide H.TryAdd, State;
      ghost var pending := IsPending(id);
      var lRequestInfo := Take(id);
      MarkUnverified(lRequestInfo, responseId);
      Put(responseId, lRequestInfo);
    }

    method Take(id: ushort) returns (r: CreateDeviceInfoRequest)
      requires Valid() && id in mPendingDevicesRequests
      modifies this`mPendingDevicesRequests
      ensures Valid() && r in requests && H.Hits(old(State()), id) && r == old(State()).pending[id]
      ensures State() == old(State()).(pending := old(State()).pending - {id})
    {
      hide RequestMap, SystemMap;
      r := mPendingDevicesRequests[id];
      mPendingDevicesRequests := mPendingDevicesRequests - {id};
    }

    method MarkUnverified(r: CreateDeviceInfoRequest, id: ushort)
      requires Valid() && r in requests
      modifies r
      ensures Valid() && r in old(State()).requests
      ensures var s := old(State());
              State() == s.(requests := s.requests[r := s.requests[r].(state := H.Unverified, msgId := id,
                                                                       born := allocs)])
    {
      hide RequestMap, SystemMap;
      EntryOf(requests, r);
      r.State, r.MsgID, r.born := H.Unverified, id, allocs;
      RequestChanged(requests, r);
    }

    method Put(id: ushort, r: CreateDeviceInfoRequest)
      requires Valid() && r in requests
      modifies this`mPendingDevicesRequests
      ensures Valid() && State() == old(State()).(pending := H.TryAdd(old(State()).pending, id, r))
    {
      hide RequestMap, SystemMap;
      mPendingDevicesRequests := H.TryAdd(mPendingDevicesRequests, id, r);
    }

    /** MsgCmdPingRequest */
    method OnPing(device: ushort)
      requires Valid()
      modifies this`deviceCache
      ensures Valid() && State() == H.Step(old(State()), H.Ping(device))
    {
      hide RequestMap, SystemMap, H.Register, H.OnAck, H.OnChallengeAck, H.OnChallengeRequest, H.OnExpire;
      if device in mDevices {
        deviceCache := deviceCache + {device};
      }
    }

    /** The client's reset of its mode, and the manager's handler of the status change. */
    method OnLinkDown()
      requires Valid()
      modifies this`CurrentSystem, this`mDevices, this`cache, this`deviceCache, client`EncryptionMode, client`connected
      ensures Valid() && State() == H.Step(old(State()), H.LinkDown)
    {
      hide State, H.Register, H.OnAck, H.OnChallengeAck, H.OnChallengeRequest, H.OnExpire;
      Disconnected();
      Forget();
    }

    method Disconnected()
      requires Valid()
      modifies client`EncryptionMode, client`connected
      ensures Valid() && State() == old(State()).(mode := 0)
    {
      hide RequestMap, SystemMap;
      client.OnClientDisconnected();
    }

    method Forget()
      requires Valid()
      modifies this`CurrentSystem, this`mDevices, this`cache, this`deviceCache
      ensures Valid()
      ensures State() == old(State()).(currentSystem := 0, devices := map[], cache := {}, deviceCache := {})
    {
      hide RequestMap, SystemMap;
      CurrentSystem, mDevices, cache, deviceCache := 0, map[], {}, {};
    }

    /** OnCacheEntryRemovedCallback for an entry that timed out. */
    method OnExpired(r: CreateDeviceInfoRequest)
      requires Valid() && r in cache && r in requests
      modifies this`cache, this`mDevices
      ensures Valid() && State() == H.OnExpire(old(State()), r)
    {
      hide RequestMap, SystemMap;
      EntryOf(requests, r);
      cache := cache - {r};
      if r.State == H.Disconnected {
        mDevices := mDevices - {r.DeviceInfo.Device};
      }
    }

    /** The unsigned port loop, followed for any number of rounds: the ports that sizes are reported for. */
    method ReportedPorts(count: ushort, rounds: nat) returns (ports: seq<ushort>, done: bool)
      ensures done <==> count < 0xFFFF && count <= rounds
      ensures |ports| == (if done then count else rounds) && forall n | 0 <= n < |ports| :: ports[n] == H.PortInRound(n)
    {
      ports := [];
      var port := 1;
      while port <= count && |ports| < rounds
        decreases rounds - |ports|
        invariant |ports| <= rounds && port == H.PortInRound(|ports|)
        invariant count < 0xFFFF ==> |ports| <= count
        invariant forall n | 0 <= n < |ports| :: ports[n] == H.PortInRound(n)
      {
        ports := ports + [port];
        port := ToUShort(port + 1);
      }
      done := port > count;
    }
  }
}
