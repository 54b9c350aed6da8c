/** Device requests as a state machine: pending index, cache, devices, and the encryption mode. R and I identify
    request objects and device info objects. */
module Handshakes {
  import opened Bytes

  datatype ConnectionState = Uninitialized | Unverified | Connected | Disconnected

  datatype Counts = Counts(ports: ushort, channels: ushort, levels: ushort)

  /** A request object: born is the number of the allocation that its current message id came from. */
  datatype Request<I> = Request(state: ConnectionState, msgId: ushort, born: nat, device: ushort, info: I,
                                counts: Counts)

  datatype State<R(==), I(==)> = State(
    currentSystem: ushort, mode: ushort, crypto: bool, allocs: nat,
    requests: map<R, Request<I>>, pending: map<ushort, R>, cache: set<R>, deviceCache: set<ushort>,
    devices: map<ushort, I>, systems: map<I, ushort>)

  /** One atomic step: a call, a received message, a change of the link, or a cache entry that times out. A read loop
      that ends on a failed packet does not report the loss of the link. */
  datatype Event<R, I> =
    | Create(r: R, info: I, device: ushort, system: ushort, counts: Counts)
    | Ack(id: ushort, system: ushort)
    | ChallengeAck(id: ushort, status: ushort, system: ushort, again: R)
    | ChallengeRequest(id: ushort, hasChallenge: bool)
    | Ping(device: ushort)
    | DeviceInfo(system: ushort)
    | LinkUp
    | LinkDown
    | LoopFailed
    | Expire(request: R)
    | ExpireDevice(device: ushort)
    | OtherMessage

  // ----- message ids -----

  /** The static counter after n increments. */
  function MsgId(n: nat): ushort { n % 0x1_0000 }

  predicate Authenticated(status: ushort) { status % 2 == 1 }

  /** status & (RC4_Receive | RC4_Send) */
  function Masked(status: ushort): ushort { status / 2 % 4 * 2 }

  predicate Sends(mode: ushort) { mode / 4 % 2 == 1 }

  /** The bits of the status: digit 0 authenticates, digits 1 and 2 become the mode, and digit 2 of the mode is for
      sending. */
  lemma StatusBits(status: ushort, k: nat)
    ensures Authenticated(status) <==> Bit(status, 0) == 1
    ensures Sends(status) <==> Bit(status, 2) == 1
    ensures Bit(Masked(status), k) == if k == 1 || k == 2 then Bit(status, k) else 0
  {
    var mode, half := Masked(status), status / 2;
    assert mode / 2 == half % 4 && mode % 2 == 0;
    assert Bit(status, 1) == Bit(half, 0) && Bit(status, 2) == Bit(half, 1) == Bit(half / 2, 0);
    if k > 0 {
      assert Bit(mode, k) == Bit(half % 4, k - 1);
      LowDigits(half, k - 1);
    }
  }

  lemma LowDigits(n: nat, k: nat)
    ensures Bit(n % 4, k) == if k < 2 then Bit(n, k) else 0
  {
    assert n % 4 / 2 == n / 2 % 2;
    if k > 0 {
      assert Bit(n % 4, k) == Bit(n % 4 / 2, k - 1);
      if k > 1 {
        assert Bit(n / 2 % 2, k - 1) == Bit(n / 2 % 2 / 2, k - 2) == Bit(0, k - 2);
        BitOfZero(k - 2);
      }
    }
  }

  lemma {:induction false} BitOfZero(k: nat)
    ensures Bit(0, k) == 0
  {
    if k > 0 {
      BitOfZero(k - 1);
    }
  }

  // ----- steps -----

  /** ConcurrentDictionary.TryAdd: an existing key keeps its entry. */
  function TryAdd<K, V>(m: map<K, V>, k: K, v: V): map<K, V> {
    if k in m then m else m[k := v]
  }

  function Register<R, I>(s: State<R, I>, r: R, device: ushort, info: I, counts: Counts): State<R, I> {
    var n := s.allocs + 1;
    s.(allocs := n,
       requests := s.requests[r := Request(Uninitialized, MsgId(n), n, device, info, counts)],
       pending := TryAdd(s.pending, MsgId(n), r),
       cache := s.cache + {r})
  }

  /** Takes the request off both indices. */
  function Retire<R, I>(s: State<R, I>, id: ushort): State<R, I>
    requires id in s.pending && s.pending[id] in s.requests
  {
    var r := s.pending[id];
    s.(pending := s.pending - {id}, cache := s.cache - {r},
       requests := s.requests[r := s.requests[r].(state := Connected)])
  }

  function WithSystem<R, I>(s: State<R, I>, system: ushort): State<R, I> {
    if s.currentSystem == 0 then s.(currentSystem := system) else s
  }

  /** The message answers a request that is still pending. */
  predicate Hits<R, I>(s: State<R, I>, id: ushort) { id in s.pending && s.pending[id] in s.requests }

  function OnAck<R, I>(s: State<R, I>, id: ushort, system: ushort): State<R, I> {
    var s := WithSystem(s, system);
    if !Hits(s, id) then s
    else
      var q := s.requests[s.pending[id]];
      var s := Retire(s, id);
      s.(systems := s.systems[q.info := system], devices := TryAdd(s.devices, q.device, q.info))
  }

  function OnChallengeAck<R, I>(s: State<R, I>, id: ushort, status: ushort, system: ushort, again: R): State<R, I> {
    if !Hits(s, id) then s
    else
      var q := s.requests[s.pending[id]];
      var s := Retire(s, id);
      if !Authenticated(status) then s
      else
        Register(s.(mode := Masked(status), systems := s.systems[q.info := system]), again, q.device, q.info, q.counts)
  }

  function OnChallengeRequest<R, I>(s: State<R, I>, id: ushort): State<R, I> {
    var n := s.allocs + 1;
    var s := s.(crypto := true, allocs := n);
    if !Hits(s, id) then s
    else
      var r := s.pending[id];
      s.(requests := s.requests[r := s.requests[r].(state := Unverified, msgId := MsgId(n), born := n)],
         pending := TryAdd(s.pending - {id}, MsgId(n), r))
  }

  lemma Replaced<R, I>(s: State<R, I>, id: ushort, status: ushort, system: ushort, again: R)
    requires Hits(s, id) && Authenticated(status)
    ensures var q, t := s.requests[s.pending[id]], Retire(s, id);
            OnChallengeAck(s, id, status, system, again)
            == Register(t.(mode := Masked(status), systems := t.systems[q.info := system]),
                        again, q.device, q.info, q.counts)
  {
  }

  /** Installing the cipher first changes nothing else. */
  lemma CipherInstalled<R, I>(s: State<R, I>, id: ushort)
    ensures OnChallengeRequest(s.(crypto := true), id) == OnChallengeRequest(s, id)
  {
  }

  lemma Challenging<R, I>(s: State<R, I>, id: ushort)
    ensures var n := s.allocs + 1;
            var t := s.(crypto := true, allocs := n);
            OnChallengeRequest(s, id) ==
            if !Hits(s, id) then t
            else
              var r := s.pending[id];
              t.(requests := s.requests[r := s.requests[r].(state := Unverified, msgId := MsgId(n), born := n)],
                 pending := TryAdd(s.pending - {id}, MsgId(n), r))
  {
  }

  /** The callback removes the device of a request that is Disconnected, and only logs otherwise. */
  function OnExpire<R, I>(s: State<R, I>, r: R): State<R, I> {
    var s' := s.(cache := s.cache - {r});
    if r in s.cache && r in s.requests && s.requests[r].state == Disconnected then
      s'.(devices := s.devices - {s.requests[r].device})
    else s'
  }

  function Step<R, I>(s: State<R, I>, e: Event<R, I>): State<R, I> {
    match e
    case Create(r, info, device, system, counts) =>
      Register(s.(systems := s.systems[info := system]), r, device, info, counts)
    case Ack(id, system) => OnAck(s, id, system)
    case ChallengeAck(id, status, system, again) => OnChallengeAck(s, id, status, system, again)
    case ChallengeRequest(id, hasChallenge) => if hasChallenge then OnChallengeRequest(s, id) else s
    case Ping(device) => if device in s.devices then s.(deviceCache := s.deviceCache + {device}) else s
    case DeviceInfo(system) => WithSystem(s, system)
    case LinkUp => s
    case LoopFailed => s
    case LinkDown => s.(mode := 0, currentSystem := 0, devices := map[], cache := {}, deviceCache := {})
    case Expire(r) => OnExpire(s, r)
    case ExpireDevice(device) => s.(deviceCache := s.deviceCache - {device})
    case OtherMessage => s.(allocs := s.allocs + 1)
  }

  function Initial<R, I>(): State<R, I> {
    State(0, 0, false, 0, map[], map[], {}, {}, map[], map[])
  }

  /** A new request object is a new object. */
  predicate Fresh<R, I>(s: State<R, I>, e: Event<R, I>) {
    && (e.Create? ==> e.r !in s.requests)
    && (e.ChallengeAck? ==> e.again !in s.requests)
  }

  function Run<R, I>(s: State<R, I>, es: seq<Event<R, I>>): State<R, I> {
    if es == [] then s else Step(Run(s, es[..|es| - 1]), es[|es| - 1])
  }

  predicate AllFresh<R(==), I(==)>(es: seq<Event<R, I>>) {
    forall k | 0 <= k < |es| :: Fresh(Run(Initial<R, I>(), es[..k]), es[k])
  }

  lemma PrefixFresh<R, I>(es: seq<Event<R, I>>)
    requires es != [] && AllFresh(es)
    ensures AllFresh(es[..|es| - 1]) && Fresh(Run(Initial<R, I>(), es[..|es| - 1]), es[|es| - 1])
  {
    var prefix := es[..|es| - 1];
    forall k | 0 <= k < |prefix|
      ensures Fresh(Run(Initial<R, I>(), prefix[..k]), prefix[k])
    {
      assert prefix[..k] == es[..k];
    }
  }

  // ----- what every step does -----

  /** A call registers a new request under the next id, unless the id is in use, and caches it. */
  lemma CreateEffect<R, I>(s: State<R, I>, r: R, info: I, device: ushort, system: ushort, counts: Counts)
    ensures var n := s.allocs + 1;
            var id := n % 0x1_0000;
            Step(s, Create(r, info, device, system, counts)) ==
            s.(allocs := n, requests := s.requests[r := Request(Uninitialized, id, n, device, info, counts)],
               pending := if id in s.pending then s.pending else s.pending[id := r],
               cache := s.cache + {r}, systems := s.systems[info := system])
  {
  }

  /** An acknowledgement sets the current system if there is none. When it answers a pending request, that is retired,
      its info takes the system, and its device comes online unless it was. */
  lemma AckEffect<R, I>(s: State<R, I>, id: ushort, system: ushort)
    ensures var t := Step(s, Ack(id, system));
            var current := if s.currentSystem == 0 then system else s.currentSystem;
            if !Hits(s, id) then t == s.(currentSystem := current)
            else
              var r := s.pending[id];
              var q := s.requests[r];
              t == s.(currentSystem := current, pending := s.pending - {id}, cache := s.cache - {r},
                      requests := s.requests[r := q.(state := Connected)], systems := s.systems[q.info := system],
                      devices := if q.device in s.devices then s.devices else s.devices[q.device := q.info])
  {
  }

  /** A rejection retires the request; an authentication also sets the mode and the system, and registers the same
      device again. */
  lemma ChallengeAckEffect<R, I>(s: State<R, I>, id: ushort, status: ushort, system: ushort, again: R)
    requires again !in s.requests
    ensures var t := Step(s, ChallengeAck(id, status, system, again));
            if !Hits(s, id) then t == s
            else
              var r := s.pending[id];
              var q := s.requests[r];
              var retired := s.(pending := s.pending - {id}, cache := s.cache - {r},
                                requests := s.requests[r := q.(state := Connected)]);
              if Bit(status, 0) == 0 then t == retired
              else
                var authenticated := retired.(mode := t.mode);
                && (forall k: nat :: Bit(t.mode, k) == if k == 1 || k == 2 then Bit(status, k) else 0)
                && t == Step(authenticated, Create(again, q.info, q.device, system, q.counts))
  {
    hide MsgId, TryAdd, Masked, Bit;
    BitIsBinary(status, 0);
    StatusBits(status, 0);
    forall k: nat
      ensures Bit(Masked(status), k) == if k == 1 || k == 2 then Bit(status, k) else 0
    {
      StatusBits(status, k);
    }
  }

  /** A challenge installs a cipher and draws the id of the response, to which a pending request moves. */
  lemma ChallengeRequestEffect<R, I>(s: State<R, I>, id: ushort)
    ensures Step(s, ChallengeRequest(id, false)) == s
    ensures var t := Step(s, ChallengeRequest(id, true));
            var n := s.allocs + 1;
            var next := n % 0x1_0000;
            if !Hits(s, id) then t == s.(crypto := true, allocs := n)
            else
              var r, rest := s.pending[id], s.pending - {id};
              t == s.(crypto := true, allocs := n,
                      requests := s.requests[r := s.requests[r].(state := Unverified, msgId := next, born := n)],
                      pending := if next in rest then rest else rest[next := r])
  {
  }

  /** A ping caches a device that is online, and the cache entry expires without further effect. */
  lemma PingEffect<R, I>(s: State<R, I>, device: ushort)
    ensures Step(s, Ping(device))
            == s.(deviceCache := if device in s.devices then s.deviceCache + {device} else s.deviceCache)
    ensures Step(s, ExpireDevice(device)) == s.(deviceCache := s.deviceCache - {device})
  {
    hide MsgId;
  }

  /** Device infos show the system, and other messages draw identifiers. */
  lemma DeviceInfoEffect<R, I>(s: State<R, I>, system: ushort)
    ensures Step(s, DeviceInfo(system)) == s.(currentSystem := if s.currentSystem == 0 then system else s.currentSystem)
    ensures Step(s, OtherMessage) == s.(allocs := s.allocs + 1)
  {
    hide MsgId;
  }

  /** A reported loss clears mode, system, devices and caches. A new link, or a failing read loop, changes nothing. */
  lemma LinkEffects<R, I>(s: State<R, I>)
    ensures Step(s, LinkUp) == s && Step(s, LoopFailed) == s
    ensures Step(s, LinkDown) == s.(mode := 0, currentSystem := 0, devices := map[], cache := {}, deviceCache := {})
  {
    hide MsgId;
  }

  /** A request whose cache entry times out takes its device offline only when it is Disconnected. */
  lemma ExpireEffect<R, I>(s: State<R, I>, r: R)
    ensures var online := s.devices - if r in s.requests then {s.requests[r].device} else {};
            var forgotten := s.(cache := s.cache - {r});
            Step(s, Expire(r)) ==
            if r in s.cache && r in s.requests && s.requests[r].state == Disconnected then
              forgotten.(devices := online)
            else forgotten
  {
    hide MsgId;
  }

  /** Before anything has happened: no mode, no cipher, no identifier drawn, and nobody known. */
  lemma NothingYet<R, I>()
    ensures var s := Run(Initial<R, I>(), []);
            && s.mode == 0 && !s.crypto && s.allocs == 0 && s.currentSystem == 0 && s.requests == map[]
            && s.pending == map[] && s.cache == {} && s.deviceCache == {} && s.devices == map[] && s.systems == map[]
  {
  }

  // ----- what every state keeps -----

  predicate Waiting(c: ConnectionState) { c == Uninitialized || c == Unverified }

  /** Every pending key is the current id of its request, which waits; no request is ever Disconnected; both
      caches hold only what is known. */
  ghost predicate Valid<R, I>(s: State<R, I>) {
    && (forall id | id in s.pending ::
          && s.pending[id] in s.requests
          && s.requests[s.pending[id]].msgId == id
          && Waiting(s.requests[s.pending[id]].state))
    && (forall r | r in s.requests ::
          && s.requests[r].state != Disconnected
          && s.requests[r].born <= s.allocs && s.requests[r].msgId == MsgId(s.requests[r].born))
    && s.cache <= s.requests.Keys
    && s.deviceCache <= s.devices.Keys
  }

  lemma RegisterValid<R, I>(s: State<R, I>, r: R, device: ushort, info: I, counts: Counts)
    requires Valid(s) && r !in s.requests
    ensures Valid(Register(s, r, device, info, counts))
  {
  }

  lemma RetireValid<R, I>(s: State<R, I>, id: ushort)
    requires Valid(s) && id in s.pending
    ensures Valid(Retire(s, id)) && Retire(s, id).requests.Keys == s.requests.Keys
  {
  }

  lemma RekeyValid<R, I>(s: State<R, I>, id: ushort)
    requires Valid(s)
    ensures Valid(OnChallengeRequest(s, id))
  {
    hide MsgId;
  }

  lemma AckValid<R, I>(s: State<R, I>, id: ushort, system: ushort)
    requires Valid(s)
    ensures Valid(OnAck(s, id, system))
  {
    hide MsgId, Retire;
    if Hits(s, id) {
      RetireValid(WithSystem(s, system), id);
    }
  }

  lemma ChallengeAckValid<R, I>(s: State<R, I>, id: ushort, status: ushort, system: ushort, again: R)
    requires Valid(s) && again !in s.requests
    ensures Valid(OnChallengeAck(s, id, status, system, again))
  {
    hide MsgId, Retire, Register;
    if Hits(s, id) {
      RetireValid(s, id);
      var q, t := s.requests[s.pending[id]], Retire(s, id);
      if Authenticated(status) {
        RegisterValid(t.(mode := Masked(status), systems := t.systems[q.info := system]),
                      again, q.device, q.info, q.counts);
      }
    }
  }

  lemma StepValid<R, I>(s: State<R, I>, e: Event<R, I>)
    requires Valid(s) && Fresh(s, e)
    ensures Valid(Step(s, e))
  {
    hide MsgId, Register, OnAck, OnChallengeAck, OnChallengeRequest;
    match e
    case Create(r, info, device, system, counts) =>
      RegisterValid(s.(systems := s.systems[info := system]), r, device, info, counts);
    case Ack(id, system) => AckValid(s, id, system);
    case ChallengeAck(id, status, system, again) => ChallengeAckValid(s, id, status, system, again);
    case ChallengeRequest(id, hasChallenge) => RekeyValid(s, id);
    case _ =>
  }

  lemma {:induction false} RunValid<R, I>(es: seq<Event<R, I>>)
    requires AllFresh(es)
    ensures Valid(Run(Initial<R, I>(), es))
  {
    hide Step, Valid;
    if es == [] {
      InitialValid<R, I>();
    } else {
      PrefixFresh(es);
      RunValid(es[..|es| - 1]);
      StepValid(Run(Initial<R, I>(), es[..|es| - 1]), es[|es| - 1]);
    }
  }

  lemma InitialValid<R, I>()
    ensures Valid(Initial<R, I>())
  {
  }

  /** In every reachable state: pending keys are current ids, no request is under two keys, pending requests wait,
      and no request was ever marked Disconnected. */
  lemma PendingIndex<R, I>(es: seq<Event<R, I>>, a: ushort, b: ushort)
    requires AllFresh(es)
    ensures var s := Run(Initial<R, I>(), es);
            && (a in s.pending ==> && s.pending[a] in s.requests && s.requests[s.pending[a]].msgId == a
                                   && Waiting(s.requests[s.pending[a]].state))
            && (a in s.pending && b in s.pending && s.pending[a] == s.pending[b] ==> a == b)
            && (forall r | r in s.requests :: s.requests[r].state != Disconnected)
            && s.deviceCache <= s.devices.Keys
  {
    RunValid(es);
  }

  /** So an expiring cache entry never takes a device offline. */
  lemma ExpiryOnlyForgets<R, I>(es: seq<Event<R, I>>, r: R)
    requires AllFresh(es)
    ensures var s := Run(Initial<R, I>(), es);
            Step(s, Expire(r)) == s.(cache := s.cache - {r})
  {
    hide Run, MsgId;
    RunValid(es);
  }

  // ----- conservation -----

  /** What an observer counts: calls, acknowledgements, rejections, and entries lost to an id already in use. */
  datatype Tally = Tally(created: nat, acknowledged: nat, rejected: nat, lost: nat)

  /** The step adds a pending entry under the next id after taking out the one of a hit, if any. */
  predicate Loses<R, I>(s: State<R, I>, e: Event<R, I>) {
    match e
    case Create(_, _, _, _, _) => MsgId(s.allocs + 1) in s.pending
    case ChallengeAck(id, status, _, _) =>
      Hits(s, id) && Authenticated(status) && MsgId(s.allocs + 1) in s.pending - {id}
    case ChallengeRequest(id, has) => has && Hits(s, id) && MsgId(s.allocs + 1) in s.pending - {id}
    case _ => false
  }

  function Counted<R, I>(t: Tally, s: State<R, I>, e: Event<R, I>): Tally {
    var t := if Loses(s, e) then t.(lost := t.lost + 1) else t;
    match e
    case Create(_, _, _, _, _) => t.(created := t.created + 1)
    case Ack(id, _) => if Hits(s, id) then t.(acknowledged := t.acknowledged + 1) else t
    case ChallengeAck(id, status, _, _) =>
      if Hits(s, id) && !Authenticated(status) then t.(rejected := t.rejected + 1) else t
    case _ => t
  }

  function TallyOf<R(==), I(==)>(es: seq<Event<R, I>>): Tally {
    if es == [] then Tally(0, 0, 0, 0)
    else Counted(TallyOf(es[..|es| - 1]), Run(Initial<R, I>(), es[..|es| - 1]), es[|es| - 1])
  }

  predicate Balanced<R, I>(t: Tally, s: State<R, I>) {
    t.created == t.acknowledged + t.rejected + t.lost + |s.pending|
  }

  lemma RemoveOne<K, V>(m: map<K, V>, k: K)
    requires k in m
    ensures |m - {k}| == |m| - 1
  {
    assert (m - {k}).Keys == m.Keys - {k};
    assert |(m - {k}).Keys| == |m.Keys| - 1;
  }

  lemma AddOne<K, V>(m: map<K, V>, k: K, v: V)
    ensures |TryAdd(m, k, v)| == |m| + if k in m then 0 else 1
  {
    if k !in m {
      assert m[k := v].Keys == m.Keys + {k};
      assert |m[k := v].Keys| == |m.Keys| + 1;
    }
  }

  lemma RegisterCounts<R, I>(s: State<R, I>, r: R, device: ushort, info: I, counts: Counts)
    ensures |Register(s, r, device, info, counts).pending|
            == |s.pending| + if MsgId(s.allocs + 1) in s.pending then 0 else 1
  {
    hide MsgId, TryAdd;
    AddOne(s.pending, MsgId(s.allocs + 1), r);
  }

  lemma AckCounts<R, I>(s: State<R, I>, id: ushort, system: ushort)
    ensures |OnAck(s, id, system).pending| == |s.pending| - if Hits(s, id) then 1 else 0
  {
    hide TryAdd;
    if Hits(s, id) {
      RemoveOne(s.pending, id);
    }
  }

  lemma ChallengeAckCounts<R, I>(s: State<R, I>, id: ushort, status: ushort, system: ushort, again: R)
    ensures |OnChallengeAck(s, id, status, system, again).pending| == |s.pending| -
            if Hits(s, id) && (!Authenticated(status) || MsgId(s.allocs + 1) in s.pending - {id}) then 1 else 0
  {
    hide MsgId, TryAdd, Register;
    if Hits(s, id) {
      RemoveOne(s.pending, id);
      var q, t := s.requests[s.pending[id]], Retire(s, id);
      RegisterCounts(t.(mode := Masked(status), systems := t.systems[q.info := system]),
                     again, q.device, q.info, q.counts);
    }
  }

  lemma ChallengeRequestCounts<R, I>(s: State<R, I>, id: ushort)
    ensures |OnChallengeRequest(s, id).pending| ==
            |s.pending| - if Hits(s, id) && MsgId(s.allocs + 1) in s.pending - {id} then 1 else 0
  {
    hide MsgId, TryAdd;
    if Hits(s, id) {
      RemoveOne(s.pending, id);
      AddOne(s.pending - {id}, MsgId(s.allocs + 1), s.pending[id]);
    }
  }

  /** The message takes its request off the pending index for good. */
  predicate Settles<R, I>(s: State<R, I>, e: Event<R, I>) {
    match e
    case Ack(id, _) => Hits(s, id)
    case ChallengeAck(id, status, _, _) => Hits(s, id) && !Authenticated(status)
    case _ => false
  }

  lemma StepCounts<R, I>(s: State<R, I>, e: Event<R, I>)
    ensures |Step(s, e).pending| + (if Settles(s, e) then 1 else 0) + (if Loses(s, e) then 1 else 0)
            == |s.pending| + if e.Create? then 1 else 0
  {
    hide MsgId, Register, OnAck, OnChallengeAck, OnChallengeRequest, OnExpire, WithSystem, Authenticated;
    match e
    case Create(r, info, device, system, counts) =>
      RegisterCounts(s.(systems := s.systems[info := system]), r, device, info, counts);
    case Ack(id, system) => AckCounts(s, id, system);
    case ChallengeAck(id, status, system, again) => ChallengeAckCounts(s, id, status, system, again);
    case ChallengeRequest(id, _) => ChallengeRequestCounts(s, id);
    case Expire(r) => ExpireCounts(s, r);
    case DeviceInfo(system) => SystemCounts(s, system);
    case _ =>
  }

  lemma ExpireCounts<R, I>(s: State<R, I>, r: R)
    ensures OnExpire(s, r).pending == s.pending
  {
  }

  lemma SystemCounts<R, I>(s: State<R, I>, system: ushort)
    ensures WithSystem(s, system).pending == s.pending
  {
  }

  lemma StepBalanced<R, I>(t: Tally, s: State<R, I>, e: Event<R, I>)
    requires Balanced(t, s)
    ensures Balanced(Counted(t, s, e), Step(s, e))
  {
    hide Step, Loses, Hits, Authenticated;
    StepCounts(s, e);
  }

  /** On every run: requests made = acknowledged + rejected + lost to an id collision + still pending. A request
      that is created again after authentication counts once. */
  lemma {:induction false} Conservation<R, I>(es: seq<Event<R, I>>)
    ensures Balanced(TallyOf(es), Run(Initial<R, I>(), es))
  {
    hide Step, Counted, Balanced;
    if es == [] {
      InitialBalanced<R, I>();
    } else {
      Conservation(es[..|es| - 1]);
      StepBalanced(TallyOf(es[..|es| - 1]), Run(Initial<R, I>(), es[..|es| - 1]), es[|es| - 1]);
    }
  }

  lemma InitialBalanced<R, I>()
    ensures Balanced(Tally(0, 0, 0, 0), Initial<R, I>())
  {
  }

  // ----- no collisions within the window -----

  /** Any 65536 consecutive ids are distinct. */
  lemma IdsDistinct(m: nat, n: nat)
    requires m < n < m + 0x1_0000
    ensures MsgId(m) != MsgId(n)
  {
  }

  /** No pending entry is as old as a whole round of the counter. */
  ghost predicate InWindow<R, I>(s: State<R, I>) {
    forall id | Hits(s, id) :: s.allocs - s.requests[s.pending[id]].born < 0xFFFF
  }

  lemma NextIdIsFree<R, I>(s: State<R, I>)
    requires Valid(s) && InWindow(s)
    ensures MsgId(s.allocs + 1) !in s.pending
  {
    var id := MsgId(s.allocs + 1);
    if id in s.pending {
      assert Hits(s, id);
      IdsDistinct(s.requests[s.pending[id]].born, s.allocs + 1);
    }
  }

  ghost predicate AlwaysInWindow<R, I>(es: seq<Event<R, I>>) {
    forall k | 0 <= k < |es| :: InWindow(Run(Initial<R, I>(), es[..k]))
  }

  /** Every cached request is under a pending key. */
  ghost predicate CachedPending<R, I>(s: State<R, I>) {
    forall r | r in s.cache :: r in s.requests && s.requests[r].msgId in s.pending
                               && s.pending[s.requests[r].msgId] == r
  }

  lemma RegisterCached<R, I>(s: State<R, I>, r: R, device: ushort, info: I, counts: Counts)
    requires CachedPending(s) && r !in s.requests && MsgId(s.allocs + 1) !in s.pending
    ensures CachedPending(Register(s, r, device, info, counts))
  {
    hide MsgId;
  }

  lemma RetireCached<R, I>(s: State<R, I>, id: ushort)
    requires Valid(s) && CachedPending(s) && Hits(s, id)
    ensures CachedPending(Retire(s, id))
  {
    hide MsgId;
  }

  lemma RekeyCached<R, I>(s: State<R, I>, id: ushort)
    requires Valid(s) && CachedPending(s) && MsgId(s.allocs + 1) !in s.pending
    ensures CachedPending(OnChallengeRequest(s, id))
  {
    hide MsgId;
  }

  lemma StepCachedPending<R, I>(s: State<R, I>, e: Event<R, I>)
    requires Valid(s) && Fresh(s, e) && CachedPending(s) && MsgId(s.allocs + 1) !in s.pending
    ensures CachedPending(Step(s, e)) && !Loses(s, e)
  {
    hide MsgId, Register, Retire, OnChallengeRequest, Valid;
    match e
    case Create(r, info, device, system, counts) =>
      RegisterCached(s.(systems := s.systems[info := system]), r, device, info, counts);
    case Ack(id, system) =>
      if Hits(s, id) {
        SystemKeepsValid(s, system);
        RetireCached(WithSystem(s, system), id);
      }
    case ChallengeAck(id, status, system, again) =>
      if Hits(s, id) {
        RetireCached(s, id);
        RetireFields(s, id);
        var q, t := s.requests[s.pending[id]], Retire(s, id);
        if Authenticated(status) {
          RegisterCached(t.(mode := Masked(status), systems := t.systems[q.info := system]),
                         again, q.device, q.info, q.counts);
        }
      }
    case ChallengeRequest(id, hasChallenge) => RekeyCached(s, id);
    case _ =>
  }

  lemma SystemKeepsValid<R, I>(s: State<R, I>, system: ushort)
    requires Valid(s)
    ensures Valid(WithSystem(s, system))
  {
  }

  lemma RetireFields<R, I>(s: State<R, I>, id: ushort)
    requires Hits(s, id)
    ensures var t := Retire(s, id);
            t.allocs == s.allocs && t.pending == s.pending - {id} && t.requests.Keys == s.requests.Keys
  {
  }

  /** While no pending entry outlives a round of the counter, nothing is lost and every cached request is pending. */
  lemma {:induction false} WindowTheorem<R, I>(es: seq<Event<R, I>>)
    requires AllFresh(es) && AlwaysInWindow(es)
    ensures TallyOf(es).lost == 0 && CachedPending(Run(Initial<R, I>(), es))
  {
    hide Step, Valid, CachedPending, InWindow, Loses;
    if es == [] {
      assert CachedPending(Initial<R, I>()) by { NothingCached<R, I>(); }
    } else {
      var prefix := es[..|es| - 1];
      PrefixFresh(es);
      forall k | 0 <= k < |prefix|
        ensures InWindow(Run(Initial<R, I>(), prefix[..k]))
      {
        assert prefix[..k] == es[..k];
      }
      WindowTheorem(prefix);
      RunValid(prefix);
      var s := Run(Initial<R, I>(), prefix);
      NextIdIsFree(s);
      StepCachedPending(s, es[|es| - 1]);
    }
  }

  lemma NothingCached<R, I>()
    ensures CachedPending(Initial<R, I>())
  {
  }

  // ----- devices -----

  function OnlineAfter<R, I>(online: set<ushort>, s: State<R, I>, e: Event<R, I>): set<ushort> {
    match e
    case LinkDown => {}
    case Ack(id, _) => if Hits(s, id) then online + {s.requests[s.pending[id]].device} else online
    case _ => online
  }

  /** The device numbers acknowledged since the last link loss. */
  function Online<R(==), I(==)>(es: seq<Event<R, I>>): set<ushort> {
    if es == [] then {}
    else OnlineAfter(Online(es[..|es| - 1]), Run(Initial<R, I>(), es[..|es| - 1]), es[|es| - 1])
  }

  lemma DevicesStep<R, I>(s: State<R, I>, e: Event<R, I>)
    requires Valid(s)
    ensures Step(s, e).devices.Keys == OnlineAfter(s.devices.Keys, s, e)
  {
    hide MsgId, Register, OnAck, OnChallengeAck, OnChallengeRequest;
    match e
    case Create(r, info, device, system, counts) =>
      DevicesUntouched(s.(systems := s.systems[info := system]), r, device, info, counts);
    case Ack(id, system) => DevicesOnAck(s, id, system);
    case ChallengeAck(id, status, system, again) => DevicesOnChallenge(s, id, status, system, again);
    case ChallengeRequest(id, _) => DevicesUnrekeyed(s, id);
    case _ =>
  }

  lemma DevicesUntouched<R, I>(s: State<R, I>, r: R, device: ushort, info: I, counts: Counts)
    ensures Register(s, r, device, info, counts).devices == s.devices
  {
  }

  lemma DevicesOnAck<R, I>(s: State<R, I>, id: ushort, system: ushort)
    ensures OnAck(s, id, system).devices.Keys
            == s.devices.Keys + if Hits(s, id) then {s.requests[s.pending[id]].device} else {}
  {
  }

  lemma DevicesOnChallenge<R, I>(s: State<R, I>, id: ushort, status: ushort, system: ushort, again: R)
    ensures OnChallengeAck(s, id, status, system, again).devices == s.devices
  {
    hide MsgId, TryAdd;
  }

  lemma DevicesUnrekeyed<R, I>(s: State<R, I>, id: ushort)
    ensures OnChallengeRequest(s, id).devices == s.devices
  {
    hide MsgId, TryAdd;
  }

  lemma {:induction false} DevicesAreOnline<R, I>(es: seq<Event<R, I>>)
    requires AllFresh(es)
    ensures Run(Initial<R, I>(), es).devices.Keys == Online(es)
  {
    hide Step, Valid, OnlineAfter;
    if es != [] {
      PrefixFresh(es);
      DevicesAreOnline(es[..|es| - 1]);
      RunValid(es[..|es| - 1]);
      DevicesStep(Run(Initial<R, I>(), es[..|es| - 1]), es[|es| - 1]);
    }
  }

  // ----- systems -----

  /** What an observer notes of the systems of the device infos: the last call, answered acknowledgement or answered
      authentication for each. */
  function SystemsAfter<R, I>(noted: map<I, ushort>, s: State<R, I>, e: Event<R, I>): map<I, ushort> {
    match e
    case Create(_, info, _, system, _) => noted[info := system]
    case Ack(id, system) => if Hits(s, id) then noted[s.requests[s.pending[id]].info := system] else noted
    case ChallengeAck(id, status, system, _) =>
      if Hits(s, id) && Bit(status, 0) == 1 then noted[s.requests[s.pending[id]].info := system] else noted
    case _ => noted
  }

  function Systems<R(==), I(==)>(es: seq<Event<R, I>>): map<I, ushort> {
    if es == [] then map[]
    else SystemsAfter(Systems(es[..|es| - 1]), Run(Initial<R, I>(), es[..|es| - 1]), es[|es| - 1])
  }

  lemma ChallengeAckSystems<R, I>(s: State<R, I>, id: ushort, status: ushort, system: ushort, again: R)
    ensures OnChallengeAck(s, id, status, system, again).systems ==
            if Hits(s, id) && Bit(status, 0) == 1 then s.systems[s.requests[s.pending[id]].info := system]
            else s.systems
  {
    hide MsgId, TryAdd, Bit, Authenticated;
    StatusBits(status, 0);
  }

  lemma SystemsStep<R, I>(s: State<R, I>, e: Event<R, I>)
    ensures Step(s, e).systems == SystemsAfter(s.systems, s, e)
  {
    hide MsgId, TryAdd, OnChallengeAck, Bit;
    if e.ChallengeAck? {
      ChallengeAckSystems(s, e.id, e.status, e.system, e.again);
    }
  }

  /** In every reachable state each known device info has the system of the last call, answered acknowledgement or
      answered authentication for it. */
  lemma {:induction false} SystemsAreLast<R, I>(es: seq<Event<R, I>>)
    ensures Run(Initial<R, I>(), es).systems == Systems(es)
  {
    hide Step, SystemsAfter;
    if es != [] {
      SystemsAreLast(es[..|es| - 1]);
      SystemsStep(Run(Initial<R, I>(), es[..|es| - 1]), es[|es| - 1]);
    }
  }

  /** The device table that an observer keeps: the first info acknowledged for each device since the last reported
      loss. */
  function TableAfter<R, I>(noted: map<ushort, I>, s: State<R, I>, e: Event<R, I>): map<ushort, I> {
    match e
    case LinkDown => map[]
    case Ack(id, _) =>
      if Hits(s, id) && s.requests[s.pending[id]].device !in noted then
        noted[s.requests[s.pending[id]].device := s.requests[s.pending[id]].info]
      else noted
    case _ => noted
  }

  function OnlineTable<R(==), I(==)>(es: seq<Event<R, I>>): map<ushort, I> {
    if es == [] then map[]
    else TableAfter(OnlineTable(es[..|es| - 1]), Run(Initial<R, I>(), es[..|es| - 1]), es[|es| - 1])
  }

  lemma TableStep<R, I>(s: State<R, I>, e: Event<R, I>)
    requires Valid(s)
    ensures Step(s, e).devices == TableAfter(s.devices, s, e)
  {
    hide MsgId, Register, OnAck, OnChallengeAck, OnChallengeRequest;
    match e
    case Create(r, info, device, system, counts) =>
      DevicesUntouched(s.(systems := s.systems[info := system]), r, device, info, counts);
    case Ack(id, system) => TableOnAck(s, id, system);
    case ChallengeAck(id, status, system, again) => DevicesOnChallenge(s, id, status, system, again);
    case ChallengeRequest(id, _) => DevicesUnrekeyed(s, id);
    case _ =>
  }

  lemma TableOnAck<R, I>(s: State<R, I>, id: ushort, system: ushort)
    ensures OnAck(s, id, system).devices ==
            if Hits(s, id) && s.requests[s.pending[id]].device !in s.devices then
              s.devices[s.requests[s.pending[id]].device := s.requests[s.pending[id]].info]
            else s.devices
  {
  }

  /** In every reachable state each device acknowledged since the last reported loss is recorded with the info object
      whose request was acknowledged first. */
  lemma {:induction false} DevicesKeepFirst<R, I>(es: seq<Event<R, I>>)
    requires AllFresh(es)
    ensures Run(Initial<R, I>(), es).devices == OnlineTable(es)
  {
    hide Step, Valid, TableAfter;
    if es != [] {
      PrefixFresh(es);
      DevicesKeepFirst(es[..|es| - 1]);
      RunValid(es[..|es| - 1]);
      TableStep(Run(Initial<R, I>(), es[..|es| - 1]), es[|es| - 1]);
    }
  }

  /** The events since the last reported loss of the link. */
  function SinceLoss<R, I>(es: seq<Event<R, I>>): seq<Event<R, I>> {
    if es == [] || es[|es| - 1].LinkDown? then [] else SinceLoss(es[..|es| - 1]) + [es[|es| - 1]]
  }

  /** The system that an acknowledgement or a device info comes from. */
  function SystemSeen<R, I>(e: Event<R, I>): ushort {
    match e
    case Ack(_, system) => system
    case DeviceInfo(system) => system
    case _ => 0
  }

  function FirstSeen<R, I>(es: seq<Event<R, I>>): ushort {
    if es == [] then 0 else if SystemSeen(es[0]) != 0 then SystemSeen(es[0]) else FirstSeen(es[1..])
  }

  lemma {:induction false} FirstSeenSnoc<R, I>(es: seq<Event<R, I>>, e: Event<R, I>)
    ensures FirstSeen(es + [e]) == if FirstSeen(es) != 0 then FirstSeen(es) else SystemSeen(e)
  {
    hide SystemSeen;
    if es == [] {
      assert (es + [e])[1..] == [];
    } else {
      assert (es + [e])[1..] == es[1..] + [e];
      FirstSeenSnoc(es[1..], e);
    }
  }

  lemma CurrentStep<R, I>(s: State<R, I>, e: Event<R, I>)
    ensures Step(s, e).currentSystem ==
            if e.LinkDown? then 0 else if s.currentSystem != 0 then s.currentSystem else SystemSeen(e)
  {
    hide MsgId, TryAdd;
  }

  /** In every reachable state the current system is the first non-zero system seen since the last reported loss, or
      0. */
  lemma {:induction false} CurrentSystemIsFirst<R, I>(es: seq<Event<R, I>>)
    ensures Run(Initial<R, I>(), es).currentSystem == FirstSeen(SinceLoss(es))
  {
    hide Step, FirstSeen, SystemSeen;
    if es == [] {
      assert FirstSeen<R, I>([]) == 0 by { NothingSeen<R, I>(); }
    } else {
      var prefix, last := es[..|es| - 1], es[|es| - 1];
      CurrentSystemIsFirst(prefix);
      CurrentStep(Run(Initial<R, I>(), prefix), last);
      FirstSeenSnoc(SinceLoss(prefix), last);
      NothingSeen<R, I>();
    }
  }

  lemma NothingSeen<R, I>()
    ensures FirstSeen<R, I>([]) == 0
  {
  }

  // ----- encryption mode -----

  /** Encrypted sending has a cipher to use. */
  predicate SafeToSend<R, I>(s: State<R, I>) { Sends(s.mode) ==> s.crypto }

  /** A pending request is answered by an authentication that switches sending to RC4. */
  predicate SwitchesOn<R, I>(s: State<R, I>, e: Event<R, I>) {
    e.ChallengeAck? && Hits(s, e.id) && Authenticated(e.status) && Sends(Masked(e.status))
  }

  lemma RegisterKeepsMode<R, I>(s: State<R, I>, r: R, device: ushort, info: I, counts: Counts)
    ensures var t := Register(s, r, device, info, counts);
            t.mode == s.mode && t.crypto == s.crypto
  {
    hide MsgId, TryAdd;
  }

  lemma AckKeepsMode<R, I>(s: State<R, I>, id: ushort, system: ushort)
    ensures OnAck(s, id, system).mode == s.mode && OnAck(s, id, system).crypto == s.crypto
  {
    hide MsgId, TryAdd;
  }

  lemma ChallengeAckMode<R, I>(s: State<R, I>, id: ushort, status: ushort, system: ushort, again: R)
    ensures var t := OnChallengeAck(s, id, status, system, again);
            && t.mode == (if Hits(s, id) && Authenticated(status) then Masked(status) else s.mode)
            && t.crypto == s.crypto
  {
    hide MsgId, TryAdd, Register;
    if Hits(s, id) && Authenticated(status) {
      var q, t := s.requests[s.pending[id]], Retire(s, id);
      RegisterKeepsMode(t.(mode := Masked(status), systems := t.systems[q.info := system]),
                        again, q.device, q.info, q.counts);
    }
  }

  lemma ChallengeRequestMode<R, I>(s: State<R, I>, id: ushort)
    ensures OnChallengeRequest(s, id).mode == s.mode && OnChallengeRequest(s, id).crypto
  {
    hide MsgId, TryAdd;
  }

  predicate Authenticates<R, I>(e: Event<R, I>) { e.ChallengeAck? && Authenticated(e.status) }

  /** Only a link loss and the authentication of a pending request touch the mode, and only a challenge the cipher. */
  lemma ModeStep<R, I>(s: State<R, I>, e: Event<R, I>)
    ensures Step(s, e).mode ==
            if e.LinkDown? then 0
            else if Authenticates(e) && Hits(s, e.id) then Masked(e.status)
            else s.mode
    ensures Step(s, e).crypto <==> s.crypto || (e.ChallengeRequest? && e.hasChallenge)
  {
    hide MsgId, Register, OnAck, OnChallengeAck, OnChallengeRequest, Masked, Authenticated;
    match e
    case Create(r, info, device, system, counts) =>
      RegisterKeepsMode(s.(systems := s.systems[info := system]), r, device, info, counts);
    case Ack(id, system) => AckKeepsMode(s, id, system);
    case ChallengeAck(id, status, system, again) => ChallengeAckMode(s, id, status, system, again);
    case ChallengeRequest(id, _) => ChallengeRequestMode(s, id);
    case _ =>
  }

  /** A safe state becomes unsafe exactly by such an answer before any challenge. */
  lemma UnsafeIff<R, I>(s: State<R, I>, e: Event<R, I>)
    requires SafeToSend(s)
    ensures SafeToSend(Step(s, e)) <==> !SwitchesOn(s, e) || s.crypto
  {
    hide Step, Masked, Authenticated;
    ModeStep(s, e);
  }

  predicate Challenged<R, I>(es: seq<Event<R, I>>) {
    exists j :: 0 <= j < |es| && es[j].ChallengeRequest? && es[j].hasChallenge
  }

  lemma {:induction false} CryptoIffChallenged<R, I>(es: seq<Event<R, I>>)
    ensures Run(Initial<R, I>(), es).crypto <==> Challenged(es)
  {
    hide Step;
    if es != [] {
      var prefix, last := es[..|es| - 1], es[|es| - 1];
      CryptoIffChallenged(prefix);
      ModeStep(Run(Initial<R, I>(), prefix), last);
      if Challenged(es) && !(last.ChallengeRequest? && last.hasChallenge) {
        var j :| 0 <= j < |es| && es[j].ChallengeRequest? && es[j].hasChallenge;
        assert prefix[j] == es[j];
      }
    }
  }

  ghost predicate AlwaysSafe<R, I>(es: seq<Event<R, I>>) {
    forall k | 0 <= k <= |es| :: SafeToSend(Run(Initial<R, I>(), es[..k]))
  }

  /** Whatever switches sending to RC4 comes after a challenge. */
  ghost predicate SwitchesAfterChallenge<R, I>(es: seq<Event<R, I>>) {
    forall k | 0 <= k < |es| && SwitchesOn(Run(Initial<R, I>(), es[..k]), es[k]) :: Challenged(es[..k])
  }

  lemma PrefixesOf<R, I>(es: seq<Event<R, I>>)
    requires es != []
    ensures var prefix, s := es[..|es| - 1], Run(Initial<R, I>(), es[..|es| - 1]);
            && (AlwaysSafe(es) <==> AlwaysSafe(prefix) && SafeToSend(Run(Initial<R, I>(), es)))
            && (SwitchesAfterChallenge(es) <==>
                SwitchesAfterChallenge(prefix) && (SwitchesOn(s, es[|es| - 1]) ==> Challenged(prefix)))
  {
    hide SafeToSend, SwitchesOn, Challenged, Run;
    var prefix := es[..|es| - 1];
    assert es[..|es|] == es;
    forall k | 0 <= k < |es|
      ensures prefix[..k] == es[..k]
    {
    }
  }

  /** On any run, across any link losses and reconnects: encrypted sending always has a cipher if and only if every
      answer that switches it on comes after a challenge. */
  lemma {:induction false} SafetyIff<R, I>(es: seq<Event<R, I>>)
    ensures AlwaysSafe(es) <==> SwitchesAfterChallenge(es)
  {
    hide Step, Challenged, SafeToSend, SwitchesOn, AlwaysSafe, SwitchesAfterChallenge;
    if es == [] {
      NothingIsSafe<R, I>();
    } else {
      var prefix := es[..|es| - 1];
      SafetyIff(prefix);
      PrefixesOf(es);
      CryptoIffChallenged(prefix);
      if AlwaysSafe(prefix) {
        LastIsSafe(prefix);
        UnsafeIff(Run(Initial<R, I>(), prefix), es[|es| - 1]);
      }
    }
  }

  lemma NothingIsSafe<R, I>()
    ensures AlwaysSafe<R, I>([]) && SwitchesAfterChallenge<R, I>([])
  {
  }

  lemma LastIsSafe<R, I>(es: seq<Event<R, I>>)
    requires AlwaysSafe(es)
    ensures SafeToSend(Run(Initial<R, I>(), es))
  {
    assert es[..|es|] == es;
  }

  /** The master authenticates only after it has challenged. */
  predicate ChallengesFirst<R, I>(es: seq<Event<R, I>>) {
    forall k | 0 <= k < |es| :: Authenticates(es[k]) ==> Challenged(es[..k])
  }

  /** Then every reachable state is safe to send in. */
  lemma ModeSafety<R, I>(es: seq<Event<R, I>>)
    requires ChallengesFirst(es)
    ensures AlwaysSafe(es)
  {
    hide Challenged, Run, AlwaysSafe;
    SafetyIff(es);
  }

  /** A master that does not challenge first can leave the client with nothing to encrypt with. */
  lemma UnchallengedAckIsUnsafe<R, I>(r: R, again: R, info: I)
    requires r != again
    ensures var es := [Create(r, info, 10001, 0, Counts(1, 256, 8)), ChallengeAck(1, 5, 1, again)];
            AllFresh(es) && !SafeToSend(Run(Initial<R, I>(), es))
  {
    var e0: Event<R, I>, e1: Event<R, I> := Create(r, info, 10001, 0, Counts(1, 256, 8)), ChallengeAck(1, 5, 1, again);
    var es := [e0, e1];
    assert es[..0] == [] && es[..1] == [e0];
    var s0 := Run(Initial<R, I>(), []);
    var s1 := Run(Initial<R, I>(), [e0]);
    assert [e0][..0] == [];
    assert s1 == Step(s0, e0);
    assert s1.pending == map[1 := r] && s1.requests.Keys == {r};
    assert Run(Initial<R, I>(), es) == Step(s1, e1);
  }

  lemma {:induction false} ModeKept<R, I>(es: seq<Event<R, I>>, more: seq<Event<R, I>>)
    requires forall k | 0 <= k < |more| :: !Authenticates(more[k]) && !more[k].LinkDown?
    ensures Run(Initial<R, I>(), es + more).mode == Run(Initial<R, I>(), es).mode
    decreases |more|
  {
    hide Step, Authenticates;
    if more == [] {
      assert es + more == es;
    } else {
      var all, prefix := es + more, more[..|more| - 1];
      assert all[..|all| - 1] == es + prefix && all[|all| - 1] == more[|more| - 1];
      ModeKept(es, prefix);
      ModeStep(Run(Initial<R, I>(), es + prefix), more[|more| - 1]);
    }
  }

  /** What the next connection starts with: None after a reported loss of the link, and the old mode when the read
      loop had failed instead. So it is None if and only if the loss was reported or nothing was switched on. */
  lemma ModeAtReconnect<R, I>(before: seq<Event<R, I>>, end: Event<R, I>, between: seq<Event<R, I>>)
    requires end.LinkDown? || end.LoopFailed?
    requires forall k | 0 <= k < |between| :: !Authenticates(between[k]) && !between[k].LinkDown?
    ensures var mode := Run(Initial<R, I>(), before + [end] + between + [LinkUp]).mode;
            && mode == (if end.LinkDown? then 0 else Run(Initial<R, I>(), before).mode)
            && (mode == 0 <==> end.LinkDown? || Run(Initial<R, I>(), before).mode == 0)
  {
    hide Step, Authenticates;
    var ended, more := before + [end], between + [LinkUp];
    assert before + [end] + between + [LinkUp] == ended + more;
    assert ended[..|before|] == before;
    ModeStep(Run(Initial<R, I>(), before), end);
    OnlyAnswersAuthenticate(end);
    forall k | 0 <= k < |more|
      ensures !Authenticates(more[k]) && !more[k].LinkDown?
    {
      assert more[k] == if k < |between| then between[k] else LinkUp;
      OnlyAnswersAuthenticate(more[k]);
    }
    ModeKept(ended, more);
  }

  lemma OnlyAnswersAuthenticate<R, I>(e: Event<R, I>)
    ensures Authenticates(e) ==> e.ChallengeAck?
  {
  }

  /** After a reported loss of the link the mode stays None until the next authenticated answer. */
  lemma {:induction false} ModeNoneAfterLoss<R, I>(before: seq<Event<R, I>>, after: seq<Event<R, I>>)
    requires forall k | 0 <= k < |after| :: !Authenticates(after[k])
    ensures Run(Initial<R, I>(), before + [LinkDown] + after).mode == 0
    decreases |after|
  {
    hide Step;
    var es := before + [LinkDown] + after;
    ModeStep(Run(Initial<R, I>(), es[..|es| - 1]), es[|es| - 1]);
    if after == [] {
      assert es[|es| - 1] == LinkDown;
    } else {
      ModeNoneAfterLoss(before, after[..|after| - 1]);
      assert es[..|es| - 1] == before + [LinkDown] + after[..|after| - 1];
      assert !Authenticates(es[|es| - 1]);
    }
  }

  // ----- the port loop -----

  /** The value of the unsigned loop variable in round n. */
  function PortInRound(n: nat): ushort { (n + 1) % 0x1_0000 }

  /** The loop over the ports ends after as many rounds as there are ports, unless there are 65535 of them. */
  lemma PortLoopEndsIff(count: ushort)
    ensures (exists n: nat :: PortInRound(n) > count) <==> count < 0xFFFF
    ensures count < 0xFFFF ==>
              PortInRound(count) > count && forall n: nat | n < count :: PortInRound(n) == n + 1 <= count
  {
    if count < 0xFFFF {
      assert PortInRound(count) > count;
    }
  }
}
