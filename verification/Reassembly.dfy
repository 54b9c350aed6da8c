/** The receive loop as a function: rebuilding packets from arbitrary reads. */
module Reassembly {
  import opened Bytes
  import opened Rc4Cipher
  import opened Packets
  import opened Envelopes

  /** What happens to a stretch of received bytes. A failure is an exception, which ends the loop for good. */
  datatype Event = Delivered(message: Message) | Ignored | Discarded | Failed

  datatype Item = Item(bytes: seq<byte>, event: Event)

  /** The loop between two steps: the cipher, the bytes waiting in the buffer, and what happened so far. */
  datatype Rx = Rx(crypto: Option<Cipher>, buffer: seq<byte>, items: seq<Item>, stopped: bool) {
    function Feed(more: seq<byte>): Rx { this.(buffer := buffer + more) }
  }

  predicate KnownProtocol(b: byte) { b == Packets.PROTOCOL || b == Envelopes.PROTOCOL }

  function Size(b: seq<byte>): nat
    requires |b| >= 3
  {
    var length: int := GetBe16(b, 1);
    length + 4
  }

  /** The inner loop has something to do: a whole packet, or a protocol it does not know. */
  predicate CanStep(b: seq<byte>) {
    |b| >= Packets.PACKET_LENGTH_MIN && (!KnownProtocol(b[0]) || |b| >= Size(b))
  }

  /** What a cipher can be keyed with. */
  type Key = k: seq<byte> | k != [] witness [0]

  /** The receiving side: the registered message classes, and the key that the handlers of a message install, if
      any. */
  datatype Host = Host(types: Types, rekey: Message -> Option<Key>)

  function FromFactory(host: Host, b: seq<byte>): Event {
    match FromData(host.types, b)
    case Returned(m) => Delivered(m)
    case Thrown => Failed
  }

  /** The handlers of a delivered message may replace the cipher. */
  function Raised(host: Host, event: Event, crypto: Option<Cipher>): (Event, Option<Cipher>) {
    (event, if event.Delivered? && host.rekey(event.message).Some? then Some(Keyed(host.rekey(event.message).value))
            else crypto)
  }

  function Handled(host: Host, crypto: Option<Cipher>, packet: seq<byte>): (Event, Option<Cipher>) {
    if packet == [] || packet[0] == Packets.PROTOCOL then Raised(host, FromFactory(host, packet), crypto)
    else
      match crypto
      case None => (Ignored, None)
      case Some(c) =>
        match ParsedEnvelope(packet)
        case Thrown => (Failed, crypto)
        case Returned(e) =>
          var (inner, c') := Decrypted(c, e);
          Raised(host, FromFactory(host, inner), Some(c'))
  }

  /** One turn of the inner loop. An unknown protocol drops the whole buffer, a failure loses it. */
  function Step(host: Host, rx: Rx): (r: Rx)
    requires CanStep(rx.buffer)
    ensures |r.buffer| < |rx.buffer|
    ensures |r.items| == |rx.items| + 1 && r.items[..|rx.items|] == rx.items
  {
    if !KnownProtocol(rx.buffer[0]) then
      rx.(buffer := [], items := rx.items + [Item(rx.buffer, Discarded)])
    else
      var packet := rx.buffer[..Size(rx.buffer)];
      var (event, crypto) := Handled(host, rx.crypto, packet);
      Rx(crypto, if event == Failed then [] else rx.buffer[|packet|..], rx.items + [Item(packet, event)],
         event == Failed)
  }

  function Drain(host: Host, rx: Rx): Rx
    decreases |rx.buffer|
  {
    if rx.stopped || !CanStep(rx.buffer) then rx else Drain(host, Step(host, rx))
  }

  /** One read. */
  function Receive(host: Host, rx: Rx, chunk: seq<byte>): Rx {
    if rx.stopped then rx else Drain(host, rx.Feed(chunk))
  }

  function ReceiveAll(host: Host, rx: Rx, chunks: seq<seq<byte>>): Rx
    decreases |chunks|
  {
    if chunks == [] then rx else ReceiveAll(host, Receive(host, rx, chunks[0]), chunks[1..])
  }

  lemma {:induction false} ReceiveAllConcat(host: Host, rx: Rx, a: seq<seq<byte>>, b: seq<seq<byte>>)
    ensures ReceiveAll(host, rx, a + b) == ReceiveAll(host, ReceiveAll(host, rx, a), b)
    decreases |a|
  {
    hide Receive;
    if a == [] {
      assert a + b == b;
    } else {
      ReceiveAllConcat(host, Receive(host, rx, a[0]), a[1..], b);
      assert (a + b)[1..] == a[1..] + b;
    }
  }

  // ----- what one read does -----

  /** The loop works on at least 23 bytes that start with an unknown protocol, or with 2 or 4 and a whole packet, which
      is four bytes longer than its length field says. */
  lemma CanStepIff(b: seq<byte>)
    ensures CanStep(b) <==> |b| >= 23 && (b[0] !in {2, 4} || |b| >= Digits(b[1..3]) + 4)
  {
    hide Digits, GetBe16;
    if |b| >= 3 {
      GetBe16Digits(b, 1);
    }
  }

  /** Bytes that start with neither 2 nor 4 are dropped, with nothing else changed, once there are 23 of them. */
  lemma UnknownProtocolDropped(host: Host, rx: Rx, chunk: seq<byte>)
    requires !rx.stopped && |rx.buffer + chunk| >= 23 && (rx.buffer + chunk)[0] !in {2, 4}
    ensures Receive(host, rx, chunk) == rx.(buffer := [], items := rx.items + [Item(rx.buffer + chunk, Discarded)])
  {
    var fed := rx.Feed(chunk);
    assert Drain(host, Step(host, fed)) == Step(host, fed);
  }

  /** The cipher after a message: the one of the key that its handlers install, or the old one. */
  lemma HandlersInstall(host: Host, m: Message, crypto: Option<Cipher>)
    ensures var (event, c) := Raised(host, Delivered(m), crypto);
            && event == Delivered(m)
            && (host.rekey(m).Some? ==> c == Some(Keyed(host.rekey(m).value)))
            && (host.rekey(m).None? ==> c == crypto)
  {
    hide Keyed;
  }

  /** What the switch over the protocol does with a packet. A plain one goes to the factory; an enclosed one is ignored
      without a cipher, and fails when it is malformed; otherwise its decrypted inside goes to the factory. What the
      factory refuses fails. */
  lemma HandledByProtocol(host: Host, crypto: Option<Cipher>, packet: seq<byte>)
    requires Whole(packet)
    ensures packet[0] == 2 ==>
              Handled(host, crypto, packet) ==
              if FromData(host.types, packet).Returned? then
                Raised(host, Delivered(FromData(host.types, packet).value), crypto)
              else (Failed, crypto)
    ensures packet[0] == 4 && crypto.None? ==> Handled(host, crypto, packet) == (Ignored, None)
    ensures packet[0] == 4 && crypto.Some? && ParsedEnvelope(packet).Thrown? ==>
              Handled(host, crypto, packet) == (Failed, crypto)
    ensures packet[0] == 4 && crypto.Some? && ParsedEnvelope(packet).Returned? ==>
              var (inner, c) := Decrypted(crypto.value, ParsedEnvelope(packet).value);
              Handled(host, crypto, packet) ==
              if FromData(host.types, inner).Returned? then
                Raised(host, Delivered(FromData(host.types, inner).value), Some(c))
              else (Failed, Some(c))
  {
    hide FromData, ParsedEnvelope, Decrypted, Keyed;
  }

  // ----- what arbitrary bytes keep -----

  function ItemBytes(items: seq<Item>): seq<seq<byte>> {
    seq(|items|, k requires 0 <= k < |items| => items[k].bytes)
  }

  /** All bytes accounted for: handled ones in order, then the waiting ones. */
  function Accounted(rx: Rx): seq<byte> { Flatten(ItemBytes(rx.items)) + rx.buffer }

  /** Packets are cut by their length field; a discard happens only on an unknown protocol. */
  predicate WellCut(item: Item) {
    if item.event == Discarded then
      |item.bytes| >= Packets.PACKET_LENGTH_MIN && !KnownProtocol(item.bytes[0])
    else
      |item.bytes| >= 4 && KnownProtocol(item.bytes[0]) && Size(item.bytes) == |item.bytes|
  }

  ghost predicate AllWellCut(rx: Rx) {
    && (forall k | 0 <= k < |rx.items| :: WellCut(rx.items[k]))
    && (rx.stopped <==> exists k :: 0 <= k < |rx.items| && rx.items[k].event == Failed)
    && (rx.stopped ==> rx.buffer == [])
  }

  lemma StepAccounts(host: Host, rx: Rx)
    requires CanStep(rx.buffer)
    ensures Accounted(Step(host, rx)) <= Accounted(rx)
    ensures !Step(host, rx).stopped ==> Accounted(Step(host, rx)) == Accounted(rx)
  {
    hide Handled, Flatten, KnownProtocol;
    var r := Step(host, rx);
    var last := r.items[|rx.items|];
    assert r.items == rx.items + [last];
    assert ItemBytes(r.items) == ItemBytes(rx.items) + [last.bytes];
    FlattenSnoc(ItemBytes(rx.items), last.bytes);
    var done := Flatten(ItemBytes(rx.items));
    assert rx.buffer == last.bytes + rx.buffer[|last.bytes|..];
    assert done + rx.buffer == done + last.bytes + rx.buffer[|last.bytes|..];
  }

  lemma StepWellCut(host: Host, rx: Rx)
    requires CanStep(rx.buffer) && AllWellCut(rx) && !rx.stopped
    ensures AllWellCut(Step(host, rx))
  {
    var r := Step(host, rx);
    assert r.items == rx.items + [r.items[|rx.items|]];
    if r.stopped {
      assert r.items[|rx.items|].event == Failed;
    }
  }

  lemma {:induction false} DrainAccounts(host: Host, rx: Rx)
    requires AllWellCut(rx)
    ensures var r := Drain(host, rx);
            && AllWellCut(r) && Accounted(r) <= Accounted(rx)
            && (!r.stopped ==> Accounted(r) == Accounted(rx) && !CanStep(r.buffer))
    decreases |rx.buffer|
  {
    hide Step, Accounted, AllWellCut, CanStep;
    if !rx.stopped && CanStep(rx.buffer) {
      StepAccounts(host, rx);
      StepWellCut(host, rx);
      DrainAccounts(host, Step(host, rx));
    }
  }

  /** A buffer that waits for more stays under the largest packet. */
  lemma ResidueBounded(b: seq<byte>)
    requires !CanStep(b)
    ensures |b| <= 65538
  {
  }

  lemma FeedKeepsCut(rx: Rx, more: seq<byte>)
    requires AllWellCut(rx) && !rx.stopped
    ensures AllWellCut(rx.Feed(more)) && Accounted(rx.Feed(more)) == Accounted(rx) + more
  {
  }

  lemma StoppedReceivesNothing(host: Host, rx: Rx, chunks: seq<seq<byte>>)
    requires rx.stopped
    ensures ReceiveAll(host, rx, chunks) == rx
  {
  }

  lemma ReceiveOneAccounts(host: Host, rx: Rx, chunk: seq<byte>)
    requires AllWellCut(rx) && !CanStep(rx.buffer)
    ensures var r := Receive(host, rx, chunk);
            && AllWellCut(r) && !CanStep(r.buffer)
            && Accounted(r) <= Accounted(rx) + chunk
            && (!r.stopped ==> Accounted(r) == Accounted(rx) + chunk)
  {
    if !rx.stopped {
      FeedKeepsCut(rx, chunk);
      DrainAccounts(host, rx.Feed(chunk));
    }
  }

  /** Whatever arrives in whatever pieces: nothing is lost, duplicated or reordered until a failure ends the
      loop, every packet is cut by its length field, and what waits between reads is bounded. */
  lemma {:induction false} ReceiveAccounts(host: Host, rx: Rx, chunks: seq<seq<byte>>)
    requires AllWellCut(rx) && !CanStep(rx.buffer)
    ensures var r := ReceiveAll(host, rx, chunks);
            && AllWellCut(r) && |r.buffer| <= 65538
            && Accounted(r) <= Accounted(rx) + Flatten(chunks)
            && (!r.stopped ==> Accounted(r) == Accounted(rx) + Flatten(chunks))
    decreases |chunks|
  {
    hide Receive, Accounted, AllWellCut, CanStep;
    if chunks == [] {
      ResidueBounded(rx.buffer);
    } else {
      var next := Receive(host, rx, chunks[0]);
      ReceiveOneAccounts(host, rx, chunks[0]);
      ReceiveAccounts(host, next, chunks[1..]);
      if next.stopped {
        StoppedReceivesNothing(host, next, chunks[1..]);
      }
      assert Accounted(rx) + chunks[0] + Flatten(chunks[1..]) == Accounted(rx) + Flatten(chunks);
    }
  }

  // ----- independence of the chunking -----

  /** From an item on, an unknown protocol dropped no more than the bytes that were needed to see it. */
  predicate ShortDiscards(items: seq<Item>, from: nat) {
    forall k | from <= k < |items| ::
      items[k].event == Discarded ==> |items[k].bytes| == Packets.PACKET_LENGTH_MIN
  }

  lemma {:induction false} DrainKeepsItems(host: Host, rx: Rx)
    ensures rx.items <= Drain(host, rx).items
    decreases |rx.buffer|
  {
    hide Step;
    if !rx.stopped && CanStep(rx.buffer) {
      DrainKeepsItems(host, Step(host, rx));
    }
  }

  /** A step on a known protocol does not look at the bytes behind the packet. */
  lemma StepFed(host: Host, rx: Rx, more: seq<byte>)
    requires CanStep(rx.buffer) && KnownProtocol(rx.buffer[0])
    ensures CanStep(rx.Feed(more).buffer)
    ensures var r := Step(host, rx);
            Step(host, rx.Feed(more)) == if r.stopped then r else r.Feed(more)
  {
    hide Handled;
    var n := Size(rx.buffer);
    var b := rx.buffer + more;
    assert Size(b) == n && b[..n] == rx.buffer[..n] && b[n..] == rx.buffer[n..] + more;
  }

  lemma DrainStep(host: Host, rx: Rx)
    ensures Drain(host, rx) == if rx.stopped || !CanStep(rx.buffer) then rx else Drain(host, Step(host, rx))
  {
  }

  lemma DrainDiscards(host: Host, rx: Rx)
    requires !rx.stopped && CanStep(rx.buffer) && !KnownProtocol(rx.buffer[0])
    ensures Drain(host, rx) == rx.(buffer := [], items := rx.items + [Item(rx.buffer, Discarded)])
  {
    hide KnownProtocol;
    assert Drain(host, Step(host, rx)) == Step(host, rx);
  }

  lemma {:induction false} DrainFed(host: Host, rx: Rx, more: seq<byte>, from: nat)
    requires !rx.stopped && from <= |rx.items| && ShortDiscards(Drain(host, rx.Feed(more)).items, from)
    ensures ShortDiscards(Drain(host, rx).items, from)
    ensures Drain(host, rx.Feed(more)) == Receive(host, Drain(host, rx), more)
    decreases |rx.buffer|
  {
    hide Handled;
    if CanStep(rx.buffer) {
      if KnownProtocol(rx.buffer[0]) {
        StepFed(host, rx, more);
        var r := Step(host, rx);
        if !r.stopped {
          DrainFed(host, r, more, from);
        }
      } else {
        DrainDiscards(host, rx.Feed(more));
        DrainDiscards(host, rx);
        assert Drain(host, rx.Feed(more)).items[|rx.items|] == Item(rx.buffer + more, Discarded);
        assert more == [] && rx.Feed(more) == rx;
      }
    } else {
      DrainKeepsItems(host, rx.Feed(more));
    }
  }

  /** When an unknown protocol drops nothing that was already behind it, any splitting into reads has the effect of
      one read of all the bytes. */
  lemma {:induction false} ChunkingIndependence(host: Host, rx: Rx, chunks: seq<seq<byte>>, from: nat)
    requires !rx.stopped && from <= |rx.items|
    requires ShortDiscards(Drain(host, rx.Feed(Flatten(chunks))).items, from)
    ensures ReceiveAll(host, Drain(host, rx), chunks) == Drain(host, rx.Feed(Flatten(chunks)))
    decreases |chunks|
  {
    hide Step, Handled, CanStep, ShortDiscards;
    if chunks == [] {
      assert rx.Feed([]) == rx;
    } else {
      var fed := rx.Feed(chunks[0]);
      var rest := Flatten(chunks[1..]);
      assert rx.Feed(Flatten(chunks)) == fed.Feed(rest);
      DrainFed(host, fed, rest, from);
      DrainFed(host, rx, chunks[0], from);
      ChunkingIndependence(host, fed, chunks[1..], from);
    }
  }

  lemma MoreCanStep(a: seq<byte>, b: seq<byte>)
    requires a <= b && CanStep(a)
    ensures CanStep(b)
  {
    assert Size(a) == Size(b);
  }

  /** The bytes up to the point where the k-th item becomes a discard; there it drops 23 bytes. */
  lemma {:induction false} DiscardCut(host: Host, rx: Rx, k: nat) returns (n: nat)
    requires !rx.stopped && |rx.items| <= k < |Drain(host, rx).items|
    requires Drain(host, rx).items[k].event == Discarded
    ensures Packets.PACKET_LENGTH_MIN <= n <= |rx.buffer|
    ensures n + |Drain(host, rx).items[k].bytes| == |rx.buffer| + Packets.PACKET_LENGTH_MIN
    ensures var cut := Drain(host, rx.(buffer := rx.buffer[..n]));
            CanStep(rx.buffer[..n]) && k < |cut.items| && |cut.items[k].bytes| == Packets.PACKET_LENGTH_MIN
    decreases |rx.buffer|
  {
    hide Handled, KnownProtocol, Drain;
    DrainStep(host, rx);
    var r := Step(host, rx);
    if !KnownProtocol(rx.buffer[0]) {
      n := Packets.PACKET_LENGTH_MIN;
      DrainDiscards(host, rx);
      DrainDiscards(host, rx.(buffer := rx.buffer[..n]));
    } else {
      FailedIsNoDiscard(host, rx, k);
      var m := DiscardCut(host, r, k);
      n := m + Size(rx.buffer);
      var cut := rx.(buffer := rx.buffer[..n]);
      assert cut.Feed(rx.buffer[n..]) == rx;
      assert Size(cut.buffer) == Size(rx.buffer);
      StepFed(host, cut, rx.buffer[n..]);
      assert Step(host, cut) == r.(buffer := r.buffer[..m]);
      DrainStep(host, cut);
    }
  }

  lemma FailedIsNoDiscard(host: Host, rx: Rx, k: nat)
    requires !rx.stopped && CanStep(rx.buffer) && KnownProtocol(rx.buffer[0])
    requires |rx.items| <= k < |Drain(host, rx).items| && Drain(host, rx).items[k].event == Discarded
    ensures !Step(host, rx).stopped && |rx.items| < k
  {
    hide Handled;
    var r := Step(host, rx);
    HandledIsNoDiscard(host, rx.crypto, rx.buffer[..Size(rx.buffer)]);
    DrainKeepsItems(host, r);
    assert Drain(host, rx).items[|rx.items|] == r.items[|rx.items|];
  }

  lemma HandledIsNoDiscard(host: Host, crypto: Option<Cipher>, packet: seq<byte>)
    ensures Handled(host, crypto, packet).0 != Discarded
  {
    hide FromData, ParsedEnvelope, Decrypted;
  }

  lemma {:induction false} ReceiveAllKeepsItems(host: Host, rx: Rx, chunks: seq<seq<byte>>)
    ensures rx.items <= ReceiveAll(host, rx, chunks).items
    decreases |chunks|
  {
    hide Drain;
    if chunks != [] {
      DrainKeepsItems(host, rx.Feed(chunks[0]));
      ReceiveAllKeepsItems(host, Receive(host, rx, chunks[0]), chunks[1..]);
    }
  }

  /** A longer discard is not independent: a first read that ends 23 bytes into it drops only those. */
  lemma LongDiscardSplits(host: Host, rx: Rx, b: seq<byte>) returns (chunks: seq<seq<byte>>)
    requires !rx.stopped && !CanStep(rx.buffer)
    requires !ShortDiscards(Receive(host, rx, b).items, |rx.items|)
    ensures Flatten(chunks) == b && ReceiveAll(host, rx, chunks) != Receive(host, rx, b)
  {
    hide Drain, CanStep;
    var fed, items := rx.Feed(b), Receive(host, rx, b).items;
    var k :| |rx.items| <= k < |items| && items[k].event == Discarded
             && |items[k].bytes| != Packets.PACKET_LENGTH_MIN;
    var n := DiscardCut(host, fed, k);
    var start := fed.buffer[..n];
    if n <= |rx.buffer| {
      MoreCanStep(start, rx.buffer);
    }
    var m := n - |rx.buffer|;
    chunks := [b[..m], b[m..]];
    assert rx.Feed(b[..m]) == rx.(buffer := start);
    var first := Receive(host, rx, b[..m]);
    assert chunks[1..] == [b[m..]];
    ReceiveAllKeepsItems(host, first, chunks[1..]);
    assert ReceiveAll(host, rx, chunks).items[k] == first.items[k];
    assert Flatten(chunks) == b[..m] + Flatten([b[m..]]) == b[..m] + (b[m..] + Flatten<byte>([]));
  }

  /** Exactly when the splitting does not matter: for a receiver that waits, every splitting of the bytes has the
      effect of one read if and only if that read drops nothing, or drops just 23 bytes. */
  lemma SplittingIndependentIff(host: Host, rx: Rx, b: seq<byte>)
    requires !rx.stopped && !CanStep(rx.buffer)
    ensures (forall chunks: seq<seq<byte>> | Flatten(chunks) == b ::
               ReceiveAll(host, rx, chunks) == Receive(host, rx, b))
            <==> ShortDiscards(Receive(host, rx, b).items, |rx.items|)
  {
    hide ShortDiscards, CanStep;
    if ShortDiscards(Receive(host, rx, b).items, |rx.items|) {
      forall chunks: seq<seq<byte>> | Flatten(chunks) == b
        ensures ReceiveAll(host, rx, chunks) == Receive(host, rx, b)
      {
        ChunkingIndependence(host, rx, chunks, |rx.items|);
      }
    } else {
      var chunks := LongDiscardSplits(host, rx, b);
    }
  }

  /** Then two splittings of the same bytes deliver the same, and leave the same bytes waiting. */
  lemma SameBytesSameEffect(host: Host, rx: Rx, a: seq<seq<byte>>, b: seq<seq<byte>>)
    requires !rx.stopped && !CanStep(rx.buffer)
    requires Flatten(a) == Flatten(b) && ShortDiscards(Drain(host, rx.Feed(Flatten(a))).items, |rx.items|)
    ensures ReceiveAll(host, rx, a) == ReceiveAll(host, rx, b)
  {
    ChunkingIndependence(host, rx, a, |rx.items|);
    ChunkingIndependence(host, rx, b, |rx.items|);
  }

  /** So a packet behind an unknown protocol is lost in one read and delivered in two. */
  lemma DiscardDependsOnSplitting(host: Host, junk: seq<byte>, packet: seq<byte>)
    requires |junk| >= Packets.PACKET_LENGTH_MIN && !KnownProtocol(junk[0])
    requires Whole(packet) && Handled(host, None, packet).0.Delivered?
    ensures var idle := Rx(None, [], [], false);
            && ReceiveAll(host, idle, [junk + packet]).items == [Item(junk + packet, Discarded)]
            && |ReceiveAll(host, idle, [junk, packet]).items| == 2
            && ReceiveAll(host, idle, [junk, packet]).items[1].event.Delivered?
  {
    hide Receive, KnownProtocol, Whole, Handled;
    var idle := Rx(None, [], [], false);
    ReceiveJunk(host, idle, junk + packet);
    ReceiveJunk(host, idle, junk);
    var second := Receive(host, idle, junk);
    assert [] + [Item(junk, Discarded)] == [Item(junk, Discarded)];
    ReceiveAccepted(host, second, packet);
    ReceiveOne(host, idle, junk + packet);
    ReceiveAllConcat(host, idle, [junk], [packet]);
    ReceiveOne(host, idle, junk);
    ReceiveOne(host, second, packet);
    assert [junk] + [packet] == [junk, packet];
  }

  lemma ReceiveOne(host: Host, rx: Rx, chunk: seq<byte>)
    ensures ReceiveAll(host, rx, [chunk]) == Receive(host, rx, chunk)
  {
    assert ReceiveAll(host, Receive(host, rx, chunk), []) == Receive(host, rx, chunk);
  }

  lemma ReceiveJunk(host: Host, rx: Rx, junk: seq<byte>)
    requires rx.buffer == [] && !rx.stopped
    requires |junk| >= Packets.PACKET_LENGTH_MIN && !KnownProtocol(junk[0])
    ensures Receive(host, rx, junk) == rx.(items := rx.items + [Item(junk, Discarded)])
  {
    var fed := rx.Feed(junk);
    assert fed.buffer == junk;
    assert Drain(host, Step(host, fed)) == Step(host, fed);
  }

  lemma ReceiveAccepted(host: Host, rx: Rx, packet: seq<byte>)
    requires rx.buffer == [] && !rx.stopped && Whole(packet) && Handled(host, rx.crypto, packet).0.Delivered?
    ensures var r := Receive(host, rx, packet);
            |r.items| == |rx.items| + 1 && r.items[|rx.items|].event.Delivered?
  {
    hide Step, Handled, Whole;
    var fed := rx.Feed(packet);
    assert fed.buffer == packet + [];
    StepWhole(host, fed, packet, []);
    assert Drain(host, Step(host, fed)) == Step(host, fed);
  }

  // ----- streams of whole packets -----

  /** A packet that the loop cuts out as it is. */
  predicate Whole(p: seq<byte>) {
    |p| >= Packets.PACKET_LENGTH_MIN && KnownProtocol(p[0]) && Size(p) == |p|
  }

  lemma StepWhole(host: Host, rx: Rx, p: seq<byte>, rest: seq<byte>)
    requires Whole(p) && rx.buffer == p + rest
    ensures CanStep(rx.buffer)
    ensures var (event, crypto) := Handled(host, rx.crypto, p);
            Step(host, rx) == Rx(crypto, if event == Failed then [] else rest, rx.items + [Item(p, event)],
                                  event == Failed)
  {
    hide Handled;
    assert Size(rx.buffer) == Size(p);
    assert rx.buffer[..|p|] == p && rx.buffer[|p|..] == rest;
  }

  /** The items of handling whole packets one by one, up to the first failure. */
  function HandleAll(host: Host, crypto: Option<Cipher>, ps: seq<seq<byte>>): (seq<Item>, Option<Cipher>)
    decreases |ps|
  {
    if ps == [] then ([], crypto)
    else
      var (event, c) := Handled(host, crypto, ps[0]);
      if event == Failed then ([Item(ps[0], event)], c)
      else
        var (items, c') := HandleAll(host, c, ps[1..]);
        ([Item(ps[0], event)] + items, c')
  }

  predicate NoFailure(items: seq<Item>) {
    forall k | 0 <= k < |items| :: items[k].event != Failed
  }

  lemma HandleAllStep(host: Host, crypto: Option<Cipher>, ps: seq<seq<byte>>)
    requires ps != []
    ensures var (event, c) := Handled(host, crypto, ps[0]);
            var (items, c') := HandleAll(host, c, ps[1..]);
            HandleAll(host, crypto, ps) ==
            if event == Failed then ([Item(ps[0], event)], c) else ([Item(ps[0], event)] + items, c')
  {
  }

  lemma NoFailureCons(first: Item, items: seq<Item>)
    ensures NoFailure([first] + items) <==> first.event != Failed && NoFailure(items)
    ensures NoFailure([first]) <==> first.event != Failed
  {
    assert ([first] + items)[0] == first;
    assert forall k | 0 <= k < |items| :: items[k] == ([first] + items)[k + 1];
  }

  /** A concatenation of whole packets and the start of another: exactly those packets are handled, and the start
      waits; a failure ends it after the packet that failed. */
  lemma {:induction false} DrainWhole(host: Host, rx: Rx, ps: seq<seq<byte>>, next: seq<byte>, tail: seq<byte>)
    requires forall k | 0 <= k < |ps| :: Whole(ps[k])
    requires Whole(next) && tail < next
    requires !rx.stopped && rx.buffer == Flatten(ps) + tail
    ensures var (items, crypto) := HandleAll(host, rx.crypto, ps);
            Drain(host, rx) == if NoFailure(items) then Rx(crypto, tail, rx.items + items, false)
                                else Rx(crypto, [], rx.items + items, true)
    decreases |ps|
  {
    hide Handled, Step, Whole, Drain, NoFailure, CanStep;
    DrainStep(host, rx);
    if ps == [] {
      assert rx.buffer == tail;
      StrictPrefixWaits(tail, next);
      assert NoFailure([]) by { NothingFails(); }
    } else {
      var rest := Flatten(ps[1..]) + tail;
      assert rx.buffer == ps[0] + rest;
      hide Flatten, HandleAll;
      StepWhole(host, rx, ps[0], rest);
      HandleAllStep(host, rx.crypto, ps);
      var (event, crypto) := Handled(host, rx.crypto, ps[0]);
      var first, more := Item(ps[0], event), HandleAll(host, crypto, ps[1..]).0;
      NoFailureCons(first, more);
      DrainStep(host, Step(host, rx));
      if event != Failed {
        DrainWhole(host, Step(host, rx), ps[1..], next, tail);
        assert rx.items + [first] + more == rx.items + ([first] + more);
      }
    }
  }

  lemma NothingFails()
    ensures NoFailure([])
  {
  }

  lemma StrictPrefixWaits(tail: seq<byte>, next: seq<byte>)
    requires Whole(next) && tail < next
    ensures !CanStep(tail)
  {
    if |tail| >= 3 {
      assert Size(tail) == Size(next);
    }
  }
}
