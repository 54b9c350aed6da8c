/** Sender and receiver together: what is sent, plain or encrypted, is what is delivered. */
module EndToEnd {
  import opened Bytes
  import opened AmxDevices
  import Rc4Stream
  import opened Rc4Cipher
  import opened Packets
  import opened Envelopes
  import opened Reassembly

  // ----- sending -----

  const RC4_SEND: ushort := 4

  /** (mode & RC4_Send) > 0 */
  predicate Encrypts(mode: ushort) { mode / RC4_SEND % 2 == 1 }

  /** A serialized request, the encryption mode when it is sent, and the salt drawn for it. */
  datatype Sending = Sending(fields: Fields, mode: ushort, salt: Salt)

  /** The bytes written for one request. A missing cipher or an oversized envelope throws before the write. */
  function SendBytes(crypto: Option<Cipher>, raw: seq<byte>, source: AmxDevice, dest: AmxDevice, mode: ushort,
                     salt: Salt): (Outcome<seq<byte>>, Option<Cipher>)
  {
    if !Encrypts(mode) then (Returned(raw), crypto)
    else
      match crypto
      case None => (Thrown, None)
      case Some(c) =>
        var (sent, c') := Built(c, raw, source, dest, 4, salt);
        (sent, Some(c'))
  }

  function Sent(crypto: Option<Cipher>, s: Sending): (Outcome<seq<byte>>, Option<Cipher>) {
    SendBytes(crypto, Wire(s.fields), s.fields.source, s.fields.dest, s.mode, s.salt)
  }

  lemma EncryptsIff(mode: ushort)
    ensures Encrypts(mode) <==> Bit(mode, 2) == 1
  {
    assert Bit(mode, 2) == Bit(mode / 2, 1) == Bit(mode / 2 / 2, 0);
  }

  /** What an envelope from any cipher gives that same cipher. */
  lemma EnclosedForCipher(c: Cipher, raw: seq<byte>, source: AmxDevice, dest: AmxDevice, salt: Salt)
    requires |raw| <= MaxInner(4)
    ensures var w := Built(c, raw, source, dest, 4, salt).0;
            && w.Returned? && w.value[0] == 4 && ParsedEnvelope(w.value).Returned?
            && ParsedEnvelope(w.value).value.Salt() == Some(salt)
            && Decrypted(c, ParsedEnvelope(w.value).value).0 == raw
  {
    hide Built, ParsedEnvelope, Rc4Stream.Crypt, Digits, Sum, Rc4Stream.After, Salted;
    BuiltLayout(c, raw, source, dest, 4, salt);
    var w := Built(c, raw, source, dest, 4, salt).0.value;
    ParsedEnvelopeLayout(w);
    Rc4Stream.CryptInvolutive(Rc4Stream.Start(Salted(c.table, salt)), raw);
  }

  /** What is written in each mode, whatever the state of the cipher: with digit 2 of the mode set, an envelope that
      starts with 4 and decrypts to the request, or nothing without a cipher or for a request over 65521 bytes; in
      every other mode the request itself. */
  lemma WrittenByMode(crypto: Option<Cipher>, raw: seq<byte>, source: AmxDevice, dest: AmxDevice, mode: ushort,
                      salt: Salt)
    ensures var (w, c) := SendBytes(crypto, raw, source, dest, mode, salt);
            if Bit(mode, 2) == 0 then w == Returned(raw) && c == crypto
            else
              && (w.Returned? <==> crypto.Some? && |raw| <= 65521)
              && (w.Returned? ==>
                    && w.value[0] == 4 && ParsedEnvelope(w.value).Returned?
                    && Decrypted(crypto.value, ParsedEnvelope(w.value).value).0 == raw)
  {
    hide Bit, Built, ParsedEnvelope, Decrypted;
    EncryptsIff(mode);
    BitIsBinary(mode, 2);
    if Encrypts(mode) && crypto.Some? {
      BuiltFits(crypto.value, raw, source, dest, 4, salt);
      if |raw| <= MaxInner(4) {
        EnclosedForCipher(crypto.value, raw, source, dest, salt);
      }
    }
  }

  // ----- what arrives -----

  /** What arrives for a request, with any checksum: every field as it was, the length, and that checksum. */
  function ArrivesWith(host: Host, f: Fields, checksum: byte): Message {
    Dispatched(host.types, Packet(ToUShort(19 + |f.data|), f, checksum))
  }

  function Arrives(host: Host, f: Fields): Message { ArrivesWith(host, f, Checksum(Body(f))) }

  predicate Readable(host: Host, f: Fields) { Accepts(host.types, f) }

  /** A payload that its message class cannot read fails instead. */
  function Arrival(host: Host, f: Fields): Event {
    if Readable(host, f) then Delivered(Arrives(host, f)) else Failed
  }

  /** The shared key after a request: a challenge installs a new one on both sides. */
  function KeyAfter(host: Host, key: Option<Key>, f: Fields): Option<Key> {
    if Readable(host, f) && host.rekey(Arrives(host, f)).Some? then host.rekey(Arrives(host, f)) else key
  }

  function CipherOf(key: Option<Key>): Option<Cipher> {
    if key.Some? then Some(Keyed(key.value)) else None
  }

  lemma RaisedArrival(host: Host, key: Option<Key>, f: Fields)
    ensures Raised(host, Arrival(host, f), CipherOf(key)) == (Arrival(host, f), CipherOf(KeyAfter(host, key, f)))
  {
    hide Keyed, Arrives, Readable;
  }

  /** The packets written for a sequence of requests, with the state of the sender's cipher carried along. */
  function SendAll(host: Host, crypto: Option<Cipher>, sends: seq<Sending>): seq<seq<byte>>
    decreases |sends|
  {
    if sends == [] then []
    else
      var (sent, c) := Sent(crypto, sends[0]);
      var rest := SendAll(host, Raised(host, Arrival(host, sends[0].fields), c).1, sends[1..]);
      if sent.Returned? then [sent.value] + rest else rest
  }

  /** The payload is within what the length fields can hold, and there is a key to encrypt with. */
  predicate Sendable(key: Option<Key>, s: Sending) {
    && 0 <= s.fields.flag < 0x1_0000
    && |s.fields.data| <= (if Encrypts(s.mode) then MaxInner(4) - Packets.PACKET_LENGTH_MIN else MAX_DATA)
    && (Encrypts(s.mode) ==> key.Some?)
  }

  predicate AllSendable(host: Host, key: Option<Key>, sends: seq<Sending>)
    decreases |sends|
  {
    sends != [] ==>
      Sendable(key, sends[0]) && AllSendable(host, KeyAfter(host, key, sends[0].fields), sends[1..])
  }

  /** The number of requests before the first whose payload cannot be read. */
  function Accepted(host: Host, sends: seq<Sending>): (n: nat)
    ensures n <= |sends|
    ensures forall k | 0 <= k < n :: Readable(host, sends[k].fields)
    ensures n < |sends| ==> !Readable(host, sends[n].fields)
  {
    if sends == [] || !Readable(host, sends[0].fields) then 0 else 1 + Accepted(host, sends[1..])
  }

  /** The key that the receiver ends with. */
  function FinalKey(host: Host, key: Option<Key>, sends: seq<Sending>): Option<Key>
    decreases |sends|
  {
    if sends == [] || !Readable(host, sends[0].fields) then key
    else FinalKey(host, KeyAfter(host, key, sends[0].fields), sends[1..])
  }

  function DeliveredMessages(items: seq<Item>): seq<Message> {
    if items == [] then []
    else
      var rest := DeliveredMessages(items[1..]);
      if items[0].event.Delivered? then [items[0].event.message] + rest else rest
  }

  // ----- one packet -----

  /** The checksum is never compared: whatever the last byte is, the packet is handled alike. */
  lemma AnyChecksumArrives(host: Host, crypto: Option<Cipher>, f: Fields, checksum: byte)
    requires |f.data| <= MAX_DATA && 0 <= f.flag < 0x1_0000
    ensures var event := if Readable(host, f) then Delivered(ArrivesWith(host, f, checksum)) else Failed;
            && FromFactory(host, Body(f) + [checksum]) == event
            && Handled(host, crypto, Body(f) + [checksum]) == Raised(host, event, crypto)
  {
    hide Parsed, FromData;
    var b := Body(f) + [checksum];
    assert b[0] == Packets.PROTOCOL;
    ParseBody(f, checksum);
    FromDataDispatches(host.types, b);
  }

  lemma PlainArrives(host: Host, crypto: Option<Cipher>, f: Fields)
    requires |f.data| <= MAX_DATA && 0 <= f.flag < 0x1_0000
    ensures Whole(Wire(f))
    ensures FromFactory(host, Wire(f)) == Arrival(host, f)
    ensures Handled(host, crypto, Wire(f)) == Raised(host, Arrival(host, f), crypto)
  {
    hide Checksum, Be16, AmxDevice.GetBytesSDP, FromFactory, Handled, Raised, Readable;
    AnyChecksumArrives(host, crypto, f, Checksum(Body(f)));
    LengthOfWire(f);
    assert Wire(f)[0] == Packets.PROTOCOL;
  }

  lemma EncryptedArrives(host: Host, key: Key, f: Fields, salt: Salt)
    requires 0 <= f.flag < 0x1_0000
    requires |f.data| <= MaxInner(4) - Packets.PACKET_LENGTH_MIN
    ensures var (sent, c) := Built(Keyed(key), Wire(f), f.source, f.dest, 4, salt);
            && sent.Returned? && c == Keyed(key) && Whole(sent.value)
            && Handled(host, Some(Keyed(key)), sent.value) == Raised(host, Arrival(host, f), Some(Keyed(key)))
  {
    hide Checksum, Keyed, Built, ParsedEnvelope, Decrypted, Wire, Arrival, Raised, FromFactory;
    EnvelopeRoundTrip(key, Wire(f), f.source, f.dest, 4, salt);
    PlainArrives(host, None, f);
  }

  lemma SendingArrives(host: Host, key: Option<Key>, s: Sending)
    requires Sendable(key, s)
    ensures var (sent, c) := Sent(CipherOf(key), s);
            && sent.Returned? && c == CipherOf(key) && Whole(sent.value)
            && Handled(host, CipherOf(key), sent.value)
               == (Arrival(host, s.fields), CipherOf(KeyAfter(host, key, s.fields)))
  {
    hide Keyed, Built, Wire, Handled, Whole, Arrival, KeyAfter, Raised;
    RaisedArrival(host, key, s.fields);
    if Encrypts(s.mode) {
      EncryptedArrives(host, key.value, s.fields, s.salt);
    } else {
      PlainArrives(host, CipherOf(key), s.fields);
    }
  }

  // ----- sequences of packets -----

  /** One item for each accepted request, and one more for the first that is not accepted. */
  predicate ItemsOf(host: Host, items: seq<Item>, sends: seq<Sending>) {
    var n := Accepted(host, sends);
    && |items| == (if n < |sends| then n + 1 else n)
    && (forall k | 0 <= k < n :: items[k].event == Delivered(Arrives(host, sends[k].fields)))
    && (n < |sends| ==> items[n].event == Failed)
  }

  lemma ItemsOfCons(host: Host, first: Item, more: seq<Item>, sends: seq<Sending>)
    requires sends != [] && first.event == Arrival(host, sends[0].fields)
    ensures first.event == Failed ==> ItemsOf(host, [first], sends)
    ensures first.event != Failed && ItemsOf(host, more, sends[1..]) ==> ItemsOf(host, [first] + more, sends)
  {
    hide Readable, Arrives;
  }

  lemma SendAllCons(host: Host, key: Option<Key>, sends: seq<Sending>)
    requires sends != [] && Sendable(key, sends[0])
    ensures Sent(CipherOf(key), sends[0]).0.Returned?
    ensures SendAll(host, CipherOf(key), sends) ==
            [Sent(CipherOf(key), sends[0]).0.value]
            + SendAll(host, CipherOf(KeyAfter(host, key, sends[0].fields)), sends[1..])
  {
    hide Sendable, Sent, CipherOf, Raised, KeyAfter, Arrival, Handled;
    SendingArrives(host, key, sends[0]);
    RaisedArrival(host, key, sends[0].fields);
  }

  lemma FirstSendable(host: Host, key: Option<Key>, sends: seq<Sending>)
    requires sends != [] && AllSendable(host, key, sends)
    ensures Sendable(key, sends[0]) && AllSendable(host, KeyAfter(host, key, sends[0].fields), sends[1..])
  {
  }

  lemma FinalKeyCons(host: Host, key: Option<Key>, sends: seq<Sending>)
    requires sends != []
    ensures FinalKey(host, key, sends) ==
            if Arrival(host, sends[0].fields) == Failed then key
            else FinalKey(host, KeyAfter(host, key, sends[0].fields), sends[1..])
  {
    hide Readable, KeyAfter;
  }

  lemma {:induction false} AllArrive(host: Host, key: Option<Key>, sends: seq<Sending>)
    requires AllSendable(host, key, sends)
    ensures var packets := SendAll(host, CipherOf(key), sends);
            && |packets| == |sends| && (forall k | 0 <= k < |packets| :: Whole(packets[k]))
            && var (items, c) := HandleAll(host, CipherOf(key), packets);
               ItemsOf(host, items, sends) && (NoFailure(items) ==> c == CipherOf(FinalKey(host, key, sends)))
    decreases |sends|
  {
    hide CipherOf, Sent, Handled, Whole, Sendable, Arrival, KeyAfter, ItemsOf, AllSendable;
    var packets := SendAll(host, CipherOf(key), sends);
    if sends == [] {
      assert ItemsOf(host, [], []) by { NothingSent(host); }
    } else {
      hide SendAll, HandleAll, FinalKey, NoFailure;
      var next, f := KeyAfter(host, key, sends[0].fields), sends[0].fields;
      FirstSendable(host, key, sends);
      SendingArrives(host, key, sends[0]);
      SendAllCons(host, key, sends);
      AllArrive(host, next, sends[1..]);
      var rest := SendAll(host, CipherOf(next), sends[1..]);
      assert packets[1..] == rest;
      HandleAllStep(host, CipherOf(key), packets);
      var first, more := Item(packets[0], Arrival(host, f)), HandleAll(host, CipherOf(next), rest).0;
      ItemsOfCons(host, first, more, sends);
      NoFailureCons(first, more);
      FinalKeyCons(host, key, sends);
    }
  }

  lemma NothingSent(host: Host)
    ensures ItemsOf(host, [], [])
  {
  }

  /** What the accepted requests deliver, in order. */
  function Deliveries(host: Host, sends: seq<Sending>): (r: seq<Message>)
    ensures |r| == Accepted(host, sends)
  {
    seq(Accepted(host, sends), k requires 0 <= k < Accepted(host, sends) => Arrives(host, sends[k].fields))
  }

  lemma DeliveredCons(item: Item, items: seq<Item>)
    ensures DeliveredMessages([item] + items)
            == (if item.event.Delivered? then [item.event.message] else []) + DeliveredMessages(items)
    ensures DeliveredMessages([]) == []
  {
    assert ([item] + items)[1..] == items;
  }

  lemma DeliveriesCons(host: Host, sends: seq<Sending>)
    requires sends != [] && Accepted(host, sends) > 0
    ensures Accepted(host, sends) == 1 + Accepted(host, sends[1..])
    ensures Deliveries(host, sends) == [Arrives(host, sends[0].fields)] + Deliveries(host, sends[1..])
  {
    hide Arrives, Readable;
  }

  lemma {:induction false} MessagesOf(host: Host, items: seq<Item>, sends: seq<Sending>)
    requires ItemsOf(host, items, sends)
    ensures DeliveredMessages(items) == Deliveries(host, sends)
    ensures NoFailure(items) <==> Accepted(host, sends) == |sends|
    decreases |items|
  {
    hide Arrives, Readable, DeliveredMessages, Deliveries, NoFailure, Accepted;
    if items == [] {
      NothingFails();
      DeliveredCons(Item([], Ignored), []);
    } else {
      assert items == [items[0]] + items[1..];
      NoFailureCons(items[0], items[1..]);
      DeliveredCons(items[0], items[1..]);
      if Accepted(host, sends) > 0 {
        DeliveriesCons(host, sends);
        MessagesOf(host, items[1..], sends[1..]);
      } else {
        assert items[1..] == [];
      }
    }
  }

  /** Whole packets, and the start of one more, in any pieces: the packets are handled in order, and the start waits
      unless one of them failed. */
  lemma WholePacketsInPieces(host: Host, crypto: Option<Cipher>, packets: seq<seq<byte>>,
                             next: seq<byte>, tail: seq<byte>, chunks: seq<seq<byte>>)
    requires forall k | 0 <= k < |packets| :: Whole(packets[k])
    requires Whole(next) && tail < next
    requires Flatten(chunks) == Flatten(packets) + tail
    ensures var (items, c) := HandleAll(host, crypto, packets);
            ReceiveAll(host, Rx(crypto, [], [], false), chunks) ==
            if NoFailure(items) then Rx(c, tail, items, false) else Rx(c, [], items, true)
  {
    hide Handled, Step, CanStep;
    var idle := Rx(crypto, [], [], false);
    var (items, c) := HandleAll(host, crypto, packets);
    var all := idle.Feed(Flatten(chunks));
    assert all.buffer == Flatten(packets) + tail;
    DrainWhole(host, all, packets, next, tail);
    assert [] + items == items;
    HandledAreNotDiscarded(host, crypto, packets);
    assert !CanStep([]) by { StrictPrefixWaits([], next); }
    ChunkingIndependence(host, idle, chunks, 0);
  }

  lemma {:induction false} HandledAreNotDiscarded(host: Host, crypto: Option<Cipher>, ps: seq<seq<byte>>)
    ensures forall k | 0 <= k < |HandleAll(host, crypto, ps).0| ::
              HandleAll(host, crypto, ps).0[k].event != Discarded
    decreases |ps|
  {
    hide Handled;
    if ps != [] {
      HandledIsNoDiscard(host, crypto, ps[0]);
      HandledAreNotDiscarded(host, Handled(host, crypto, ps[0]).1, ps[1..]);
    }
  }

  /** End to end, from a receiver with or without a key: any requests within the length limits, each sent plain or,
      once there is a key, encrypted with any salt, with challenges among them that change the key on both sides, in
      any splitting into reads, are delivered in order with every field equal, up to the first whose payload its
      message class cannot read; there the loop stops. So all are delivered, and the loop goes on, if and only if
      every payload can be read; and then the receiver has the key of the last challenge. */
  lemma EndToEndDelivery(host: Host, key: Option<Key>, sends: seq<Sending>, chunks: seq<seq<byte>>)
    requires AllSendable(host, key, sends)
    ensures Flatten(chunks) == Flatten(SendAll(host, CipherOf(key), sends)) ==>
            var r := ReceiveAll(host, Rx(CipherOf(key), [], [], false), chunks);
            && r.buffer == [] && DeliveredMessages(r.items) == Deliveries(host, sends)
            && (!r.stopped <==> forall k | 0 <= k < |sends| :: Readable(host, sends[k].fields))
            && (!r.stopped ==> r.crypto == CipherOf(FinalKey(host, key, sends)))
  {
    hide CipherOf, SendAll, HandleAll, Whole, AllSendable, Arrives, ReceiveAll, Readable, ItemsOf, NoFailure, FinalKey;
    AllArrive(host, key, sends);
    var packets := SendAll(host, CipherOf(key), sends);
    var items := HandleAll(host, CipherOf(key), packets).0;
    MessagesOf(host, items, sends);
    var empty := Fields(0, EMPTY, EMPTY, 0, 0, 0, []);
    PlainArrives(host, None, empty);
    assert Flatten(packets) + [] == Flatten(packets);
    if Flatten(chunks) == Flatten(packets) {
      WholePacketsInPieces(host, CipherOf(key), packets, Wire(empty), [], chunks);
    }
  }
}
