/** The client object: sending, the read loop, and what a lost connection resets. */
module Clients {
  import opened Bytes
  import opened Rc4Cipher
  import opened Packets
  import opened Envelopes
  import opened Reassembly
  import opened EndToEnd

  /** What the handlers of the last of these messages set the mode to, if they do. */
  type ModeHandler = seq<Item> -> Option<ushort>

  /** The mode after the items from a point on were handled. */
  function ModeAfter(remode: ModeHandler, mode: ushort, items: seq<Item>, from: nat): ushort {
    if |items| <= from then mode
    else if items[|items| - 1].event.Delivered? && remode(items).Some? then remode(items).value
    else ModeAfter(remode, mode, items[..|items| - 1], from)
  }

  /** The handlers of item k set the mode. */
  predicate SetsMode(remode: ModeHandler, items: seq<Item>, k: nat)
    requires k < |items|
  {
    items[k].event.Delivered? && remode(items[..k + 1]).Some?
  }

  /** The last message whose handlers set the mode decides; without one the mode stays. */
  lemma {:induction false} LastModeWins(remode: ModeHandler, mode: ushort, items: seq<Item>, from: nat, k: nat)
    requires from <= |items|
    ensures from <= k < |items| && SetsMode(remode, items, k)
            && (forall j | k < j < |items| :: !SetsMode(remode, items, j)) ==>
              ModeAfter(remode, mode, items, from) == remode(items[..k + 1]).value
    ensures (forall j | from <= j < |items| :: !SetsMode(remode, items, j)) ==>
              ModeAfter(remode, mode, items, from) == mode
    decreases |items|
  {
    var n := |items| - 1;
    if from < |items| {
      assert items[..n + 1] == items;
      forall j | 0 <= j < n
        ensures SetsMode(remode, items[..n], j) == SetsMode(remode, items, j)
      {
        assert items[..n][..j + 1] == items[..j + 1];
      }
      if !SetsMode(remode, items, n) {
        LastModeWins(remode, mode, items[..n], from, k);
        assert k < n ==> items[..n][..k + 1] == items[..k + 1];
      }
    }
  }

  class ICSPClient {
    /** The message classes of the factory, and what the handlers of DataReceived do to the cipher and the mode. */
    const host: Host
    const remode: ModeHandler
    var CryptoProvider: RC4?
    var EncryptionMode: ushort
    /** The socket is there. */
    var connected: bool
    /** Everything written to the stream. */
    var written: seq<byte>
    /** Everything the read loop did, with the messages that DataReceived was raised for. */
    var received: seq<Item>

    ghost function Footprint(): set<object>
      reads this
    {
      if CryptoProvider == null then {} else {CryptoProvider, CryptoProvider.KeyValue, CryptoProvider.mKeyValueLast}
    }

    ghost predicate Valid()
      reads this, Footprint()
    {
      CryptoProvider != null ==> CryptoProvider.Valid()
    }

    ghost function Crypto(): Option<Cipher>
      requires Valid()
      reads this, Footprint()
    {
      if CryptoProvider == null then None else Some(CryptoProvider.State())
    }

    constructor (host: Host, remode: ModeHandler)
      ensures Valid() && this.host == host && this.remode == remode
      ensures CryptoProvider == null && EncryptionMode == 0 && !connected && written == [] && received == []
    {
      this.host, this.remode := host, remode;
      CryptoProvider, EncryptionMode, connected, written, received := null, 0, false, [], [];
    }

    /** Without a socket nothing happens; an exception while enclosing is caught and nothing is written. */
    method SendAsync(request: ICSPMsg, salt: array<byte>)
      requires Valid() && request.RawData != null && salt.Length == 4
      requires request.RawData !in Footprint() && salt !in Footprint()
      modifies this`written, Footprint()
      ensures Valid() && CryptoProvider == old(CryptoProvider)
      ensures var (sent, c) := SendBytes(old(Crypto()), old(request.RawData[..]), request.Source, request.Dest,
                                         EncryptionMode, old(salt[..]));
              if !connected then
                written == old(written) && Crypto() == old(Crypto())
              else
                && Crypto() == c
                && written == old(written) + if sent.Returned? then sent.value else []
    {
      hide Built, Transformed;
      if connected {
        if Encrypts(EncryptionMode) {
          if CryptoProvider != null {
            var r := Build(CryptoProvider, request.RawData, request.Source, request.Dest, 4, salt);
            if r.Returned? {
              written := written + r.value[..];
            }
          }
        } else {
          written := written + request.RawData[..];
        }
      }
    }

    /** The handlers of a message may install a new cipher. */
    method OnDataReceived(event: Event)
      requires Valid()
      modifies this`CryptoProvider
      ensures Valid() && fresh(Footprint() - old(Footprint()))
      ensures (event, Crypto()) == Raised(host, event, old(Crypto()))
    {
      hide Keyed;
      if event.Delivered? {
        var lKey := host.rekey(event.message);
        if lKey.Some? {
          var lHash := new byte[|lKey.value|](k requires 0 <= k < |lKey.value| => lKey.value[k]);
          assert lHash[..] == lKey.value;
          var lProvider := CreateRC4(lHash);
          CryptoProvider := lProvider.value;
        }
      }
    }

    /** The switch over the protocol byte. */
    method HandlePacket(packet: seq<byte>) returns (event: Event)
      requires Valid()
      modifies this`CryptoProvider, Footprint()
      ensures Valid() && fresh(Footprint() - old(Footprint()))
      ensures (event, Crypto()) == Handled(host, old(Crypto()), packet)
    {
      hide FromData, ParsedEnvelope, Decrypted, Raised;
      if packet == [] || packet[0] == Packets.PROTOCOL {
        event := FromFactory(host, packet);
      } else {
        if CryptoProvider == null {
          return Ignored;
        }
        var lEncryptedMsg := ParsedEnvelope(packet);
        if lEncryptedMsg.Thrown? {
          return Failed;
        }
        var lPacketBytes := GetDecryptedData(CryptoProvider, lEncryptedMsg.value);
        event := FromFactory(host, lPacketBytes[..]);
      }
      OnDataReceived(event);
    }

    /** Notes what happened to a packet, and what the handlers did to the mode. */
    method Note(packet: seq<byte>, event: Event)
      modifies this`received, this`EncryptionMode
      ensures received == old(received) + [Item(packet, event)]
      ensures EncryptionMode == ModeAfter(remode, old(EncryptionMode), received, |old(received)|)
    {
      received := received + [Item(packet, event)];
      assert ModeAfter(remode, EncryptionMode, received[..|received| - 1], |old(received)|) == EncryptionMode;
      if event.Delivered? {
        var lMode := remode(received);
        if lMode.Some? {
          EncryptionMode := lMode.value;
        }
      }
    }

    /** The inner loop: takes whole packets off the front of the list until more bytes are needed. */
    method Preprocess(bytes: seq<byte>) returns (rest: seq<byte>, stopped: bool)
      requires Valid()
      modifies this`received, this`EncryptionMode, this`CryptoProvider, Footprint()
      ensures Valid() && fresh(Footprint() - old(Footprint()))
      ensures Rx(Crypto(), rest, received, stopped)
              == Drain(host, Rx(old(Crypto()), bytes, old(received), false))
      ensures old(received) <= received
      ensures EncryptionMode == ModeAfter(remode, old(EncryptionMode), received, |old(received)|)
    {
      hide Handled, ModeAfter, Drain;
      ghost var start := Rx(Crypto(), bytes, received, false);
      ModeAfterNothing(EncryptionMode, received);
      var lBytes := bytes;
      stopped := false;
      while !stopped && |lBytes| >= Packets.PACKET_LENGTH_MIN
        invariant Valid() && fresh(Footprint() - old(Footprint()))
        invariant Drain(host, Rx(Crypto(), lBytes, received, stopped)) == Drain(host, start)
        invariant old(received) <= received
        invariant EncryptionMode == ModeAfter(remode, old(EncryptionMode), received, |old(received)|)
        decreases |lBytes|, !stopped
      {
        DrainStep(host, Rx(Crypto(), lBytes, received, false));
        var lProtocol := lBytes[0];
        if !KnownProtocol(lProtocol) {
          ghost var items := received;
          Note(lBytes, Discarded);
          ModeAfterTwice(old(EncryptionMode), items, received, |old(received)|);
          lBytes := [];
          break;
        }
        var lPacketSize := Size(lBytes);
        if |lBytes| < lPacketSize {
          break;
        }
        var lPacketBytes := lBytes[..lPacketSize];
        lBytes := lBytes[lPacketSize..];
        var event := HandlePacket(lPacketBytes);
        ghost var items := received;
        Note(lPacketBytes, event);
        ModeAfterTwice(old(EncryptionMode), items, received, |old(received)|);
        if event == Failed {
          stopped := true;
          lBytes := [];
        }
      }
      DrainStep(host, Rx(Crypto(), lBytes, received, stopped));
      rest := lBytes;
    }

    lemma ModeAfterNothing(mode: ushort, items: seq<Item>)
      ensures ModeAfter(remode, mode, items, |items|) == mode
    {
    }

    /** Non-empty reads, then the read of nothing that says the peer has closed. A failed packet ends the loop
        before, and then the connection state stays as the handlers left it. */
    method ReadAsync(chunks: seq<seq<byte>>)
      requires Valid() && connected
      requires forall k | 0 <= k < |chunks| :: chunks[k] != []
      modifies this`received, this`EncryptionMode, this`connected, this`CryptoProvider, Footprint()
      ensures Valid()
      ensures var r := ReceiveAll(host, Rx(old(Crypto()), [], old(received), false), chunks);
              && received == r.items && Crypto() == r.crypto
              && connected == r.stopped
              && EncryptionMode == if r.stopped then ModeAfter(remode, old(EncryptionMode), received, |old(received)|)
                                   else 0
    {
      hide Drain, ModeAfter;
      ghost var start := Rx(Crypto(), [], received, false);
      ModeAfterNothing(EncryptionMode, received);
      var lBytes := [];
      var k := 0;
      while k < |chunks|
        invariant 0 <= k <= |chunks|
        invariant Valid() && connected && fresh(Footprint() - old(Footprint()))
        invariant ReceiveAll(host, Rx(Crypto(), lBytes, received, false), chunks[k..])
                  == ReceiveAll(host, start, chunks)
        invariant old(received) <= received
        invariant EncryptionMode == ModeAfter(remode, old(EncryptionMode), received, |old(received)|)
      {
        ghost var items := received;
        lBytes := lBytes + chunks[k];
        var stopped;
        lBytes, stopped := Preprocess(lBytes);
        ModeAfterTwice(old(EncryptionMode), items, received, |old(received)|);
        if stopped {
          StoppedReceivesNothing(host, Rx(Crypto(), lBytes, received, true), chunks[k + 1..]);
          return;
        }
        k := k + 1;
      }
      OnClientDisconnected();
    }

    lemma {:induction false} ModeAfterTwice(mode: ushort, items: seq<Item>, more: seq<Item>, from: nat)
      requires from <= |items| && items <= more
      ensures ModeAfter(remode, ModeAfter(remode, mode, items, from), more, |items|)
              == ModeAfter(remode, mode, more, from)
      decreases |more|
    {
      if |items| < |more| {
        ModeAfterTwice(mode, items, more[..|more| - 1], from);
      } else {
        assert more == items;
      }
    }

    method OnClientDisconnected()
      modifies this`EncryptionMode, this`connected
      ensures EncryptionMode == 0 && !connected
    {
      EncryptionMode := 0;
      connected := false;
    }
  }
}
