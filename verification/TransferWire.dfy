/** File transfer messages inside packets: every answer fits a packet, plain or encrypted, and arrives. */
module TransferWire {
  import opened Bytes
  import opened AmxDevices
  import opened Packets
  import opened Reassembly
  import opened EndToEnd
  import Envelopes
  import FT = FileTransfers

  const FILE_TRANSFER: ushort := 0x0204

  /** CreateRequest: default flag and hop, with the identifier that Serialize draws. */
  function Request(t: FT.Transfer, dest: AmxDevice, source: AmxDevice, id: ushort): Fields {
    Fields(0x200, dest, source, 0xFF, id, FILE_TRANSFER, FT.Encoded(t))
  }

  /** A message with its packet fields, and the mode and salt it happens to be sent with. */
  datatype Posted = Posted(transfer: FT.Transfer, dest: AmxDevice, source: AmxDevice, id: ushort, mode: ushort,
                           salt: Envelopes.Salt)
  {
    function Sent(): Sending { Sending(Request(transfer, dest, source, id), mode, salt) }
  }

  predicate Small(t: FT.Transfer) { |t.data| <= 2 + FT.JUNK_SIZE_MAX }

  /** Whatever comes in, the answer is small. */
  lemma AnswersAreSmall(env: FT.Env, fm: FT.Fm, t: FT.Transfer)
    ensures var reply := FT.Respond(env, fm, t).1;
            reply.Answer? ==> Small(reply.message) && |reply.message.data| <= 2002
  {
    hide FT.Stored, FT.WithVersion, GetNullStr, Be32, GetBe32;
  }

  ghost predicate AllSmall(ts: seq<FT.Transfer>) {
    forall k | 0 <= k < |ts| :: Small(ts[k])
  }

  lemma {:induction false} ExchangeIsSmall(env: FT.Env, l: FT.Link, n: nat)
    requires AllSmall(l.log)
    ensures AllSmall(FT.PassMany(env, l, n).log)
    decreases n
  {
    hide FT.Respond, Small;
    if n > 0 {
      if l.toServer.Some? {
        AnswersAreSmall(env, l.server, l.toServer.value);
      } else if l.toClient.Some? {
        AnswersAreSmall(env, l.client, l.toClient.value);
      }
      ExchangeIsSmall(env, FT.Pass(env, l), n - 1);
    }
  }

  predicate AllPostable(posts: seq<Posted>) {
    forall k | 0 <= k < |posts| :: Small(posts[k].transfer)
  }

  function Sendings(posts: seq<Posted>): (sends: seq<Sending>)
    ensures |sends| == |posts| && forall k | 0 <= k < |sends| :: sends[k] == posts[k].Sent()
  {
    seq(|posts|, k requires 0 <= k < |posts| => posts[k].Sent())
  }

  lemma PostableIsSendable(key: Option<Key>, p: Posted)
    requires Small(p.transfer) && key.Some?
    ensures Sendable(key, p.Sent())
  {
  }

  /** Once there is a key there always is one, so small messages can be sent in any mode. */
  lemma {:induction false} PostablesAreSendable(host: Host, key: Option<Key>, posts: seq<Posted>)
    requires AllPostable(posts) && key.Some?
    ensures AllSendable(host, key, Sendings(posts))
    decreases |posts|
  {
    hide Sendable, Readable, Arrives;
    if posts != [] {
      PostableIsSendable(key, posts[0]);
      assert Sendings(posts)[1..] == Sendings(posts[1..]);
      PostablesAreSendable(host, KeyAfter(host, key, posts[0].Sent().fields), posts[1..]);
    }
  }

  /** The factory with the file transfer class, whose constructor decodes the payload. */
  function WithTransfers(others: Types): Types { others[FILE_TRANSFER := d => FT.Decoded(d).Returned?] }

  /** A transfer as it is encoded is accepted by its class. */
  lemma TransferAccepted(others: Types, p: Posted)
    ensures Accepts(WithTransfers(others), p.Sent().fields)
  {
    hide FT.Decoded, FT.Encoded;
    FT.TransferRoundTrip(p.transfer);
  }

  /** Any other payload is accepted unless it is one to three bytes long. */
  lemma TransferAcceptedIff(others: Types, f: Fields)
    requires f.command == FILE_TRANSFER
    ensures Accepts(WithTransfers(others), f) <==> f.data == [] || |f.data| >= 4
  {
  }

  /** Small file transfer messages, so those of any exchange, sent in any modes under the shared key and received
      in any pieces, are accepted and decoded on the other side as they were. */
  lemma TransfersArrive(others: Types, rekey: Message -> Option<Key>, key: Key, posts: seq<Posted>,
                        chunks: seq<seq<byte>>)
    requires AllPostable(posts)
    ensures var host, crypto := Host(WithTransfers(others), rekey), CipherOf(Some(key));
            Flatten(chunks) == Flatten(SendAll(host, crypto, Sendings(posts))) ==>
            var r := ReceiveAll(host, Rx(crypto, [], [], false), chunks);
            var messages := DeliveredMessages(r.items);
            && !r.stopped && |messages| == |posts|
            && forall k | 0 <= k < |posts| ::
                 && messages[k].Known? && messages[k].packet.fields == posts[k].Sent().fields
                 && FT.Decoded(messages[k].packet.fields.data) == Returned(posts[k].transfer)
  {
    hide CipherOf, SendAll, ReceiveAll, DeliveredMessages, FT.Decoded, FT.Encoded, Checksum, Accepts, AllSendable;
    var host := Host(WithTransfers(others), rekey);
    PostablesAreSendable(host, Some(key), posts);
    EndToEndDelivery(host, Some(key), Sendings(posts), chunks);
    forall k | 0 <= k < |posts|
      ensures Readable(host, posts[k].Sent().fields)
      ensures FT.Decoded(FT.Encoded(posts[k].transfer)) == Returned(posts[k].transfer)
    {
      TransferAccepted(others, posts[k]);
      FT.TransferRoundTrip(posts[k].transfer);
    }
  }
}
