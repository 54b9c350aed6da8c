/** Packets that the comments of the repository show, byte for byte. */
module DocumentedPackets {
  import opened Bytes
  import opened AmxDevices
  import opened Packets
  import opened TransferWire
  import D = Directories
  import Envelopes
  import FT = FileTransfers

  // ----- sums of a few bytes -----

  function At(b: seq<byte>, k: nat): int { if k < |b| then b[k] else 0 }

  lemma {:induction false} SumOfFew(b: seq<byte>)
    requires |b| <= 6
    ensures Sum(b) == At(b, 0) + At(b, 1) + At(b, 2) + At(b, 3) + At(b, 4) + At(b, 5)
    decreases |b|
  {
    if b != [] {
      SumOfFew(b[..|b| - 1]);
    }
  }

  lemma SumOfSix(b: seq<byte>, i: nat)
    requires i + 6 <= |b|
    ensures Sum(b[i..i + 6]) == b[i] as int + b[i + 1] as int + b[i + 2] as int + b[i + 3] as int + b[i + 4] as int
                                + b[i + 5] as int
  {
    hide Sum;
    SumOfFew(b[i..i + 6]);
  }

  lemma SumOfFour(b: seq<byte>, i: nat)
    requires i + 4 <= |b|
    ensures Sum(b[i..i + 4]) == b[i] as int + b[i + 1] as int + b[i + 2] as int + b[i + 3] as int
  {
    hide Sum;
    SumOfFew(b[i..i + 4]);
  }

  lemma SumExtended(b: seq<byte>, i: nat, j: nat)
    requires i <= j <= |b|
    ensures Sum(b[..j]) == Sum(b[..i]) + Sum(b[i..j])
  {
    hide Sum;
    SumConcat(b[..i], b[i..j]);
    assert b[..j] == b[..i] + b[i..j];
  }

  lemma SumOf12(b: seq<byte>)
    requires |b| >= 12
    ensures Sum(b[..12]) == b[0] as int + b[1] as int + b[2] as int + b[3] as int + b[4] as int + b[5] as int
                            + b[6] as int + b[7] as int + b[8] as int + b[9] as int + b[10] as int + b[11] as int
  {
    hide Sum;
    SumOfSix(b, 0);
    SumOfSix(b, 6);
    SumExtended(b, 6, 12);
    assert b[..6] == b[0..6];
  }

  lemma SumOfTen(b: seq<byte>)
    requires |b| == 22
    ensures Sum(b) == Sum(b[..12]) + b[12] as int + b[13] as int + b[14] as int + b[15] as int + b[16] as int
                      + b[17] as int + b[18] as int + b[19] as int + b[20] as int + b[21] as int
  {
    hide Sum;
    SumOfSix(b, 12);
    SumOfFour(b, 18);
    SumExtended(b, 12, 18);
    SumExtended(b, 18, 22);
    assert b[..22] == b;
  }

  lemma SumOf22(b: seq<byte>)
    requires |b| == 22
    ensures Sum(b) == b[0] as int + b[1] as int + b[2] as int + b[3] as int + b[4] as int + b[5] as int + b[6] as int
                      + b[7] as int + b[8] as int + b[9] as int + b[10] as int + b[11] as int + b[12] as int
                      + b[13] as int + b[14] as int + b[15] as int + b[16] as int + b[17] as int + b[18] as int
                      + b[19] as int + b[20] as int + b[21] as int
  {
    hide Sum;
    SumOf12(b);
    SumOfTen(b);
  }

  lemma PacketOf(f: Fields, head: seq<byte>, sum: nat)
    requires Head(f) == head && sum == Sum(head) + Sum(f.data)
    ensures Wire(f) == head + f.data + [sum % 0x100]
  {
    hide Sum, Head;
    SumConcat(head, f.data);
  }

  // ----- packets -----

  const ACK := Fields(0x208, AmxDevice(0, 0, 0), AmxDevice(0, 1, 1), 0xFF, 0x48, 0x0001, [])

  lemma AckHead()
    ensures Head(ACK)
            == [0x02, 0x00, 0x13, 0x02, 0x08, 0x00, 0x00, 0x00, 0x00, 0x00, 0x00,
                0x00, 0x01, 0x00, 0x00, 0x00, 0x01, 0xFF, 0x00, 0x48, 0x00, 0x01]
  {
  }

  lemma AckSum()
    ensures Sum(Head(ACK)) + Sum(ACK.data) == 0x169
  {
    hide Sum, Head;
    AckHead();
    SumOf22(Head(ACK));
    SumOfFew(ACK.data);
  }

  /** An acknowledgement. */
  lemma AckPacket()
    ensures Wire(ACK)
            == [0x02, 0x00, 0x13, 0x02, 0x08, 0x00, 0x00, 0x00, 0x00, 0x00, 0x00,
                0x00, 0x01, 0x00, 0x00, 0x00, 0x01, 0xFF, 0x00, 0x48, 0x00, 0x01]
               + [] + [0x69]
  {
    hide Sum, Head;
    AckHead();
    AckSum();
    PacketOf(ACK, Head(ACK), 0x169);
  }

  // ----- a conversation -----

  const PANEL := AmxDevice(0x7D03, 0, 6)
  const MASTER := AmxDevice(0x2713, 0, 6)

  const OFFER := Fields(0x200, MASTER, PANEL, 0x0F, 0xFF98, 0x0204, [0x00, 0x04, 0x01, 0x00])

  lemma SingleFileHead()
    ensures Head(OFFER)
            == [0x02, 0x00, 0x17, 0x02, 0x00, 0x00, 0x06, 0x27, 0x13, 0x00, 0x00,
                0x00, 0x06, 0x7D, 0x03, 0x00, 0x00, 0x0F, 0xFF, 0x98, 0x02, 0x04]
  {
  }

  lemma SingleFileSum()
    ensures Sum(Head(OFFER)) + Sum(OFFER.data) == 0x292
  {
    hide Sum, Head;
    SingleFileHead();
    SumOf22(Head(OFFER));
    SumOfFew(OFFER.data);
  }

  /** A transfer is offered. */
  lemma SingleFilePacket()
    ensures Wire(OFFER)
            == [0x02, 0x00, 0x17, 0x02, 0x00, 0x00, 0x06, 0x27, 0x13, 0x00, 0x00,
                0x00, 0x06, 0x7D, 0x03, 0x00, 0x00, 0x0F, 0xFF, 0x98, 0x02, 0x04]
               + [0x00, 0x04, 0x01, 0x00] + [0x92]
  {
    hide Sum, Head;
    SingleFileHead();
    SingleFileSum();
    PacketOf(OFFER, Head(OFFER), 0x292);
  }

  /** The answer, as the source creates it. */
  function Taken(): Fields {
    Request(FT.Transfer(4, 0x101, [0x7F, 0xFF, 0xFF, 0xFF, 0x00, 0x00, 0x00, 0x00]), PANEL, MASTER, 0x1A)
  }

  lemma TakenData()
    ensures Taken().data == [0x00, 0x04, 0x01, 0x01, 0x7F, 0xFF, 0xFF, 0xFF, 0x00, 0x00, 0x00, 0x00]
  {
  }

  lemma SingleFileAckHead()
    ensures Head(Taken())
            == [0x02, 0x00, 0x1F, 0x02, 0x00, 0x00, 0x06, 0x7D, 0x03, 0x00, 0x00,
                0x00, 0x06, 0x27, 0x13, 0x00, 0x00, 0xFF, 0x00, 0x1A, 0x02, 0x04]
  {
  }

  lemma SingleFileAckSum()
    ensures var f := Taken();
            Sum(Head(f)) + Sum(f.data) == 0x58A
  {
    hide Sum, Head;
    var f := Taken();
    SingleFileAckHead();
    SumOf22(Head(f));
    TakenData();
    var front, back: seq<byte> := [0x00, 0x04, 0x01, 0x01, 0x7F, 0xFF], [0xFF, 0xFF, 0x00, 0x00, 0x00, 0x00];
    assert f.data == front + back;
    SumOfFew(front);
    SumOfFew(back);
    SumConcat(front, back);
  }

  /** And taken. */
  lemma SingleFileAckPacket()
    ensures Wire(Taken())
            == [0x02, 0x00, 0x1F, 0x02, 0x00, 0x00, 0x06, 0x7D, 0x03, 0x00, 0x00,
                0x00, 0x06, 0x27, 0x13, 0x00, 0x00, 0xFF, 0x00, 0x1A, 0x02, 0x04]
               + [0x00, 0x04, 0x01, 0x01, 0x7F, 0xFF, 0xFF, 0xFF, 0x00, 0x00, 0x00, 0x00] + [0x8A]
  {
    hide Sum, Head;
    var f := Taken();
    SingleFileAckHead();
    SingleFileAckSum();
    PacketOf(f, Head(f), 0x58A);
    TakenData();
  }

  /** The bytes that a file manager answers to a packet, with the identifier drawn for them. */
  function Answered(env: FT.Env, fm: FT.Fm, packet: seq<byte>, id: ushort): seq<byte> {
    match Parsed(packet)
    case Thrown => []
    case Returned(p) =>
      match FT.Decoded(p.fields.data)
      case Thrown => []
      case Returned(t) =>
        var reply := FT.Respond(env, fm, t).1;
        if reply.Answer? then Wire(Request(reply.message, p.fields.source, p.fields.dest, id)) else []
  }

  /** Bytes in, bytes out: a transfer that is offered is answered as shown, whatever the state of the manager. */
  lemma SingleFileAnswered(env: FT.Env, fm: FT.Fm)
    ensures Answered(env, fm, [0x02, 0x00, 0x17, 0x02, 0x00, 0x00, 0x06, 0x27, 0x13, 0x00, 0x00,
                0x00, 0x06, 0x7D, 0x03, 0x00, 0x00, 0x0F, 0xFF, 0x98, 0x02, 0x04]
                              + [0x00, 0x04, 0x01, 0x00] + [0x92], 0x1A)
            == [0x02, 0x00, 0x1F, 0x02, 0x00, 0x00, 0x06, 0x7D, 0x03, 0x00, 0x00,
                0x00, 0x06, 0x27, 0x13, 0x00, 0x00, 0xFF, 0x00, 0x1A, 0x02, 0x04]
               + [0x00, 0x04, 0x01, 0x01, 0x7F, 0xFF, 0xFF, 0xFF, 0x00, 0x00, 0x00, 0x00] + [0x8A]
  {
    hide Wire, Parsed, Checksum, FT.Decoded, FT.Respond, Request, PANEL, MASTER;
    SingleFilePacket();
    SingleFileAckPacket();
    ParseWire(OFFER);
    SingleFileDecoded();
    FT.PlainAnswers(env, fm, []);
  }

  lemma SingleFileDecoded()
    ensures FT.Decoded([0x00, 0x04, 0x01, 0x00]) == Returned(FT.Transfer(4, 0x100, []))
  {
  }

  // ----- listings and envelopes -----

  /** The fixed bytes of a listing's header. */
  lemma ListingHeader(path: FT.Name)
    ensures D.Header(path) == [0x00, 0x00, 0x00, 0x00, 0x00, 0x00, 0x10, 0x00, 0x00, 0x33, 0x8D, 0x83, 0x00, 0x30, 0x7B,
                               0x66] + path + [0x00]
  {
  }

  /** A directory as entry 1 of 3. */
  lemma DirectoryEntry(name: FT.Name)
    ensures D.Entry(D.Item(D.DIRECTORY, name, 0x2000, [0x05, 0x03, 0x07, 0xE4, 0x12, 0x09, 0x16]), 3, 1)
            == [0x00, 0x00] + [0x00, 0x01] + [0x00, 0x03] + [0x00, 0x01] + [0x00, 0x00, 0x20, 0x00]
               + [0x05, 0x03, 0x07, 0xE4, 0x12, 0x09, 0x16] + name + [0x00]
  {
  }

  /** What an empty directory lists. */
  lemma EmptyDirectoryEntry()
    ensures D.Entries([]) == [[0x00, 0x00] + [0x00, 0x00] + [0x00, 0x00] + [0x00, 0x00] + [0x00, 0x00, 0x00, 0x00]
                              + [0x00, 0x00, 0x00, 0x00, 0x00, 0x00, 0x00] + [0x3F] + [0x00]]
  {
    hide D.Entry;
    EmptyEntry();
    assert D.Listed([]) == [D.PLACEHOLDER];
  }

  lemma EmptyEntry()
    ensures D.Entry(D.PLACEHOLDER, 0, 0) == [0x00, 0x00] + [0x00, 0x00] + [0x00, 0x00] + [0x00, 0x00]
                                            + [0x00, 0x00, 0x00, 0x00] + [0x00, 0x00, 0x00, 0x00, 0x00, 0x00, 0x00]
                                            + [0x3F] + [0x00]
  {
    assert FT.Ascii("?") == [0x3F];
  }

  /** The fields of an envelope with 31 encrypted bytes. */
  lemma EnvelopeParsed(encrypted: seq<byte>)
    requires |encrypted| == 31
    ensures var b := [0x04] + [0x00, 0x2D] + [0x00, 0x01] + [0x00, 0x00] + [0x02] + [0x08] + [0x4C, 0x99, 0x59, 0xB6]
                     + [0x00, 0x01] + [0x7D, 0x01] + encrypted + [0x47];
            && Envelopes.ParsedEnvelope(b).Returned?
            && var e := Envelopes.ParsedEnvelope(b).value;
            && e.source == AmxDevice(0, 1, 1) && e.encryptionType == 2 && e.Salt() == Some([0x4C, 0x99, 0x59, 0xB6])
            && e.Dest() == AmxDevice(32001, 1, 1) && e.encrypted == encrypted && e.checksum == 0x47
  {
    var b := [0x04] + [0x00, 0x2D] + [0x00, 0x01] + [0x00, 0x00] + [0x02] + [0x08] + [0x4C, 0x99, 0x59, 0xB6]
             + [0x00, 0x01] + [0x7D, 0x01] + encrypted + [0x47];
    assert GetBe16(b, 1) == 45;
    assert b[17..48] == encrypted;
    assert b[9..13] == [0x4C, 0x99, 0x59, 0xB6] && b[13..17] == [0x00, 0x01, 0x7D, 0x01];
    SliceOfSlice(b, 9, 17, 0, 4);
    SliceOfSlice(b, 9, 17, 4, 8);
  }
}
