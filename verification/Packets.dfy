/** The plain packet: serializing, parsing, and the factory's length check and dispatch. */
module Packets {
  import opened Bytes
  import opened AmxDevices

  const PROTOCOL: byte := 2
  const PACKET_LENGTH_MIN := 23

  /** The largest payload whose length field does not wrap. */
  const MAX_DATA := 0xFFFF - 19

  /** What a caller hands to Serialize. */
  datatype Fields = Fields(flag: int, dest: AmxDevice, source: AmxDevice, hop: byte, id: ushort, command: ushort,
                           data: seq<byte>)

  datatype Packet = Packet(dataLength: ushort, fields: Fields, checksum: byte)

  /** The 22 bytes before the payload. */
  function Head(f: Fields): (r: seq<byte>)
    ensures |r| == 22
  {
    var length, flag := ToUShort(19 + |f.data|), ToUShort(f.flag);
    [PROTOCOL] + Be16(length) + Be16(flag) + f.dest.GetBytesSDP() + f.source.GetBytesSDP()
    + [f.hop] + Be16(f.id) + Be16(f.command)
  }

  function Body(f: Fields): (r: seq<byte>)
    ensures |r| == 22 + |f.data|
  {
    Head(f) + f.data
  }

  function Wire(f: Fields): (r: seq<byte>)
    ensures |r| == PACKET_LENGTH_MIN + |f.data|
  {
    Body(f) + [Checksum(Body(f))]
  }

  /** Identifier 0 draws the next number of the wrapping counter. */
  function Identified(f: Fields, counter: ushort): Fields {
    if f.id > 0 then f else f.(id := ToUShort(counter + 1))
  }

  /** A payload over the limit wraps the length field and no longer fits the buffer, which throws. */
  function Serialized(f: Fields, counter: ushort): Outcome<seq<byte>> {
    if |f.data| <= MAX_DATA then Returned(Wire(Identified(f, counter))) else Thrown
  }

  function Parsed(b: seq<byte>): Outcome<Packet> {
    if |b| < PACKET_LENGTH_MIN || b[0] != PROTOCOL || GetBe16(b, 1) + 3 >= |b| then Thrown
    else
      var fields := Fields(GetBe16(b, 3), FromSDP(b[5..11]), FromSDP(b[11..17]), b[17],
                           GetBe16(b, 18), GetBe16(b, 20), b[22..|b| - 1]);
      Returned(Packet(GetBe16(b, 1), fields, b[GetBe16(b, 1) + 3]))
  }

  // ----- where every field stands -----

  lemma HeadSlices(f: Fields)
    ensures var h := Head(f);
            && h[0] == 2 && h[1..3] == Be16(ToUShort(19 + |f.data|)) && h[3..5] == Be16(ToUShort(f.flag))
            && h[5..11] == f.dest.GetBytesSDP() && h[11..17] == f.source.GetBytesSDP()
            && h[17] == f.hop && h[18..20] == Be16(f.id) && h[20..22] == Be16(f.command)
  {
    hide High, Low, AmxDevice.GetBytesSDP;
  }

  /** The packet on the wire: protocol 2, length, flag, destination and source as system, device and port, hop,
      identifier, command, payload, and the sum of all bytes before the last, each number with its high byte first. */
  lemma WireLayout(f: Fields)
    requires |f.data| <= MAX_DATA
    ensures var w := Wire(f);
            && w[0] == 2 && Digits(w[1..3]) == |w| - 4 && Digits(w[3..5]) == f.flag % 0x1_0000
            && Digits(w[5..7]) == f.dest.system && Digits(w[7..9]) == f.dest.device && Digits(w[9..11]) == f.dest.port
            && Digits(w[11..13]) == f.source.system && Digits(w[13..15]) == f.source.device
            && Digits(w[15..17]) == f.source.port
            && w[17] == f.hop && Digits(w[18..20]) == f.id && Digits(w[20..22]) == f.command
            && w[22..|w| - 1] == f.data && w[|w| - 1] == Sum(w[..|w| - 1]) % 0x100
  {
    hide Head, Be16, Digits, Sum, AmxDevice.GetBytesSDP;
    var w, h := Wire(f), Head(f);
    HeadSlices(f);
    var body := Body(f);
    assert w == body + [Checksum(body)] && w[..|w| - 1] == body;
    assert w[..22] == h;
    assert w[1..3] == h[1..3] && w[3..5] == h[3..5] && w[18..20] == h[18..20] && w[20..22] == h[20..22];
    Be16Digits(ToUShort(19 + |f.data|));
    Be16Digits(ToUShort(f.flag));
    Be16Digits(f.id);
    Be16Digits(f.command);
    SlicesOfDevice(w, 5, f.dest);
    SlicesOfDevice(w, 11, f.source);
  }

  lemma SlicesOfDevice(w: seq<byte>, at: nat, d: AmxDevice)
    requires at + 6 <= |w| && w[at..at + 6] == d.GetBytesSDP()
    ensures Digits(w[at..at + 2]) == d.system && Digits(w[at + 2..at + 4]) == d.device
    ensures Digits(w[at + 4..at + 6]) == d.port
  {
    hide Digits, AmxDevice.GetBytesSDP;
    Layout(d);
    SliceOfSlice(w, at, at + 6, 0, 2);
    SliceOfSlice(w, at, at + 6, 2, 4);
    SliceOfSlice(w, at, at + 6, 4, 6);
  }

  /** And where the parser looks, in any bytes that it accepts: those of at least 23, with protocol 2, whose length
      field does not point behind them. */
  lemma ParsedLayout(b: seq<byte>)
    ensures Parsed(b).Returned? <==> |b| >= 23 && b[0] == 2 && Digits(b[1..3]) + 3 < |b|
    ensures Parsed(b).Returned? ==>
              var p, f := Parsed(b).value, Parsed(b).value.fields;
              && p.dataLength == Digits(b[1..3]) && f.flag == Digits(b[3..5])
              && f.dest.system == Digits(b[5..7]) && f.dest.device == Digits(b[7..9])
              && f.dest.port == Digits(b[9..11])
              && f.source.system == Digits(b[11..13]) && f.source.device == Digits(b[13..15])
              && f.source.port == Digits(b[15..17])
              && f.hop == b[17] && f.id == Digits(b[18..20]) && f.command == Digits(b[20..22])
              && f.data == b[22..|b| - 1] && p.checksum == b[Digits(b[1..3]) + 3]
  {
    hide Digits, GetBe16, FromSDP;
    if |b| >= 23 {
      GetBe16Digits(b, 1);
      GetBe16Digits(b, 3);
      GetBe16Digits(b, 18);
      GetBe16Digits(b, 20);
      DeviceSlices(b, 5);
      DeviceSlices(b, 11);
    }
  }

  lemma DeviceSlices(b: seq<byte>, at: nat)
    requires at + 6 <= |b|
    ensures var d := FromSDP(b[at..at + 6]);
            && d.system == Digits(b[at..at + 2]) && d.device == Digits(b[at + 2..at + 4])
            && d.port == Digits(b[at + 4..at + 6])
  {
    hide Digits, FromSDP;
    var c := b[at..at + 6];
    AmxDevices.ParsedLayout(c);
    SliceOfSlice(b, at, at + 6, 0, 2);
    SliceOfSlice(b, at, at + 6, 2, 4);
    SliceOfSlice(b, at, at + 6, 4, 6);
  }

  // ----- both round trips -----

  /** Parsing the fields behind any last byte gives every field back, with the flag cut to 16 bits, and takes that
      byte for the checksum. */
  lemma ParseBody(f: Fields, checksum: byte)
    requires |f.data| <= MAX_DATA
    ensures Parsed(Body(f) + [checksum]) == Returned(Packet(19 + |f.data|, f.(flag := ToUShort(f.flag)), checksum))
  {
    hide High, Low, Word, FromSDP;
    WordHalves();
    var b := Body(f) + [checksum];
    assert b[5..11] == f.dest.GetBytesSDP();
    assert b[11..17] == f.source.GetBytesSDP();
    assert b[22..|b| - 1] == f.data;
    DeviceRoundTrip(f.dest);
    DeviceRoundTrip(f.source);
  }

  /** So what was serialized is parsed with its checksum. */
  lemma ParseWire(f: Fields)
    requires |f.data| <= MAX_DATA
    ensures Parsed(Wire(f)) ==
            Returned(Packet(19 + |f.data|, f.(flag := ToUShort(f.flag)), Checksum(Body(f))))
  {
    hide Checksum, Parsed, Body;
    ParseBody(f, Checksum(Body(f)));
  }

  /** The length field covers the packet and the last byte is the sum of the bytes before it. */
  predicate Consistent(b: seq<byte>) {
    && |b| >= PACKET_LENGTH_MIN && b[0] == PROTOCOL
    && GetBe16(b, 1) + 4 == |b|
    && b[|b| - 1] == Checksum(b[..|b| - 1])
  }

  lemma WordBack(b: seq<byte>, i: nat)
    requires i + 2 <= |b|
    ensures Be16(GetBe16(b, i)) == b[i..i + 2]
  {
    hide High, Low, Word;
    WordHalves();
  }

  lemma HeadOfParsed(b: seq<byte>)
    requires Parsed(b).Returned? && GetBe16(b, 1) + 4 == |b|
    ensures Head(Parsed(b).value.fields) == b[..22]
  {
    hide Be16, GetBe16, FromSDP, AmxDevice.GetBytesSDP, Checksum;
    WordBack(b, 1);
    WordBack(b, 3);
    WordBack(b, 18);
    WordBack(b, 20);
    BytesRoundTrip(b[5..11]);
    BytesRoundTrip(b[11..17]);
    assert b[..3] == [b[0]] + b[1..3];
    assert b[..5] == b[..3] + b[3..5];
    assert b[..11] == b[..5] + b[5..11];
    assert b[..17] == b[..11] + b[11..17];
    assert b[..18] == b[..17] + [b[17]];
    assert b[..20] == b[..18] + b[18..20];
    assert b[..22] == b[..20] + b[20..22];
  }

  lemma LengthOfWire(f: Fields)
    requires |f.data| <= MAX_DATA
    ensures GetBe16(Wire(f), 1) + 4 == |Wire(f)|
  {
    hide High, Low, Word, Checksum;
    WordHalves();
    assert Wire(f)[1..3] == Be16(ToUShort(19 + |f.data|));
  }

  /** Serializing a parsed packet again gives the same bytes exactly when they were consistent. */
  lemma WireParsed(b: seq<byte>)
    requires Parsed(b).Returned?
    ensures |Parsed(b).value.fields.data| <= MAX_DATA && Wire(Parsed(b).value.fields) == b <==> Consistent(b)
  {
    hide Checksum, High, Low, Word, FromSDP, Head;
    var f := Parsed(b).value.fields;
    var n := |b| - 1;
    if GetBe16(b, 1) + 4 == |b| {
      HeadOfParsed(b);
      assert Body(f) == b[..n];
      assert Wire(f)[n] == Checksum(b[..n]);
      assert b == b[..n] + [b[n]];
    } else if |f.data| <= MAX_DATA {
      LengthOfWire(f);
    }
  }

  /** The same with the identifier rule: a zero identifier survives only when the counter wraps to it. */
  lemma SerializeParsed(b: seq<byte>, counter: ushort)
    requires Parsed(b).Returned?
    ensures Serialized(Parsed(b).value.fields, counter) == Returned(b)
            <==> Consistent(b) && (Parsed(b).value.fields.id > 0 || counter == 0xFFFF)
  {
    hide Checksum, High, Low, Word, FromSDP, Wire;
    var f := Parsed(b).value.fields;
    WireParsed(b);
    var g := Identified(f, counter);
    if |f.data| <= MAX_DATA && g.id != f.id && Wire(g) == b {
      ParseWire(g);
      assert false;
    }
  }

  // ----- the factory -----

  /** The registered message classes: for a command, the payloads that the constructor of its class can read. */
  type Types = map<ushort, seq<byte> -> bool>

  /** A message of the class that is registered for the command, or MsgCmdUnknown. */
  datatype Message = Known(packet: Packet) | Unknown(packet: Packet)

  /** The constructor of the registered class parses the packet and then reads its payload, which may throw. */
  function FromData(types: Types, b: seq<byte>): Outcome<Message> {
    if |b| < PACKET_LENGTH_MIN then Thrown
    else
      match Parsed(b)
      case Thrown => Thrown
      case Returned(p) =>
        var command := GetBe16(b, 20);
        if command !in types then Returned(Unknown(p))
        else if types[command](p.fields.data) then Returned(Known(p))
        else Thrown
  }

  /** Unregistered commands accept every payload. */
  predicate Accepts(types: Types, f: Fields) { f.command in types ==> types[f.command](f.data) }

  function Dispatched(types: Types, p: Packet): Message {
    if p.fields.command in types then Known(p) else Unknown(p)
  }

  /** The factory accepts exactly what parses with a payload that its class accepts, and dispatches on the parsed
      command. */
  lemma FromDataDispatches(types: Types, b: seq<byte>)
    ensures FromData(types, b) ==
            if Parsed(b).Returned? && Accepts(types, Parsed(b).value.fields) then
              Returned(Dispatched(types, Parsed(b).value))
            else Thrown
    ensures Parsed(b).Returned? ==>
              var p := Parsed(b).value;
              && (p.fields.command !in types ==> FromData(types, b) == Returned(Unknown(p)))
              && (p.fields.command in types && types[p.fields.command](p.fields.data) ==>
                    FromData(types, b) == Returned(Known(p)))
  {
  }

  // ----- Serialize on the message object -----

  /** The static MsgId. */
  class MsgIdCounter {
    var value: ushort
  }

  /** The checksum loop, which both packet formats run over the raw bytes with a zero last byte. */
  method ByteSum(raw: array<byte>) returns (cs: byte)
    requires raw.Length > 0 && raw[raw.Length - 1] == 0
    ensures cs == Checksum(raw[..raw.Length - 1])
  {
    cs := 0;
    for k := 0 to raw.Length
      invariant cs == Checksum(raw[..k])
    {
      assert raw[..k + 1][..k] == raw[..k];
      var sum: int := cs + raw[k] as int;
      cs := ToByte(sum);
    }
    assert raw[..raw.Length][..raw.Length - 1] == raw[..raw.Length - 1];
  }

  /** Writes s behind the part of the buffer that is already filled. */
  method Put(raw: array<byte>, at: nat, s: seq<byte>)
    requires at + |s| <= raw.Length
    modifies raw
    ensures raw[..at + |s|] == old(raw[..at]) + s
    ensures forall k | at + |s| <= k < raw.Length :: raw[k] == old(raw[k])
  {
    forall k | 0 <= k < |s| {
      raw[at + k] := s[k];
    }
  }

  /** The assignments to the first 22 bytes. */
  method PutHead(raw: array<byte>, length: ushort, flag: ushort, dest: AmxDevice, source: AmxDevice, hop: byte,
                 id: ushort, command: ushort)
    requires raw.Length >= 22
    modifies raw
    ensures raw[..22] == [PROTOCOL] + Be16(length) + Be16(flag) + dest.GetBytesSDP() + source.GetBytesSDP()
                         + [hop] + Be16(id) + Be16(command)
    ensures forall k | 22 <= k < raw.Length :: raw[k] == old(raw[k])
  {
    hide Be16, AmxDevice.GetBytesSDP;
    Put(raw, 0, [PROTOCOL]);
    Put(raw, 1, Be16(length));
    Put(raw, 3, Be16(flag));
    Put(raw, 5, dest.GetBytesSDP());
    Put(raw, 11, source.GetBytesSDP());
    Put(raw, 17, [hop]);
    Put(raw, 18, Be16(id));
    Put(raw, 20, Be16(command));
  }

  class ICSPMsg {
    var DataLength: ushort
    var Flag: int
    var Dest: AmxDevice
    var Source: AmxDevice
    var Hop: byte
    var ID: ushort
    var Command: ushort
    var Data: array?<byte>
    var Checksum: byte
    var RawData: array?<byte>

    constructor ()
      ensures Flag == 0x200 && Hop == 0xFF && Data == null && RawData == null
    {
      DataLength, Flag, Hop, ID, Command, Checksum := 0, 0x200, 0xFF, 0, 0, 0;
      Dest, Source, Data, RawData := EMPTY, EMPTY, null, null;
    }

    ghost function Contents(): Fields
      reads this, Data
    {
      Fields(Flag, Dest, Source, Hop, ID, Command, if Data == null then [] else Data[..])
    }

    /** Fills a zeroed buffer of the right size and sets the checksum. */
    method Fill(raw: array<byte>)
      requires raw.Length == DataLength + 4 == PACKET_LENGTH_MIN + |Contents().data| && raw[raw.Length - 1] == 0
      requires raw != Data
      modifies raw, this`Checksum
      ensures raw[..] == Wire(Contents()) && Checksum == raw[raw.Length - 1]
    {
      hide Bytes.Checksum, Be16;
      ghost var f := Contents();
      PutHead(raw, DataLength, ToUShort(Flag), Dest, Source, Hop, ID, Command);
      assert raw[..22] == Head(f);
      if Data != null {
        Put(raw, 22, Data[..]);
      }
      assert raw[..raw.Length - 1] == Body(f);
      Checksum := ByteSum(raw);
      assert Contents() == f;
      raw[raw.Length - 1] := Checksum;
      assert raw[..] == raw[..raw.Length - 1] + [Checksum];
    }

    method Serialize(ids: MsgIdCounter, flag: int, dest: AmxDevice, source: AmxDevice, hop: byte, id: ushort,
                     command: ushort, data: array?<byte>) returns (ok: bool)
      modifies this, ids
      ensures ids.value == if id > 0 then old(ids.value) else ToUShort(old(ids.value) + 1)
      ensures var f := Fields(flag, dest, source, hop, id, command, if data == null then [] else data[..]);
              && Data == data && Contents() == Identified(f, old(ids.value))
              && match Serialized(f, old(ids.value))
                 case Thrown => !ok
                 case Returned(b) =>
                   && ok && RawData != null && fresh(RawData) && RawData[..] == b
                   && DataLength == |b| - 4 && Checksum == b[|b| - 1]
    {
      hide Wire;
      SetFields(ids, flag, dest, source, hop, id, command, data);
      var n := if data == null then 0 else data.Length;
      var raw := new byte[DataLength + 4](_ => 0);
      RawData := raw;
      if raw.Length < 22 + n {
        return false;
      }
      Fill(raw);
      return true;
    }

    /** The assignments before the buffer is allocated, with the draw of an identifier. */
    method SetFields(ids: MsgIdCounter, flag: int, dest: AmxDevice, source: AmxDevice, hop: byte, id: ushort,
                     command: ushort, data: array?<byte>)
      modifies this, ids
      ensures ids.value == if id > 0 then old(ids.value) else ToUShort(old(ids.value) + 1)
      ensures var f := Fields(flag, dest, source, hop, id, command, if data == null then [] else data[..]);
              && Data == data && Contents() == Identified(f, old(ids.value))
              && DataLength == ToUShort(19 + |f.data|)
    {
      var n := if data == null then 0 else data.Length;
      DataLength := ToUShort(PACKET_LENGTH_MIN + n - 4);
      Flag, Dest, Source, Hop := flag, dest, source, hop;
      if id > 0 {
        ID := id;
      } else {
        ids.value := ToUShort(ids.value + 1);
        ID := ids.value;
      }
      Command, Data := command, data;
    }
  }
}
