/** The encrypted envelope around a plain packet. */
module Envelopes {
  import opened Bytes
  import opened AmxDevices
  import opened Rc4Stream
  import opened Rc4Cipher
  import opened Packets

  const PROTOCOL: byte := 4
  const PACKET_LENGTH_MIN := 14

  /** The random bytes that each envelope carries. */
  type Salt = s: seq<byte> | |s| == 4 witness [0, 0, 0, 0]

  /** What the parsing constructor reads. */
  datatype Envelope = Envelope(dataLength: ushort, source: AmxDevice, encryptionType: byte, customData: seq<byte>,
                               encrypted: seq<byte>, checksum: byte) {
    /** Custom data of at least four bytes starts with the salt. */
    function Salt(): Option<seq<byte>> {
      if |customData| >= 4 then Some(customData[..4]) else None
    }

    /** Custom data of at least eight bytes goes on with the destination. */
    function Dest(): AmxDevice {
      if |customData| >= 8 then FromSD(customData[4..8]) else EMPTY
    }
  }

  function ParsedEnvelope(b: seq<byte>): Outcome<Envelope> {
    if |b| < 9 || b[0] != PROTOCOL then Thrown
    else
      var length: int, custom: int := GetBe16(b, 1), b[8];
      if length + 3 < 9 + custom || |b| <= length + 3 then Thrown
      else
        Returned(Envelope(length, FromSD(b[3..7]), b[7], b[9..9 + custom], b[9 + custom..length + 3], b[length + 3]))
  }

  // ----- building -----

  function Offset(mode: int): nat { if mode == 4 then 17 else 13 }

  function DataLength(mode: int, n: nat): ushort {
    var length: int := ToUShort(PACKET_LENGTH_MIN + n - 4);
    if mode == 4 then ToUShort(length + 4) else length
  }

  /** The largest inner packet whose length field does not wrap. */
  function MaxInner(mode: int): nat { 0xFFFF - Offset(mode) + 3 }

  function Header(mode: int, n: nat, source: AmxDevice, dest: AmxDevice, salt: Salt): (r: seq<byte>)
    ensures |r| == Offset(mode)
  {
    [PROTOCOL] + Be16(DataLength(mode, n)) + source.GetBytesSDP()[..4]
    + (if mode == 4 then [2, 8] else [1, 4]) + salt + (if mode == 4 then dest.GetBytesSDP()[..4] else [])
  }

  function Enclosed(header: seq<byte>, encrypted: seq<byte>): (r: seq<byte>)
    ensures |r| == |header| + |encrypted| + 1
  {
    header + encrypted + [Checksum(header + encrypted)]
  }

  /** The building constructor, with the random salt as an argument. */
  function Built(c: Cipher, raw: seq<byte>, source: AmxDevice, dest: AmxDevice, mode: int, salt: Salt)
    : (Outcome<seq<byte>>, Cipher)
  {
    if DataLength(mode, |raw|) + 4 < Offset(mode) then (Thrown, c)
    else
      var (encrypted, c') := Transformed(c, raw, Some(salt)).value;
      if DataLength(mode, |raw|) + 4 < Offset(mode) + |raw| then (Thrown, c')
      else (Returned(Enclosed(Header(mode, |raw|, source, dest, salt), encrypted)), c')
  }

  function Decrypted(c: Cipher, e: Envelope): (seq<byte>, Cipher) {
    Transformed(c, e.encrypted, e.Salt()).value
  }

  lemma LengthFits(mode: int, n: nat)
    ensures DataLength(mode, n) + 4 >= Offset(mode) + n <==> n <= MaxInner(mode)
    ensures n <= MaxInner(mode) ==> DataLength(mode, n) == Offset(mode) + n - 3
  {
  }

  /** Building succeeds exactly for the inner packets whose length fits. */
  lemma BuiltFits(c: Cipher, raw: seq<byte>, source: AmxDevice, dest: AmxDevice, mode: int, salt: Salt)
    ensures Built(c, raw, source, dest, mode, salt).0.Returned? <==> |raw| <= MaxInner(mode)
  {
    hide DataLength, Crypt, After, Header, Checksum;
    LengthFits(mode, |raw|);
  }

  // ----- where every field stands -----

  lemma HeaderSlices(mode: int, n: nat, source: AmxDevice, dest: AmxDevice, salt: Salt)
    ensures var h := Header(mode, n, source, dest, salt);
            && h[0] == 4 && h[1..3] == Be16(DataLength(mode, n)) && h[3..7] == source.GetBytesSDP()[..4]
            && h[7] == (if mode == 4 then 2 else 1) && h[8] == (if mode == 4 then 8 else 4) && h[9..13] == salt
            && (mode == 4 ==> h[13..17] == dest.GetBytesSDP()[..4])
  {
    hide High, Low, AmxDevice.GetBytesSDP, DataLength;
    var h, tail := Header(mode, n, source, dest, salt), dest.GetBytesSDP()[..4];
    if mode == 4 {
      assert h == h[..13] + tail;
    }
  }

  lemma SystemAndDevice(b: seq<byte>, at: nat, d: AmxDevice)
    requires at + 4 <= |b| && b[at..at + 4] == d.GetBytesSDP()[..4]
    ensures Digits(b[at..at + 2]) == d.system && Digits(b[at + 2..at + 4]) == d.device
  {
    hide Digits, AmxDevice.GetBytesSDP;
    Layout(d);
    var c := d.GetBytesSDP();
    SliceOfSlice(c, 0, 4, 0, 2);
    SliceOfSlice(c, 0, 4, 2, 4);
    SliceOfSlice(b, at, at + 4, 0, 2);
    SliceOfSlice(b, at, at + 4, 2, 4);
    assert c[..4] == c[0..4];
  }

  /** The envelope on the wire: protocol 4, length, system and device of the source, encryption type, the length of the
      custom data, the salt, in mode 4 system and device of the destination, the inner packet under the salted
      cipher, and the sum of all bytes before the last. */
  lemma BuiltLayout(c: Cipher, raw: seq<byte>, source: AmxDevice, dest: AmxDevice, mode: int, salt: Salt)
    requires |raw| <= MaxInner(mode)
    ensures Built(c, raw, source, dest, mode, salt).0.Returned?
    ensures var w := Built(c, raw, source, dest, mode, salt).0.value;
            var at := if mode == 4 then 17 else 13;
            && |w| == at + |raw| + 1 && w[0] == 4 && Digits(w[1..3]) == |w| - 4
            && Digits(w[3..5]) == source.system && Digits(w[5..7]) == source.device
            && w[7] == (if mode == 4 then 2 else 1) && w[8] == at - 9 && w[9..13] == salt
            && (mode == 4 ==> Digits(w[13..15]) == dest.system && Digits(w[15..17]) == dest.device)
            && w[at..|w| - 1] == Crypt(Start(Salted(c.table, salt)), raw)
            && w[|w| - 1] == Sum(w[..|w| - 1]) % 0x100
  {
    hide DataLength, Crypt, Header, Sum, Digits, Be16, After, AmxDevice.GetBytesSDP;
    LengthFits(mode, |raw|);
    var encrypted, h := Crypt(Start(Salted(c.table, salt)), raw), Header(mode, |raw|, source, dest, salt);
    var w := Built(c, raw, source, dest, mode, salt).0.value;
    assert w == h + encrypted + [Checksum(h + encrypted)];
    assert w[..|w| - 1] == h + encrypted && w[|h|..|w| - 1] == encrypted;
    HeaderSlices(mode, |raw|, source, dest, salt);
    assert w[1..3] == h[1..3] && w[3..7] == h[3..7] && w[9..13] == h[9..13];
    Be16Digits(DataLength(mode, |raw|));
    SystemAndDevice(w, 3, source);
    if mode == 4 {
      assert w[13..17] == h[13..17];
      SystemAndDevice(w, 13, dest);
    }
  }

  lemma DeviceOfSD(b: seq<byte>, at: nat)
    requires at + 4 <= |b|
    ensures var d := FromSD(b[at..at + 4]);
            d.system == Digits(b[at..at + 2]) && d.device == Digits(b[at + 2..at + 4]) && d.port == 1
  {
    hide Digits, Word;
    GetBe16Digits(b, at);
    GetBe16Digits(b, at + 2);
  }

  /** And where the parser looks, in any bytes that it accepts: those with protocol 4 that are longer than their length
      field says, with room for their custom data. The first four bytes of custom data are the salt, the next four
      the destination. */
  lemma ParsedEnvelopeLayout(b: seq<byte>)
    ensures ParsedEnvelope(b).Returned? <==> |b| >= 9 && b[0] == 4 && 9 + b[8] <= Digits(b[1..3]) + 3 < |b|
    ensures ParsedEnvelope(b).Returned? ==>
              var e, end, at := ParsedEnvelope(b).value, Digits(b[1..3]) + 3, 9 + b[8] as int;
              && e.dataLength == Digits(b[1..3]) && e.encryptionType == b[7] && e.checksum == b[end]
              && e.source.system == Digits(b[3..5]) && e.source.device == Digits(b[5..7]) && e.source.port == 1
              && e.customData == b[9..at] && e.encrypted == b[at..end]
              && e.Salt() == (if b[8] >= 4 then Some(b[9..13]) else None)
              && (b[8] >= 8 ==> e.Dest().system == Digits(b[13..15]) && e.Dest().device == Digits(b[15..17]))
              && (b[8] < 8 ==> e.Dest() == AmxDevice(0, 0, 0))
  {
    hide Digits, GetBe16, FromSD;
    if |b| >= 9 {
      GetBe16Digits(b, 1);
      DeviceOfSD(b, 3);
      if ParsedEnvelope(b).Returned? {
        if b[8] >= 4 {
          SliceOfSlice(b, 9, 9 + b[8] as int, 0, 4);
        }
        if b[8] >= 8 {
          SliceOfSlice(b, 9, 9 + b[8] as int, 4, 8);
          DeviceOfSD(b, 13);
        }
      }
    }
  }

  /** An envelope with a salt leaves the cipher with its saved table; one without continues on the working table. */
  lemma DecryptedWith(c: Cipher, e: Envelope)
    ensures var (data, c') := Decrypted(c, e);
            if |e.customData| >= 4 then
              data == Crypt(Start(Salted(c.table, e.customData[..4])), e.encrypted) && c' == Cipher(c.saved, c.saved)
            else
              && data == Crypt(Start(c.table), e.encrypted)
              && c' == Cipher(After(Start(c.table), |e.encrypted|).table, c.saved)
  {
    hide Crypt, After;
  }

  // ----- round trip -----

  lemma ParseEnclosed(mode: int, source: AmxDevice, dest: AmxDevice, salt: Salt, encrypted: seq<byte>)
    requires |encrypted| <= MaxInner(mode)
    ensures var header := Header(mode, |encrypted|, source, dest, salt);
            ParsedEnvelope(Enclosed(header, encrypted)) ==
            Returned(Envelope(DataLength(mode, |encrypted|), source.(port := 1), if mode == 4 then 2 else 1,
                              header[9..], encrypted, Checksum(header + encrypted)))
  {
    hide Checksum, High, Low, Word, FromSD, AmxDevice.GetBytesSDP, DataLength;
    WordHalves();
    LengthFits(mode, |encrypted|);
    var length := DataLength(mode, |encrypted|);
    var header := Header(mode, |encrypted|, source, dest, salt);
    var b := Enclosed(header, encrypted);
    assert b[..|header|] == header;
    assert b[1..3] == header[1..3] == Be16(length);
    assert header[3..7] == source.GetBytesSDP()[..4];
    assert b[3..7] == header[3..7];
    DeviceRoundTrip(source);
    assert header[8] == Offset(mode) - 9;
    assert b[9..|header|] == header[9..];
    assert b[|header|..|b| - 1] == encrypted;
  }

  lemma CustomData(mode: int, n: nat, source: AmxDevice, dest: AmxDevice, salt: Salt)
    ensures Header(mode, n, source, dest, salt)[9..]
            == salt + if mode == 4 then dest.GetBytesSDP()[..4] else []
  {
  }

  /** What was enclosed comes out: addresses, salt, checksum, and the inner packet, with the cipher as before. */
  lemma EnvelopeRoundTrip(key: seq<byte>, raw: seq<byte>, source: AmxDevice, dest: AmxDevice, mode: int, salt: Salt)
    requires key != [] && |raw| <= MaxInner(mode)
    ensures var (sent, c) := Built(Keyed(key), raw, source, dest, mode, salt);
            && c == Keyed(key)
            && sent.Returned? && |sent.value| == |raw| + Offset(mode) + 1 && sent.value[0] == PROTOCOL
            && GetBe16(sent.value, 1) + 4 == |sent.value|
            && ParsedEnvelope(sent.value).Returned?
            && var e := ParsedEnvelope(sent.value).value;
            && e.dataLength + 4 == |sent.value|
            && e.source == source.(port := 1)
            && e.encryptionType == (if mode == 4 then 2 else 1)
            && e.Salt() == Some(salt)
            && e.Dest() == (if mode == 4 then dest.(port := 1) else EMPTY)
            && e.checksum == Checksum(sent.value[..|sent.value| - 1])
            && Decrypted(c, e) == (raw, c)
  {
    hide Checksum, High, Low, Word, FromSD, Crypt, Ksa, After, AmxDevice.GetBytesSDP, DataLength;
    var c := Keyed(key);
    LengthFits(mode, |raw|);
    var encrypted := Crypt(Start(Salted(Ksa(key), salt)), raw);
    var header := Header(mode, |raw|, source, dest, salt);
    ParseEnclosed(mode, source, dest, salt, encrypted);
    var sent := Enclosed(header, encrypted);
    assert Built(c, raw, source, dest, mode, salt) == (Returned(sent), c);
    var e := ParsedEnvelope(sent).value;
    CustomData(mode, |raw|, source, dest, salt);
    assert e.customData[..4] == salt;
    if mode == 4 {
      assert e.customData[4..8] == dest.GetBytesSDP()[..4];
    }
    DeviceRoundTrip(dest);
    assert sent[..|sent| - 1] == header + encrypted;
    CryptInvolutive(Start(Salted(Ksa(key), salt)), raw);
  }

  // ----- on arrays and the cipher object -----

  method Build(crypto: RC4, raw: array<byte>, source: AmxDevice, dest: AmxDevice, mode: int, salt: array<byte>)
      returns (r: Outcome<array<byte>>)
    requires crypto.Valid() && salt.Length == 4
    requires raw != crypto.KeyValue && salt != crypto.KeyValue
    modifies crypto, crypto.KeyValue
    ensures crypto.Valid()
    ensures var (sent, c) := Built(old(crypto.State()), raw[..], source, dest, mode, salt[..]);
            && crypto.State() == c
            && match sent
               case Thrown => r.Thrown?
               case Returned(b) => r.Returned? && fresh(r.value) && r.value[..] == b
  {
    hide Checksum, High, Low, Crypt, After, Header, DataLength;
    var out := new byte[DataLength(mode, raw.Length) + 4](_ => 0);
    var offset := Offset(mode);
    if out.Length < offset {
      return Thrown;
    }
    var lEncryptedData := new byte[raw.Length](k requires 0 <= k < raw.Length reads raw => raw[k]);
    assert lEncryptedData[..] == raw[..];
    var ok := crypto.TransformBlock(lEncryptedData, salt);
    if out.Length < offset + raw.Length {
      return Thrown;
    }
    Put(out, 0, Header(mode, raw.Length, source, dest, salt[..]));
    Put(out, offset, lEncryptedData[..]);
    LengthFits(mode, raw.Length);
    assert out[..out.Length - 1] == Header(mode, raw.Length, source, dest, salt[..]) + lEncryptedData[..];
    var lCs := ByteSum(out);
    out[out.Length - 1] := lCs;
    assert out[..] == out[..out.Length - 1] + [lCs];
    return Returned(out);
  }

  method GetDecryptedData(crypto: RC4, e: Envelope) returns (data: array<byte>)
    requires crypto.Valid()
    modifies crypto, crypto.KeyValue
    ensures crypto.Valid() && fresh(data)
    ensures (data[..], crypto.State()) == Decrypted(old(crypto.State()), e)
  {
    hide Crypt, After;
    data := new byte[|e.encrypted|](k requires 0 <= k < |e.encrypted| => e.encrypted[k]);
    assert data[..] == e.encrypted;
    if |e.customData| >= 4 {
      var salt := new byte[4](k requires 0 <= k < 4 => e.customData[k]);
      assert salt[..] == e.customData[..4];
      var ok := crypto.TransformBlock(data, salt);
    } else {
      var ok := crypto.TransformBlock(data, null);
    }
  }
}
