/** Device addresses and their byte encodings. */
module AmxDevices {
  import opened Bytes

  datatype AmxDevice = AmxDevice(device: ushort, port: ushort, system: ushort) {
    function GetBytesSDP(): (r: seq<byte>)
      ensures |r| == 6
    {
      [High(system), Low(system), High(device), Low(device), High(port), Low(port)]
    }

    function GetBytesDPS(): (r: seq<byte>)
      ensures |r| == 6
    {
      [High(device), Low(device), High(port), Low(port), High(system), Low(system)]
    }
  }

  const EMPTY := AmxDevice(0, 0, 0)

  function FromSDP(b: seq<byte>): AmxDevice
    requires |b| >= 6
  {
    AmxDevice(Word(b[2], b[3]), Word(b[4], b[5]), Word(b[0], b[1]))
  }

  function FromDPS(b: seq<byte>): AmxDevice
    requires |b| >= 6
  {
    AmxDevice(Word(b[0], b[1]), Word(b[2], b[3]), Word(b[4], b[5]))
  }

  /** System and device only; the port defaults to 1. */
  function FromSD(b: seq<byte>): AmxDevice
    requires |b| >= 4
  {
    AmxDevice(Word(b[2], b[3]), 1, Word(b[0], b[1]))
  }

  /** Both six-byte encodings are inverted by their decoders, and the four-byte prefix forgets only the port. */
  lemma DeviceRoundTrip(d: AmxDevice)
    ensures FromSDP(d.GetBytesSDP()) == d && FromDPS(d.GetBytesDPS()) == d
    ensures FromSD(d.GetBytesSDP()[..4]) == d.(port := 1)
  {
    hide High, Low, Word;
    WordHalves();
  }

  lemma BytesRoundTrip(b: seq<byte>)
    requires |b| == 6
    ensures FromSDP(b).GetBytesSDP() == b && FromDPS(b).GetBytesDPS() == b
  {
    hide High, Low, Word;
    WordHalves();
  }

  /** The order of the encodings: system, device, port, or device, port, system. */
  lemma Layout(d: AmxDevice)
    ensures var b := d.GetBytesSDP();
            Digits(b[0..2]) == d.system && Digits(b[2..4]) == d.device && Digits(b[4..6]) == d.port
    ensures var b := d.GetBytesDPS();
            Digits(b[0..2]) == d.device && Digits(b[2..4]) == d.port && Digits(b[4..6]) == d.system
  {
    hide Digits, High, Low;
    Be16Digits(d.system);
    Be16Digits(d.device);
    Be16Digits(d.port);
    var b, c := d.GetBytesSDP(), d.GetBytesDPS();
    assert b[0..2] == c[4..6] == Be16(d.system);
    assert b[2..4] == c[0..2] == Be16(d.device);
    assert b[4..6] == c[2..4] == Be16(d.port);
  }

  /** And where the decoders look. */
  lemma ParsedLayout(b: seq<byte>)
    requires |b| >= 6
    ensures var d := FromSDP(b);
            d.system == Digits(b[0..2]) && d.device == Digits(b[2..4]) && d.port == Digits(b[4..6])
    ensures var d := FromDPS(b);
            d.device == Digits(b[0..2]) && d.port == Digits(b[2..4]) && d.system == Digits(b[4..6])
    ensures var d := FromSD(b);
            d.system == Digits(b[0..2]) && d.device == Digits(b[2..4]) && d.port == 1
  {
    hide Digits, Word;
    GetBe16Digits(b, 0);
    GetBe16Digits(b, 2);
    GetBe16Digits(b, 4);
  }
}
