/** The file manager: chunked sending and receiving, one message at a time. */
module FileTransfers {
  import opened Bytes

  type Name = seq<byte>

  function Ascii(s: string): Name { seq(|s|, k requires 0 <= k < |s| => ToByte(s[k] as int)) }

  // ----- messages -----

  const UNUSED: byte := 0
  const AXCESS2_TOKENS: byte := 4

  // FileTransferFunction
  const NAK: ushort := 1
  const ACK: ushort := 2
  const DATA: ushort := 3
  const DATA_COMPLETE: ushort := 4
  const DATA_COMPLETE_ACK: ushort := 5
  const FILES_INITIALIZE: ushort := 6
  const FILES_COMPLETE: ushort := 7

  // FunctionsAxcess2Tokens
  const SINGLE_FILE: ushort := 0x100
  const SINGLE_FILE_ACK: ushort := 0x101
  const SINGLE_FILE_INFO: ushort := 0x102
  const SINGLE_FILE_INFO_ACK: ushort := 0x103
  const GET_FILE_ACCESS_TOKEN: ushort := 0x104
  const GET_FILE_ACCESS_TOKEN_ACK: ushort := 0x105
  const GET_FILE: ushort := 0x106

  // FileTransferUnusedFunction
  const DIR_GET: ushort := 0x100
  const DIR_HEADER: ushort := 0x101
  const DIR_ENTRY: ushort := 0x102
  const FILE_REMOVE: ushort := 0x104
  const DIR_CREATE: ushort := 0x105

  // FileTransferErrorCode
  const UNSUPPORTED_TYPE: ushort := 4
  const OPEN_ERROR: ushort := 5
  const DIRECTORY_ALREADY_EXISTS: ushort := 16

  const JUNK_SIZE_MAX := 2000
  const ACCESS_TOKEN: seq<byte> := [0x00, 0x00, 0xC3, 0x50]

  datatype Transfer = Transfer(fileType: byte, func: ushort, data: seq<byte>)

  /** The payload of a file transfer message. */
  function Encoded(t: Transfer): seq<byte> { Be16(t.fileType) + Be16(t.func) + t.data }

  /** A payload of one to three bytes is too short to read and throws; an empty one leaves the defaults. */
  function Decoded(b: seq<byte>): Outcome<Transfer> {
    if b == [] then Returned(Transfer(UNUSED, 0, []))
    else if |b| < 4 then Thrown
    else Returned(Transfer(ToByte(GetBe16(b, 0)), GetBe16(b, 2), b[4..]))
  }

  lemma AsciiAt(s: string, k: nat)
    requires k < |s| && s[k] as int < 0x100
    ensures |Ascii(s)| == |s| && Ascii(s)[k] == s[k] as int
  {
  }

  /** The payload on the wire: a zero byte, the file type, the function, and the data. */
  lemma EncodedLayout(t: Transfer)
    ensures var e := Encoded(t);
            |e| == 4 + |t.data| && e[0] == 0 && e[1] == t.fileType && Digits(e[2..4]) == t.func && e[4..] == t.data
  {
    hide Digits;
    Be16Digits(t.func);
    assert Encoded(t)[2..4] == Be16(t.func);
  }

  /** And where the constructor of the message class looks. */
  lemma DecodedLayout(b: seq<byte>)
    ensures Decoded(b).Thrown? <==> 1 <= |b| <= 3
    ensures b == [] ==> Decoded(b) == Returned(Transfer(0, 0, []))
    ensures |b| >= 4 ==>
              var t := Decoded(b).value;
              t.fileType == b[1] && t.func == Digits(b[2..4]) && t.data == b[4..]
  {
    hide Digits;
    if |b| >= 4 {
      GetBe16Digits(b, 2);
    }
  }

  lemma TransferRoundTrip(t: Transfer)
    ensures Decoded(Encoded(t)) == Returned(t)
  {
    assert Encoded(t)[4..] == t.data;
  }

  function Message(func: ushort, data: seq<byte>): Transfer { Transfer(AXCESS2_TOKENS, func, data) }

  function Error(code: ushort): Transfer { Message(NAK, Be16(code)) }

  function Chunk(bytes: seq<byte>): Transfer { Message(DATA, Be16(ToUShort(|bytes|)) + bytes) }

  /** What a message is answered with: nothing, another message, or an exception that is logged and swallowed. */
  datatype Reply = Silent | Answer(message: Transfer) | Throws

  // ----- the manager's fields, and the files under its base directory -----

  datatype Fm = Fm(bufferData: Option<seq<byte>>, bufferSend: Option<seq<byte>>,
                   nameData: Option<Name>, nameSend: Option<Name>, files: map<Name, seq<byte>>, dirs: set<Name>)

  /** The foreign parts: the embedded version file, GZip, and loading and saving XML. */
  datatype Env = Env(version: seq<byte>, gunzip: seq<byte> -> Option<seq<byte>>,
                     saveXml: seq<byte> -> Option<seq<byte>>)

  const VERSION_FILE: Name := Ascii("__system/graphics/version.xma")
  const MANIFEST: Name := Ascii("amxpanel/manifest.xma")

  /** The version file is created when it is first asked for. */
  function WithVersion(env: Env, files: map<Name, seq<byte>>, name: Name): map<Name, seq<byte>> {
    if name == VERSION_FILE && name !in files then files[name := env.version] else files
  }

  function Open(env: Env, fm: Fm, data: seq<byte>): (Fm, Reply) {
    if |data| < 2 then (fm, Throws)
    else
      match GetNullStr(data, 2)
      case Thrown => (fm, Throws)
      case Returned(r) =>
        var files := WithVersion(env, fm.files, r.0);
        var named := fm.(nameSend := Some(r.0), files := files);
        if r.0 !in files then (named, Answer(Error(OPEN_ERROR)))
        else
          var size := ToInt32(|files[r.0]|);
          (named.(bufferSend := Some(files[r.0])),
           Answer(Message(GET_FILE_ACCESS_TOKEN_ACK, Be32(size) + ACCESS_TOKEN)))
  }

  function Remaining(fm: Fm): seq<byte> { if fm.bufferSend.Some? then fm.bufferSend.value else [] }

  function Min(a: nat, b: nat): nat { if a < b then a else b }

  /** Takes the next chunk off the send buffer. */
  function SendChunk(fm: Fm): (Fm, Reply)
    requires Remaining(fm) != []
  {
    var rest := Remaining(fm);
    var n := Min(|rest|, JUNK_SIZE_MAX);
    (fm.(bufferSend := Some(rest[n..])), Answer(Chunk(rest[..n])))
  }

  function Append(buffer: Option<seq<byte>>, bytes: seq<byte>): Option<seq<byte>> {
    if buffer.Some? then Some(buffer.value + bytes) else None
  }

  /** The bytes behind the length of a data message, if there are that many. */
  function Payload(data: seq<byte>): Option<seq<byte>> {
    if |data| < 2 then None
    else
      var junk: int := GetBe16(data, 0);
      if |data| < 2 + junk then None else Some(data[2..2 + junk])
  }

  /** Without a buffer only the length is read. */
  function TakeData(fm: Fm, data: seq<byte>): (Fm, Reply) {
    if |data| < 2 then (fm, Throws)
    else if fm.bufferData.None? then (fm, Answer(Message(ACK, [])))
    else if Payload(data).None? then (fm, Throws)
    else (fm.(bufferData := Append(fm.bufferData, Payload(data).value)), Answer(Message(ACK, [])))
  }

  // ----- writing a received file -----

  const SLASH: byte := '/' as int
  const BACKSLASH: byte := '\\' as int
  const DOT: byte := '.' as int

  /** From the last dot of the last path segment; a dot at the very end does not count. */
  function Extension(name: Name): Name {
    if name == [] || name[|name| - 1] in {SLASH, BACKSLASH, DOT} then []
    else LongExtension(name[..|name| - 1], [name[|name| - 1]])
  }

  function LongExtension(before: Name, after: Name): Name {
    if before == [] || before[|before| - 1] in {SLASH, BACKSLASH} then []
    else if before[|before| - 1] == DOT then [DOT] + after
    else LongExtension(before[..|before| - 1], [before[|before| - 1]] + after)
  }

  function LowerCase(name: Name): Name {
    seq(|name|, k requires 0 <= k < |name| =>
      if 0x41 <= name[k] <= 0x5A then (name[k] as int) + 0x20 else name[k] as int)
  }

  /** Panel files are archives or XML by their extension; the manifest and all others are written as received. */
  predicate Converted(name: Name) {
    LowerCase(name) != MANIFEST && Extension(name) in {Ascii(".xma"), Ascii(".xml")}
  }

  const MAGIC_GZIP := 0x1F8B
  const MAGIC_GZIP_ENCRYPTED := 0xBC06

  /** What is written under a converted name: encrypted archives and what does not load stay as received. */
  function ConvertedBytes(env: Env, raw: seq<byte>): seq<byte>
    requires |raw| >= 2
  {
    var magic := GetBe16(raw, 0);
    if magic == MAGIC_GZIP_ENCRYPTED then raw
    else
      var text := if magic == MAGIC_GZIP && env.gunzip(raw).Some? then env.gunzip(raw).value else raw;
      var xml := env.saveXml(text);
      if xml.Some? then xml.value else raw
  }

  /** The files after the end of a transfer. */
  function Stored(env: Env, fm: Fm): map<Name, seq<byte>> {
    match (fm.nameData, fm.bufferData)
    case (Some(name), Some(raw)) =>
      if !Converted(name) then fm.files[name := raw]
      else if |raw| < 2 then fm.files
      else fm.files[name := ConvertedBytes(env, raw)]
    case _ => fm.files
  }

  // ----- one message -----

  function Start(fm: Fm, data: seq<byte>): (Fm, Reply) {
    if |data| < 8 then (fm, Throws)
    else
      match GetNullStr(data, 8)
      case Thrown => (fm, Throws)
      case Returned(r) =>
        (fm.(nameData := Some(r.0), bufferData := Some([])),
         Answer(Message(SINGLE_FILE_INFO_ACK, Be16(JUNK_SIZE_MAX) + ACCESS_TOKEN)))
  }

  function IfLong(data: seq<byte>, n: nat, reply: Reply): Reply {
    if |data| < n then Throws else reply
  }

  /** The number of data bytes that a handler without state effects reads, and its answer. */
  function Stateless(func: ushort, data: seq<byte>): Reply {
    if func == SINGLE_FILE then
      Answer(Message(SINGLE_FILE_ACK, [0x7F, 0xFF, 0xFF, 0xFF, 0, 0, 0, 0]))
    else if func == SINGLE_FILE_INFO_ACK then IfLong(data, 6, Silent)
    else if func == GET_FILE_ACCESS_TOKEN_ACK then
      if |data| < 8 then Throws else Answer(Message(GET_FILE, Be32(GetBe32(data, 0))))
    else if func == NAK || func == FILES_INITIALIZE then IfLong(data, 2, Silent)
    else Silent
  }

  /** ProcessFileTransferDisk. */
  function Process(env: Env, fm: Fm, func: ushort, data: seq<byte>): (Fm, Reply) {
    if func == SINGLE_FILE_INFO then Start(fm, data)
    else if func == GET_FILE_ACCESS_TOKEN then Open(env, fm, data)
    else if func == GET_FILE then
      if |data| < 4 then (fm, Throws)
      else if Remaining(fm) != [] then SendChunk(fm)
      else (fm, Answer(Error(OPEN_ERROR)))
    else if func == ACK then
      if Remaining(fm) != [] then SendChunk(fm)
      else (fm.(bufferSend := None), Answer(Message(DATA_COMPLETE, [])))
    else if func == DATA then TakeData(fm, data)
    else if func == DATA_COMPLETE then
      (fm.(files := Stored(env, fm)), Answer(Message(DATA_COMPLETE_ACK, [])))
    else (fm, Stateless(func, data))
  }

  /** The directory functions of file type Unused. A listing is not an answer: it is sent message by message. */
  function ProcessUnused(fm: Fm, func: ushort, data: seq<byte>): (Fm, Reply) {
    var ack := Answer(Transfer(UNUSED, ACK, []));
    if func == NAK then (fm, IfLong(data, 2, Silent))
    else if func == DIR_GET then (fm, IfLong(data, 2, Silent))
    else if func == DIR_HEADER then (fm, IfLong(data, 16, ack))
    else if func == DIR_ENTRY then (fm, IfLong(data, 19, ack))
    else if func == DIR_CREATE then
      match GetNullStr(data, 0)
      case Thrown => (fm, Throws)
      case Returned(r) =>
        if r.0 in fm.dirs then (fm, Answer(Transfer(UNUSED, NAK, Be16(DIRECTORY_ALREADY_EXISTS))))
        else (fm.(dirs := fm.dirs + {r.0}), ack)
    else (fm, ack)
  }

  /** GetResponse. */
  function Respond(env: Env, fm: Fm, t: Transfer): (Fm, Reply) {
    if t.fileType == AXCESS2_TOKENS then Process(env, fm, t.func, t.data)
    else if t.fileType == UNUSED then ProcessUnused(fm, t.func, t.data)
    else (fm, Answer(Error(UNSUPPORTED_TYPE)))
  }

  // ----- what the messages do, byte by byte -----

  /** A transfer is announced by four bytes of size, four of token, and the name. It sets the name and empties the
      receive buffer, and is answered with the chunk size of 2000 and the token 50000. */
  lemma StartSetsName(env: Env, fm: Fm, size: seq<byte>, token: seq<byte>, name: Name, rest: seq<byte>)
    requires |size| == 4 && |token| == 4 && Clean(name)
    ensures Respond(env, fm, Transfer(4, 0x102, size + token + name + [0] + rest))
            == (fm.(nameData := Some(name), bufferData := Some([])),
                Answer(Transfer(4, 0x103, [0x07, 0xD0, 0x00, 0x00, 0xC3, 0x50])))
  {
    hide GetNullStr, Clean, Open, SendChunk, TakeData, Stored, Stateless;
    NullStrRoundTrip(size + token, name, rest);
    assert Be16(JUNK_SIZE_MAX) + ACCESS_TOKEN == [0x07, 0xD0, 0x00, 0x00, 0xC3, 0x50];
  }

  /** The file that a name leads to: the one on disk, or the embedded version file. */
  predicate Served(env: Env, fm: Fm, name: Name, file: seq<byte>) {
    if name in fm.files then file == fm.files[name]
    else name == Ascii("__system/graphics/version.xma") && file == env.version
  }

  /** An access request is two bytes and a name. A file that is there becomes the send buffer, and its size and the
      token are answered. */
  lemma AccessGranted(env: Env, fm: Fm, size: seq<byte>, name: Name, rest: seq<byte>, file: seq<byte>)
    requires |size| == 2 && Clean(name) && Served(env, fm, name, file)
    ensures var (fm', reply) := Respond(env, fm, Transfer(4, 0x104, size + name + [0] + rest));
            && fm' == fm.(nameSend := Some(name), bufferSend := Some(file), files := fm.files[name := file])
            && reply.Answer? && reply.message.fileType == 4 && reply.message.func == 0x105
            && |reply.message.data| == 8 && Digits(reply.message.data[..4]) == |file| % 0x1_0000_0000
            && reply.message.data[4..] == [0x00, 0x00, 0xC3, 0x50]
  {
    hide GetNullStr, Clean, SendChunk, TakeData, Stored, Stateless, Be32, Digits, Ascii;
    NullStrRoundTrip(size, name, rest);
    var n := ToInt32(|file|);
    Be32Digits(n);
    var data := Be32(n) + ACCESS_TOKEN;
    assert data[..4] == Be32(n);
    assert fm.files[name := file] == WithVersion(env, fm.files, name);
  }

  /** A file that is not there is answered with error 5, and the send buffer stays. */
  lemma AccessRefused(env: Env, fm: Fm, size: seq<byte>, name: Name, rest: seq<byte>)
    requires |size| == 2 && Clean(name)
    requires name !in fm.files && name != Ascii("__system/graphics/version.xma")
    ensures Respond(env, fm, Transfer(4, 0x104, size + name + [0] + rest))
            == (fm.(nameSend := Some(name)), Answer(Transfer(4, 1, [0x00, 0x05])))
  {
    hide GetNullStr, Clean, SendChunk, TakeData, Stored, Stateless, Be32, Ascii;
    NullStrRoundTrip(size, name, rest);
    assert Be16(OPEN_ERROR) == [0x00, 0x05];
  }

  /** Asked for data, by the request with its token or by an acknowledgement, a server with bytes left sends the first
      2000 of them, or all, behind their number. */
  lemma NextChunkServed(env: Env, fm: Fm, func: ushort, data: seq<byte>)
    requires (func == 0x106 && |data| >= 4) || func == 2
    requires fm.bufferSend.Some? && fm.bufferSend.value != []
    ensures var (fm', reply) := Respond(env, fm, Transfer(4, func, data));
            var left := fm.bufferSend.value;
            var n := if |left| <= 2000 then |left| else 2000;
            && fm' == fm.(bufferSend := Some(left[n..]))
            && reply.Answer? && reply.message.fileType == 4 && reply.message.func == 3
            && |reply.message.data| == 2 + n && Digits(reply.message.data[..2]) == n
            && reply.message.data[2..] == left[..n]
  {
    hide Open, TakeData, Stored, Stateless, Be16, Digits;
    var left := fm.bufferSend.value;
    var n := Min(|left|, JUNK_SIZE_MAX);
    Be16Digits(n);
    var chunk := Chunk(left[..n]).data;
    assert chunk[..2] == Be16(n) && chunk[2..] == left[..n];
  }

  /** Without bytes left, the request is refused with error 5, and the acknowledgement completes the transfer. */
  lemma NothingServed(env: Env, fm: Fm, data: seq<byte>)
    requires fm.bufferSend.None? || fm.bufferSend.value == []
    ensures |data| >= 4 ==>
              Respond(env, fm, Transfer(4, 0x106, data)) == (fm, Answer(Transfer(4, 1, [0x00, 0x05])))
    ensures Respond(env, fm, Transfer(4, 2, data)) == (fm.(bufferSend := None), Answer(Transfer(4, 4, [])))
  {
    hide Open, TakeData, Stored, Stateless;
    assert Be16(OPEN_ERROR) == [0x00, 0x05];
  }

  /** A chunk of n bytes behind their number is appended to a buffer that is there, and acknowledged. */
  lemma ChunkTaken(env: Env, fm: Fm, number: seq<byte>, bytes: seq<byte>, rest: seq<byte>)
    requires |number| == 2 && Digits(number) == |bytes|
    ensures Respond(env, fm, Transfer(4, 3, number + bytes + rest))
            == (fm.(bufferData := if fm.bufferData.Some? then Some(fm.bufferData.value + bytes) else None),
                Answer(Transfer(4, 2, [])))
  {
    hide Open, SendChunk, Stored, Stateless, GetBe16, Digits;
    var data := number + bytes + rest;
    GetBe16Digits(data, 0);
    assert data[0..2] == number && data[2..2 + |bytes|] == bytes;
  }

  /** A chunk shorter than its number says throws when there is a buffer to take it. */
  lemma ShortChunkThrows(env: Env, fm: Fm, data: seq<byte>)
    requires |data| < 2 || (fm.bufferData.Some? && |data| < 2 + Digits(data[..2]))
    ensures Respond(env, fm, Transfer(4, 3, data)) == (fm, Throws)
  {
    hide Open, SendChunk, Stored, Stateless, GetBe16, Digits;
    if |data| >= 2 {
      GetBe16Digits(data, 0);
      assert data[0..2] == data[..2];
    }
  }

  /** The messages that carry no file data and change no field. */
  lemma PlainAnswers(env: Env, fm: Fm, data: seq<byte>)
    ensures Respond(env, fm, Transfer(4, 0x100, data))
            == (fm, Answer(Transfer(4, 0x101, [0x7F, 0xFF, 0xFF, 0xFF, 0x00, 0x00, 0x00, 0x00])))
    ensures Respond(env, fm, Transfer(4, 0x103, data)) == (fm, if |data| < 6 then Throws else Silent)
    ensures Respond(env, fm, Transfer(4, 0x105, data))
            == (fm, if |data| < 8 then Throws else Answer(Transfer(4, 0x106, data[..4])))
    ensures forall func | func in {1, 6} ::
              Respond(env, fm, Transfer(4, func, data)) == (fm, if |data| < 2 then Throws else Silent)
    ensures forall func: ushort | 0x106 < func || 7 <= func < 0x100 || func in {0, 5, 0x101} ::
              Respond(env, fm, Transfer(4, func, data)) == (fm, Silent)
  {
    hide Open, SendChunk, TakeData, Stored, Be32, GetBe32;
    if |data| >= 8 {
      SizeEchoed(data);
    }
  }

  lemma SizeEchoed(data: seq<byte>)
    requires |data| >= 4
    ensures Be32(GetBe32(data, 0)) == data[..4]
  {
    hide Be32, GetBe32, Digits;
    var v := GetBe32(data, 0);
    Be32Digits(v);
    GetBe32Digits(data, 0);
    assert data[0..4] == data[..4];
    SameDigits(Be32(v), data[..4]);
  }

  /** What is too short to read throws. */
  lemma TooShortThrows(env: Env, fm: Fm, data: seq<byte>)
    ensures |data| < 8 ==> Respond(env, fm, Transfer(4, 0x102, data)) == (fm, Throws)
    ensures |data| < 2 ==> Respond(env, fm, Transfer(4, 0x104, data)) == (fm, Throws)
    ensures |data| < 4 ==> Respond(env, fm, Transfer(4, 0x106, data)) == (fm, Throws)
  {
    hide GetNullStr, Stored, Stateless, SendChunk;
  }

  /** A name without a terminator is the empty name. */
  lemma UnterminatedNames(env: Env, fm: Fm, data: seq<byte>)
    ensures |data| >= 8 && NoNul(data[8..]) ==>
              Respond(env, fm, Transfer(4, 0x102, data)).0 == fm.(nameData := Some([]), bufferData := Some([]))
    ensures |data| >= 2 && NoNul(data[2..]) ==>
              Respond(env, fm, Transfer(4, 0x104, data)).0.nameSend == Some([])
    ensures NoNul(data) && [] !in fm.dirs ==>
              Respond(env, fm, Transfer(0, 0x105, data)).0 == fm.(dirs := fm.dirs + {[]})
  {
    hide GetNullStr, NoNul, Stored, Stateless, SendChunk, Be16, Be32;
    NullStrUnterminated(data, 8);
    NullStrUnterminated(data, 2);
    NullStrUnterminated(data, 0);
    assert data[0..] == data;
  }

  /** File types other than 0 and 4 are refused with error 4. */
  lemma OtherTypesRefused(env: Env, fm: Fm, t: Transfer)
    requires t.fileType !in {0, 4}
    ensures Respond(env, fm, t) == (fm, Answer(Transfer(4, 1, [0x00, 0x04])))
  {
    assert Be16(UNSUPPORTED_TYPE) == [0x00, 0x04];
  }

  /** The messages of file type 0: a new directory is created and acknowledged, an existing one refused with error 16;
      an error code and a listing request are not answered; everything else is acknowledged when it can be read. */
  lemma UnusedAnswers(env: Env, fm: Fm, func: ushort, data: seq<byte>)
    ensures var r := Respond(env, fm, Transfer(0, func, data));
            var ack := (fm, Answer(Transfer(0, 2, [])));
            && (func in {1, 0x100} ==> r == (fm, if |data| < 2 then Throws else Silent))
            && (func == 0x101 ==> r == if |data| < 16 then (fm, Throws) else ack)
            && (func == 0x102 ==> r == if |data| < 19 then (fm, Throws) else ack)
            && (func !in {1, 0x100, 0x101, 0x102, 0x105} ==> r == ack)
  {
    hide GetNullStr;
  }

  lemma DirectoryCreated(env: Env, fm: Fm, name: Name, rest: seq<byte>)
    requires Clean(name)
    ensures Respond(env, fm, Transfer(0, 0x105, name + [0] + rest)) ==
            if name in fm.dirs then (fm, Answer(Transfer(0, 1, [0x00, 0x10])))
            else (fm.(dirs := fm.dirs + {name}), Answer(Transfer(0, 2, [])))
  {
    hide GetNullStr, Clean;
    NullStrRoundTrip([], name, rest);
    assert [] + name + [0] + rest == name + [0] + rest;
    assert Be16(DIRECTORY_ALREADY_EXISTS) == [0x00, 0x10];
  }

  // ----- what is written -----

  predicate Plain(c: byte) { c !in {'.' as int, '/' as int, '\\' as int} }

  lemma {:induction false} LongExtensionIs(front: Name, ext: Name, k: nat)
    requires k <= |ext| && ext != [] && (forall c | c in ext :: Plain(c))
    requires k < |ext|
    ensures LongExtension(front + ['.' as int] + ext[..k], ext[k..]) == ['.' as int] + ext
    decreases k
  {
    var before := front + ['.' as int] + ext[..k];
    if k == 0 {
      assert before == front + ['.' as int] && ext[k..] == ext;
    } else {
      assert before[|before| - 1] == ext[k - 1] && ext[k - 1] in ext;
      assert before[..|before| - 1] == front + ['.' as int] + ext[..k - 1];
      assert [ext[k - 1]] + ext[k..] == ext[k - 1..];
      LongExtensionIs(front, ext, k - 1);
    }
  }

  /** The extension is what follows the last dot, with the dot. */
  lemma ExtensionIs(front: Name, ext: Name)
    requires ext != [] && forall c | c in ext :: Plain(c)
    ensures Extension(front + ['.' as int] + ext) == ['.' as int] + ext
  {
    var name, n := front + ['.' as int] + ext, |ext| - 1;
    assert name[|name| - 1] == ext[n] && ext[n] in ext;
    assert name[..|name| - 1] == front + ['.' as int] + ext[..n] && ext[n..] == [ext[n]];
    LongExtensionIs(front, ext, n);
  }

  lemma {:induction false} NoLongExtension(front: Name, before: Name, after: Name)
    requires (front == [] || front[|front| - 1] in {'/' as int, '\\' as int}) && forall c | c in before :: Plain(c)
    ensures LongExtension(front + before, after) == []
    decreases |before|
  {
    var all := front + before;
    if before == [] {
      assert all == front;
    } else {
      var n := |before| - 1;
      assert all[|all| - 1] == before[n] && before[n] in before;
      assert all[..|all| - 1] == front + before[..n];
      NoLongExtension(front, before[..n], [before[n]] + after);
    }
  }

  /** A last segment without a dot has none, nor has a name that ends in a dot. */
  lemma NoExtension(front: Name, segment: Name)
    requires front == [] || front[|front| - 1] in {'/' as int, '\\' as int}
    ensures (forall c | c in segment :: Plain(c)) ==> Extension(front + segment) == []
    ensures Extension(front + segment + ['.' as int]) == []
  {
    if segment != [] && forall c | c in segment :: Plain(c) {
      var name, n := front + segment, |segment| - 1;
      assert name[|name| - 1] == segment[n] && segment[n] in segment;
      assert name[..|name| - 1] == front + segment[..n];
      NoLongExtension(front, segment[..n], [segment[n]]);
    } else if segment == [] {
      assert front + segment == front;
    }
  }

  /** Letters in upper case become small, one by one. */
  lemma LowerCaseAt(name: Name, k: nat)
    requires k < |name|
    ensures |LowerCase(name)| == |name|
    ensures LowerCase(name)[k] ==
            if 'A' as int <= name[k] <= 'Z' as int then name[k] - 'A' as int + 'a' as int else name[k] as int
  {
  }

  /** What the end of a transfer stores. Files of other extensions than .xma and .xml, and the manifest in any case,
      are written as received. Of the others, encrypted archives are written as received; an archive that unpacks is
      unpacked; and what then loads as XML is written as XML, or else as received. Fewer than two bytes are not
      written. */
  lemma StoredIs(env: Env, fm: Fm, name: Name, raw: seq<byte>)
    requires fm.nameData == Some(name) && fm.bufferData == Some(raw)
    ensures var files := Respond(env, fm, Transfer(4, 4, [])).0.files;
            var text := if |raw| >= 2 && raw[..2] == [0x1F, 0x8B] && env.gunzip(raw).Some? then env.gunzip(raw).value
                        else raw;
            if Extension(name) !in {Ascii(".xma"), Ascii(".xml")}
               || LowerCase(name) == Ascii("amxpanel/manifest.xma")
            then
              files == fm.files[name := raw]
            else if |raw| < 2 then files == fm.files
            else if raw[..2] == [0xBC, 0x06] || env.saveXml(text).None? then files == fm.files[name := raw]
            else files == fm.files[name := env.saveXml(text).value]
  {
    hide Ascii, Extension, LowerCase, Open, SendChunk, TakeData, Stateless;
    if |raw| >= 2 {
      MagicIs(raw);
    }
  }

  lemma MagicIs(raw: seq<byte>)
    requires |raw| >= 2
    ensures GetBe16(raw, 0) == MAGIC_GZIP <==> raw[..2] == [0x1F, 0x8B]
    ensures GetBe16(raw, 0) == MAGIC_GZIP_ENCRYPTED <==> raw[..2] == [0xBC, 0x06]
  {
  }

  /** Without a name or a buffer nothing is stored; the end of a transfer is always acknowledged. */
  lemma EndAcknowledged(env: Env, fm: Fm, data: seq<byte>)
    ensures var (fm', reply) := Respond(env, fm, Transfer(4, 4, data));
            && reply == Answer(Transfer(4, 5, [])) && fm' == fm.(files := fm'.files)
            && (fm.nameData.None? || fm.bufferData.None? ==> fm' == fm)
  {
    hide Open, SendChunk, TakeData, Stateless, Converted, ConvertedBytes;
  }

  // ----- conservation on any run -----

  /** What an observer of the messages notes: the file last opened, the bytes sent of it, and the bytes received
      since the last start. */
  datatype History = History(file: seq<byte>, sent: seq<byte>, received: seq<byte>)

  /** The file that an access request opens, when there is one. */
  function Requested(env: Env, files: map<Name, seq<byte>>, data: seq<byte>): Option<seq<byte>> {
    match GetNullStr(data, 2)
    case Thrown => None
    case Returned(r) =>
      var present := WithVersion(env, files, r.0);
      if r.0 in present then Some(present[r.0]) else None
  }

  function Noted(env: Env, h: History, files: map<Name, seq<byte>>, t: Transfer, reply: Reply): History {
    if t.fileType != AXCESS2_TOKENS || !reply.Answer? then h
    else if t.func == GET_FILE_ACCESS_TOKEN && Requested(env, files, t.data).Some? then
      h.(file := Requested(env, files, t.data).value, sent := [])
    else if reply.message.func == DATA && Payload(reply.message.data).Some? then
      h.(sent := h.sent + Payload(reply.message.data).value)
    else if t.func == SINGLE_FILE_INFO then h.(received := [])
    else if t.func == DATA && Payload(t.data).Some? then h.(received := h.received + Payload(t.data).value)
    else h
  }

  /** Any sequence of incoming messages, each answered before the next. */
  function Run(env: Env, fm: Fm, h: History, ts: seq<Transfer>): (Fm, History)
    decreases |ts|
  {
    if ts == [] then (fm, h)
    else
      var (fm', reply) := Respond(env, fm, ts[0]);
      Run(env, fm', Noted(env, h, fm.files, ts[0], reply), ts[1..])
  }

  predicate Conserved(fm: Fm, h: History) {
    h.sent + Remaining(fm) == h.file && (fm.bufferData.Some? ==> fm.bufferData.value == h.received)
  }

  lemma ChunkPayload(bytes: seq<byte>)
    requires |bytes| <= JUNK_SIZE_MAX
    ensures Chunk(bytes).func == DATA && |Chunk(bytes).data| == 2 + |bytes|
    ensures Payload(Chunk(bytes).data) == Some(bytes)
  {
    hide High, Low, Word;
    WordHalves();
    var data := Chunk(bytes).data;
    assert data[2..2 + |bytes|] == bytes;
  }

  lemma SendChunkConserves(fm: Fm, h: History)
    requires Remaining(fm) != [] && Conserved(fm, h)
    ensures var (fm', reply) := SendChunk(fm);
            && reply.Answer? && reply.message.func == DATA && Payload(reply.message.data).Some?
            && var chunk := Payload(reply.message.data).value;
               && 1 <= |chunk| <= JUNK_SIZE_MAX && reply.message == Chunk(chunk)
               && Conserved(fm', h.(sent := h.sent + chunk))
  {
    var rest := Remaining(fm);
    var n := Min(|rest|, JUNK_SIZE_MAX);
    ChunkPayload(rest[..n]);
    assert rest == rest[..n] + rest[n..];
    assert h.sent + rest[..n] + rest[n..] == h.sent + rest;
  }

  /** What a single answer may say: a chunk is 1 to 2000 bytes, and completion comes only when all was sent. */
  predicate AnswerSafe(fm: Fm, h: History, reply: Reply) {
    reply.Answer? ==>
      && (reply.message.func == DATA ==>
            && Payload(reply.message.data).Some?
            && 1 <= |Payload(reply.message.data).value| <= JUNK_SIZE_MAX
            && reply.message == Chunk(Payload(reply.message.data).value))
      && (reply.message.func == DATA_COMPLETE ==> h.sent == h.file && Remaining(fm) == [])
  }

  lemma StepConserves(env: Env, fm: Fm, h: History, t: Transfer)
    requires Conserved(fm, h)
    ensures var (fm', reply) := Respond(env, fm, t);
            var h' := Noted(env, h, fm.files, t, reply);
            Conserved(fm', h') && AnswerSafe(fm', h', reply)
  {
    hide GetNullStr, Payload, Be16, Process, Chunk, WithVersion;
    if t.fileType == AXCESS2_TOKENS {
      ProcessConserves(env, fm, h, t);
    }
  }

  lemma ProcessConserves(env: Env, fm: Fm, h: History, t: Transfer)
    requires Conserved(fm, h) && t.fileType == AXCESS2_TOKENS
    ensures var (fm', reply) := Process(env, fm, t.func, t.data);
            var h' := Noted(env, h, fm.files, t, reply);
            Conserved(fm', h') && AnswerSafe(fm', h', reply)
  {
    hide GetNullStr, Payload, Be16, Be32, Stored, Chunk, WithVersion, SendChunk;
    if t.func in {GET_FILE, ACK} && Remaining(fm) != [] {
      SendChunkConserves(fm, h);
    }
  }

  lemma {:induction false} RunConserves(env: Env, fm: Fm, h: History, ts: seq<Transfer>)
    requires Conserved(fm, h)
    ensures var (fm', h') := Run(env, fm, h, ts);
            Conserved(fm', h')
    decreases |ts|
  {
    hide Conserved, Respond, Noted;
    if ts != [] {
      StepConserves(env, fm, h, ts[0]);
      var (fm', reply) := Respond(env, fm, ts[0]);
      RunConserves(env, fm', Noted(env, h, fm.files, ts[0], reply), ts[1..]);
    }
  }

  function Initial(files: map<Name, seq<byte>>, dirs: set<Name>): Fm { Fm(None, None, None, None, files, dirs) }

  /** From the constructor on, after any messages and at the next one: what was sent since the last successful
      open, and what still waits, is that file; the receive buffer is what arrived since the last start. */
  lemma TransferSafety(env: Env, files: map<Name, seq<byte>>, dirs: set<Name>, ts: seq<Transfer>, next: Transfer)
    ensures var (fm, h) := Run(env, Initial(files, dirs), History([], [], []), ts);
            && Conserved(fm, h)
            && var (fm', reply) := Respond(env, fm, next);
               AnswerSafe(fm', Noted(env, h, fm.files, next, reply), reply)
  {
    RunConserves(env, Initial(files, dirs), History([], [], []), ts);
    var (fm, h) := Run(env, Initial(files, dirs), History([], [], []), ts);
    StepConserves(env, fm, h, next);
  }

  // ----- two parties -----

  /** Two managers with at most one message under way, and what has been sent so far. */
  datatype Link = Link(server: Fm, client: Fm, toServer: Option<Transfer>, toClient: Option<Transfer>,
                       log: seq<Transfer>)

  predicate Quiet(l: Link) { l.toServer.None? && l.toClient.None? }

  function Answered(reply: Reply): Option<Transfer> {
    if reply.Answer? then Some(reply.message) else None
  }

  /** The message under way is handled, and the answer is under way. */
  function Pass(env: Env, l: Link): Link {
    match (l.toServer, l.toClient)
    case (Some(t), _) =>
      var (server, reply) := Respond(env, l.server, t);
      Link(server, l.client, None, Answered(reply), l.log + if reply.Answer? then [reply.message] else [])
    case (None, Some(t)) =>
      var (client, reply) := Respond(env, l.client, t);
      Link(l.server, client, Answered(reply), None, l.log + if reply.Answer? then [reply.message] else [])
    case (None, None) => l
  }

  function PassMany(env: Env, l: Link, n: nat): Link
    decreases n
  {
    if n == 0 then l else PassMany(env, Pass(env, l), n - 1)
  }

  lemma {:induction false} PassManyMore(env: Env, l: Link, m: nat, n: nat)
    ensures PassMany(env, l, m + n) == PassMany(env, PassMany(env, l, m), n)
    decreases m
  {
    if m > 0 {
      PassManyMore(env, Pass(env, l), m - 1, n);
    }
  }

  /** Quiescence lasts. */
  lemma {:induction false} QuietStays(env: Env, l: Link, n: nat)
    requires Quiet(l)
    ensures PassMany(env, l, n) == l
  {
    if n > 0 {
      QuietStays(env, l, n - 1);
    }
  }

  /** The number of chunks that n bytes are sent in: n / 2000, rounded up. */
  function Chunks(n: nat): nat { (n + JUNK_SIZE_MAX - 1) / JUNK_SIZE_MAX }

  function DataMessages(log: seq<Transfer>): nat {
    if log == [] then 0
    else DataMessages(log[..|log| - 1]) + if log[|log| - 1].func == DATA then 1 else 0
  }

  lemma DataMessagesMore(log: seq<Transfer>, t: Transfer)
    ensures DataMessages(log + [t]) == DataMessages(log) + if t.func == DATA then 1 else 0
  {
    assert (log + [t])[..|log|] == log;
  }

  /** The link when the server is about to be asked for the next chunk. */
  predicate Asking(l: Link, func: ushort) {
    && l.toServer.Some? && l.toServer.value.fileType == AXCESS2_TOKENS && l.toServer.value.func == func
    && (func == GET_FILE ==> |l.toServer.value.data| >= 4)
    && l.toClient.None?
  }

  lemma ChunkSent(env: Env, l: Link, func: ushort)
    requires func in {GET_FILE, ACK} && Asking(l, func) && Remaining(l.server) != []
    ensures var rest := Remaining(l.server);
            var n := Min(|rest|, JUNK_SIZE_MAX);
            var chunk := Chunk(rest[..n]);
            Pass(env, l) == Link(l.server.(bufferSend := Some(rest[n..])), l.client, None, Some(chunk), l.log + [chunk])
  {
    hide Chunk, Open, Start, TakeData, Stored, Stateless, ProcessUnused;
  }

  lemma ChunkReceived(env: Env, l: Link, bytes: seq<byte>)
    requires l.toServer.None? && l.toClient == Some(Chunk(bytes)) && |bytes| <= JUNK_SIZE_MAX
    ensures var ack := Message(ACK, []);
            Pass(env, l) == Link(l.server, l.client.(bufferData := Append(l.client.bufferData, bytes)), Some(ack), None,
                                 l.log + [ack])
  {
    hide Payload, Open, Start, SendChunk, Stored, Stateless, ProcessUnused, Be16;
    ChunkPayload(bytes);
  }

  /** One chunk crosses and is acknowledged. */
  lemma ChunkCrosses(env: Env, l: Link, func: ushort)
    requires func in {GET_FILE, ACK} && Asking(l, func) && Remaining(l.server) != []
    ensures var rest := Remaining(l.server);
            var n := Min(|rest|, JUNK_SIZE_MAX);
            var after := PassMany(env, l, 2);
            && Asking(after, ACK)
            && after.server == l.server.(bufferSend := Some(rest[n..]))
            && after.client == l.client.(bufferData := Append(l.client.bufferData, rest[..n]))
            && DataMessages(after.log) == DataMessages(l.log) + 1
  {
    hide Pass, DataMessages, Append;
    var rest := Remaining(l.server);
    var n := Min(|rest|, JUNK_SIZE_MAX);
    var chunk, ack := Chunk(rest[..n]), Message(ACK, []);
    ChunkSent(env, l, func);
    var mid := Pass(env, l);
    ChunkReceived(env, mid, rest[..n]);
    DataMessagesMore(l.log, chunk);
    DataMessagesMore(l.log + [chunk], ack);
    assert PassMany(env, l, 2) == PassMany(env, mid, 1) == Pass(env, mid);
  }

  /** With nothing left to send, completion is announced, the file is stored, and that is the end. */
  lemma CompletionCrosses(env: Env, l: Link)
    requires Asking(l, ACK) && Remaining(l.server) == []
    ensures var end := PassMany(env, l, 3);
            && Quiet(end)
            && end.server == l.server.(bufferSend := None)
            && end.client == l.client.(files := Stored(env, l.client))
            && DataMessages(end.log) == DataMessages(l.log)
  {
    var complete, done := Message(DATA_COMPLETE, []), Message(DATA_COMPLETE_ACK, []);
    var l1 := Pass(env, l);
    var l2 := Pass(env, l1);
    var l3 := Pass(env, l2);
    assert l1 == Link(l.server.(bufferSend := None), l.client, None, Some(complete), l.log + [complete]);
    assert l2 == Link(l1.server, l.client.(files := Stored(env, l.client)), Some(done), None, l1.log + [done]);
    assert l3 == Link(l2.server, l2.client, None, None, l2.log);
    DataMessagesMore(l.log, complete);
    DataMessagesMore(l1.log, done);
    assert PassMany(env, l, 3) == PassMany(env, l1, 2) == PassMany(env, l2, 1) == l3;
  }

  lemma ChunksOfRest(n: nat)
    ensures n == 0 ==> Chunks(n) == 0
    ensures n > 0 ==> Chunks(n) == 1 + Chunks(n - Min(n, JUNK_SIZE_MAX))
  {
  }

  /** The client when the transfer is over. */
  function Done(env: Env, client: Fm, file: seq<byte>): Fm {
    var full := client.(bufferData := Append(client.bufferData, file));
    full.(files := Stored(env, full))
  }

  lemma {:induction false} AllChunksCross(env: Env, l: Link, func: ushort)
    requires Asking(l, func) && (func == ACK || (func == GET_FILE && Remaining(l.server) != []))
    ensures var rest := Remaining(l.server);
            var end := PassMany(env, l, 2 * Chunks(|rest|) + 3);
            && Quiet(end)
            && end.server == l.server.(bufferSend := None)
            && end.client == Done(env, l.client, rest)
            && DataMessages(end.log) == DataMessages(l.log) + Chunks(|rest|)
    decreases |Remaining(l.server)|
  {
    hide Pass, Stored, PassMany, DataMessages, Chunks;
    var rest := Remaining(l.server);
    ChunksOfRest(|rest|);
    if rest == [] {
      CompletionCrosses(env, l);
      assert l.client.bufferData.Some? ==> l.client.bufferData.value + [] == l.client.bufferData.value;
    } else {
      var n := Min(|rest|, JUNK_SIZE_MAX);
      ChunkCrosses(env, l, func);
      var after := PassMany(env, l, 2);
      AllChunksCross(env, after, ACK);
      PassManyMore(env, l, 2, 2 * Chunks(|rest| - n) + 3);
      assert rest == rest[..n] + rest[n..];
      if l.client.bufferData.Some? {
        var got := l.client.bufferData.value;
        assert got + rest[..n] + rest[n..] == got + rest;
      }
    }
  }

  function AccessRequest(data: seq<byte>): Transfer { Message(GET_FILE_ACCESS_TOKEN, data) }

  function Linked(server: Fm, client: Fm, request: Transfer): Link { Link(server, client, Some(request), None, []) }

  /** The server opens the file and the client asks for its data. */
  lemma OpenCrosses(env: Env, server: Fm, client: Fm, data: seq<byte>)
    requires Requested(env, server.files, data).Some?
    ensures var after := PassMany(env, Linked(server, client, AccessRequest(data)), 2);
            && Asking(after, GET_FILE)
            && after.server == Open(env, server, data).0
            && after.server.bufferSend == Requested(env, server.files, data)
            && after.client == client
            && DataMessages(after.log) == 0
  {
    hide Be16, Be32, GetBe32, WithVersion;
    var l := Linked(server, client, AccessRequest(data));
    var mid := Pass(env, l);
    var after := Pass(env, mid);
    assert mid.toClient.Some? && mid.toClient.value.func == GET_FILE_ACCESS_TOKEN_ACK
           && |mid.toClient.value.data| == 8;
    assert after.log == [] + [mid.toClient.value] + [after.toServer.value];
    DataMessagesMore([], mid.toClient.value);
    DataMessagesMore([] + [mid.toClient.value], after.toServer.value);
    assert PassMany(env, l, 2) == PassMany(env, mid, 1) == after;
  }

  /** A file that is not there, or a request too short to read, ends the exchange at once. */
  lemma MissingFileRefused(env: Env, server: Fm, client: Fm, data: seq<byte>)
    requires Requested(env, server.files, data).None?
    ensures var end := PassMany(env, Linked(server, client, AccessRequest(data)), 2);
            && Quiet(end) && end.client == client && end.server == Open(env, server, data).0
            && end.log == (if |data| < 2 then [] else [Error(OPEN_ERROR)])
            && DataMessages(end.log) == 0
  {
    hide Be16, WithVersion;
    var l := Linked(server, client, AccessRequest(data));
    var l1 := Pass(env, l);
    var l2 := Pass(env, l1);
    assert PassMany(env, l, 2) == PassMany(env, l1, 1) == l2;
    DataMessagesMore([], Error(OPEN_ERROR));
    assert [] + [Error(OPEN_ERROR)] == [Error(OPEN_ERROR)];
  }

  /** An empty file is answered like a missing one, and nothing was transferred. */
  lemma EmptyFileRefused(env: Env, l: Link)
    requires Asking(l, GET_FILE) && Remaining(l.server) == []
    ensures var end := PassMany(env, l, 2);
            && Quiet(end) && end.server == l.server && end.client == l.client
            && end.log == l.log + [Error(OPEN_ERROR)]
            && DataMessages(end.log) == DataMessages(l.log)
  {
    var l1 := Pass(env, l);
    var l2 := Pass(env, l1);
    assert l1 == Link(l.server, l.client, None, Some(Error(OPEN_ERROR)), l.log + [Error(OPEN_ERROR)]);
    assert l2 == Link(l.server, l.client, None, None, l1.log);
    DataMessagesMore(l.log, Error(OPEN_ERROR));
    assert PassMany(env, l, 2) == PassMany(env, l1, 1) == l2;
  }

  /** The number of messages handled from the access request to quiescence. */
  function Passes(file: Option<seq<byte>>): nat {
    if file.None? then 2 else if file.value == [] then 4 else 2 * Chunks(|file.value|) + 5
  }

  /** The end of an exchange that starts with an access request. */
  function Exchange(env: Env, server: Fm, client: Fm, data: seq<byte>): Link {
    PassMany(env, Linked(server, client, AccessRequest(data)), Passes(Requested(env, server.files, data)))
  }

  /** A transfer between any two managers ends, whatever is asked for. A non-empty file crosses in exactly
      ceil(n / 2000) data messages, is appended to the client's buffer and stored; otherwise nothing crosses, and
      an empty file is refused with a Nak. */
  lemma TwoPartyTransfer(env: Env, server: Fm, client: Fm, data: seq<byte>)
    ensures var end := Exchange(env, server, client, data);
            && Quiet(end)
            && match Requested(env, server.files, data)
               case None => DataMessages(end.log) == 0 && end.client == client
               case Some(file) =>
                 && DataMessages(end.log) == Chunks(|file|)
                 && if file == [] then
                      end.client == client && end.log != [] && end.log[|end.log| - 1] == Error(OPEN_ERROR)
                    else
                      end.client == Done(env, client, file)
                      && end.server == Open(env, server, data).0.(bufferSend := None)
  {
    hide Pass, PassMany, Done, DataMessages, Chunks, Asking, Open, Requested;
    var l := Linked(server, client, AccessRequest(data));
    if Requested(env, server.files, data).None? {
      MissingFileRefused(env, server, client, data);
    } else {
      OpenCrosses(env, server, client, data);
      var asked := PassMany(env, l, 2);
      var file := Remaining(asked.server);
      ChunksOfRest(|file|);
      if file == [] {
        EmptyFileRefused(env, asked);
        PassManyMore(env, l, 2, 2);
      } else {
        AllChunksCross(env, asked, GET_FILE);
        PassManyMore(env, l, 2, 2 * Chunks(|file|) + 3);
      }
    }
  }

  /** A name that survives the encoding is the name that is looked up. */
  lemma RequestedByName(env: Env, files: map<Name, seq<byte>>, name: Name)
    requires Clean(name) && name in files
    ensures Requested(env, files, Be16(JUNK_SIZE_MAX) + name + [NUL]) == Some(files[name])
  {
    NullStrRoundTrip(Be16(JUNK_SIZE_MAX), name, []);
    assert Be16(JUNK_SIZE_MAX) + name + [NUL] == Be16(JUNK_SIZE_MAX) + name + [NUL] + [];
  }

  /** A client that was just started ends with exactly the file in its buffer, and under its own name for it if
      that is one whose files are written as received. */
  lemma StartedClientReceives(env: Env, server: Fm, client: Fm, name: Name, target: Name)
    requires Clean(name) && name in server.files && server.files[name] != []
    requires client.bufferData == Some([]) && client.nameData == Some(target)
    ensures var file := server.files[name];
            var end := Exchange(env, server, client, Be16(JUNK_SIZE_MAX) + name + [NUL]);
            && Quiet(end) && end.client.bufferData == Some(file)
            && DataMessages(end.log) == Chunks(|file|)
            && (!Converted(target) ==> end.client.files == client.files[target := file])
  {
    hide Exchange, Requested, Converted, DataMessages, Chunks;
    RequestedByName(env, server.files, name);
    TwoPartyTransfer(env, server, client, Be16(JUNK_SIZE_MAX) + name + [NUL]);
    assert [] + server.files[name] == server.files[name];
  }

  /** From the announcement to the file on disk: any client that is sent the name of the file, and then the file by any
      server that has it, comes to rest with exactly the file in its buffer after ceil(n / 2000) data messages, and
      with the file under the announced name, if its extension is not one that is converted. */
  lemma TransferReproducesFile(env: Env, server: Fm, client: Fm, name: Name, size: seq<byte>, token: seq<byte>,
                               target: Name)
    requires Clean(name) && name in server.files && server.files[name] != []
    requires Clean(target) && |size| == 4 && |token| == 4
    ensures var file := server.files[name];
            var started := Respond(env, client, Transfer(4, 0x102, size + token + target + [0])).0;
            var end := Exchange(env, server, started, [0x07, 0xD0] + name + [0]);
            && Quiet(end) && end.client.bufferData == Some(file)
            && DataMessages(end.log) == (|file| + 1999) / 2000
            && (Extension(target) !in {Ascii(".xma"), Ascii(".xml")} ==>
                  end.client.files == client.files[target := file])
  {
    hide Exchange, DataMessages, Respond, Extension, Ascii;
    StartSetsName(env, client, size, token, target, []);
    assert size + token + target + [0] + [] == size + token + target + [0];
    StartedClientReceives(env, server, client.(nameData := Some(target), bufferData := Some([])), name, target);
    assert Be16(JUNK_SIZE_MAX) == [0x07, 0xD0];
  }

  // ----- the manager object -----

  class FileManager {
    const env: Env
    var mBufferData: Option<seq<byte>>
    var mBufferSend: Option<seq<byte>>
    var mCurrentFileNameData: Option<Name>
    var mCurrentFileNameSend: Option<Name>
    /** The files under the base directory. */
    var files: map<Name, seq<byte>>
    var dirs: set<Name>

    ghost function State(): Fm
      reads this
    {
      Fm(mBufferData, mBufferSend, mCurrentFileNameData, mCurrentFileNameSend, files, dirs)
    }

    constructor (env: Env, files: map<Name, seq<byte>>, dirs: set<Name>)
      ensures this.env == env && State() == Initial(files, dirs)
    {
      this.env, this.files, this.dirs := env, files, dirs;
      mBufferData, mBufferSend, mCurrentFileNameData, mCurrentFileNameSend := None, None, None, None;
    }

    method NextChunk() returns (reply: Reply)
      requires Remaining(State()) != []
      modifies this`mBufferSend
      ensures (State(), reply) == SendChunk(old(State()))
    {
      var lJunkSize := Min(|mBufferSend.value|, JUNK_SIZE_MAX);
      var lBytes := mBufferSend.value[..lJunkSize];
      mBufferSend := Some(mBufferSend.value[lJunkSize..]);
      reply := Answer(Chunk(lBytes));
    }

    method TransferGetFileAccessToken(data: seq<byte>) returns (reply: Reply)
      modifies this`mBufferSend, this`mCurrentFileNameSend, this`files
      ensures (State(), reply) == Open(env, old(State()), data)
    {
      hide Be16, Be32;
      if |data| < 2 {
        return Throws;
      }
      var lName := GetNullStr(data, 2);
      if lName.Thrown? {
        return Throws;
      }
      mCurrentFileNameSend := Some(lName.value.0);
      if lName.value.0 == VERSION_FILE && lName.value.0 !in files {
        files := files[lName.value.0 := env.version];
      }
      if lName.value.0 !in files {
        return Answer(Error(OPEN_ERROR));
      }
      mBufferSend := Some(files[lName.value.0]);
      return Answer(Message(GET_FILE_ACCESS_TOKEN_ACK, Be32(ToInt32(|mBufferSend.value|)) + ACCESS_TOKEN));
    }

    method TransferFileDataComplete() returns (reply: Reply)
      modifies this`files
      ensures State() == old(State()).(files := Stored(env, old(State())))
      ensures reply == Answer(Message(DATA_COMPLETE_ACK, []))
    {
      reply := Answer(Message(DATA_COMPLETE_ACK, []));
      if mCurrentFileNameData.None? {
        return;
      }
      var name := mCurrentFileNameData.value;
      if Converted(name) {
        var lRawData := if mBufferData.Some? then mBufferData.value else [];
        if |lRawData| < 2 {
          return;
        }
        var lMagicByte := GetBe16(lRawData, 0);
        if lMagicByte == MAGIC_GZIP_ENCRYPTED {
          files := files[name := lRawData];
          return;
        }
        var lText := lRawData;
        if lMagicByte == MAGIC_GZIP {
          var lUnzipped := env.gunzip(lRawData);
          lText := if lUnzipped.Some? then lUnzipped.value else lRawData;
        }
        var lXml := env.saveXml(lText);
        files := files[name := if lXml.Some? then lXml.value else mBufferData.value];
      } else if mBufferData.Some? {
        files := files[name := mBufferData.value];
      }
    }

    method ProcessFileTransferDisk(func: ushort, data: seq<byte>) returns (reply: Reply)
      modifies this
      ensures (State(), reply) == Process(env, old(State()), func, data)
    {
      hide Be16, Be32, GetBe16, GetNullStr, Stored, Open, Stateless;
      if func == SINGLE_FILE_INFO {
        if |data| < 8 || GetNullStr(data, 8).Thrown? {
          return Throws;
        }
        mCurrentFileNameData := Some(GetNullStr(data, 8).value.0);
        mBufferData := Some([]);
        reply := Answer(Message(SINGLE_FILE_INFO_ACK, Be16(JUNK_SIZE_MAX) + ACCESS_TOKEN));
      } else if func == GET_FILE_ACCESS_TOKEN {
        reply := TransferGetFileAccessToken(data);
      } else if func == GET_FILE {
        if |data| < 4 {
          return Throws;
        }
        if mBufferSend.Some? && |mBufferSend.value| > 0 {
          reply := NextChunk();
        } else {
          reply := Answer(Error(OPEN_ERROR));
        }
      } else if func == ACK {
        if mBufferSend.Some? && |mBufferSend.value| > 0 {
          reply := NextChunk();
        } else {
          mBufferSend := None;
          reply := Answer(Message(DATA_COMPLETE, []));
        }
      } else if func == DATA {
        if |data| < 2 {
          return Throws;
        }
        if mBufferData.Some? {
          var lJunk := Payload(data);
          if lJunk.None? {
            return Throws;
          }
          mBufferData := Some(mBufferData.value + lJunk.value);
        }
        reply := Answer(Message(ACK, []));
      } else if func == DATA_COMPLETE {
        reply := TransferFileDataComplete();
      } else {
        reply := ProcessStateless(func, data);
      }
    }

    /** The functions that read their data and answer without touching the fields. */
    method ProcessStateless(func: ushort, data: seq<byte>) returns (reply: Reply)
      ensures reply == Stateless(func, data)
    {
      hide Be32, GetBe16, GetBe32;
      if func == SINGLE_FILE {
        reply := Answer(Message(SINGLE_FILE_ACK, [0x7F, 0xFF, 0xFF, 0xFF, 0, 0, 0, 0]));
      } else if func == SINGLE_FILE_INFO_ACK {
        if |data| < 2 {
          return Throws;
        }
        var lJunkSize := GetBe16(data, 0);
        if |data| < 6 {
          return Throws;
        }
        var lToken := data[2..6];
        reply := Silent;
      } else if func == GET_FILE_ACCESS_TOKEN_ACK {
        if |data| < 4 {
          return Throws;
        }
        var lFileSize := GetBe32(data, 0);
        if |data| < 8 {
          return Throws;
        }
        var lToken := data[4..8];
        reply := Answer(Message(GET_FILE, Be32(lFileSize)));
      } else if func == NAK || func == FILES_INITIALIZE {
        if |data| < 2 {
          return Throws;
        }
        var lValue := GetBe16(data, 0);
        reply := Silent;
      } else {
        reply := Silent;
      }
    }

    method CreateDirectory(directory: Name) returns (reply: Reply)
      modifies this`dirs
      ensures dirs == if directory in old(dirs) then old(dirs) else old(dirs) + {directory}
      ensures reply == Answer(if directory in old(dirs) then Transfer(UNUSED, NAK, Be16(DIRECTORY_ALREADY_EXISTS))
                              else Transfer(UNUSED, ACK, []))
    {
      if directory in dirs {
        return Answer(Transfer(UNUSED, NAK, Be16(DIRECTORY_ALREADY_EXISTS)));
      }
      dirs := dirs + {directory};
      return Answer(Transfer(UNUSED, ACK, []));
    }

    /** The directory functions of file type Unused. */
    method GetUnusedResponse(func: ushort, data: seq<byte>) returns (reply: Reply)
      modifies this`dirs
      ensures (State(), reply) == ProcessUnused(old(State()), func, data)
    {
      hide Be16, GetBe16, FindZero, TrimEnd;
      var lAck := Answer(Transfer(UNUSED, ACK, []));
      if func == NAK {
        if |data| < 2 {
          return Throws;
        }
        var lErrorCode := GetBe16(data, 0);
        reply := Silent;
      } else if func == DIR_GET {
        var lPath := GetNullStr(data, 2);
        reply := if lPath.Thrown? then Throws else Silent;
      } else if func == DIR_HEADER {
        var lFullPath := GetNullStr(data, 16);
        reply := if lFullPath.Thrown? then Throws else lAck;
      } else if func == DIR_ENTRY {
        var lFileName := GetNullStr(data, 19);
        reply := if lFileName.Thrown? then Throws else lAck;
      } else if func == FILE_REMOVE {
        var lFileName := GetNullStr(data, 0);
        reply := if lFileName.Thrown? then Throws else lAck;
      } else if func == DIR_CREATE {
        var lDirectory := GetNullStr(data, 0);
        if lDirectory.Thrown? {
          return Throws;
        }
        reply := CreateDirectory(lDirectory.value.0);
      } else {
        reply := lAck;
      }
    }

    method GetResponse(t: Transfer) returns (reply: Reply)
      modifies this
      ensures (State(), reply) == Respond(env, old(State()), t)
    {
      hide Process, ProcessUnused, Be16;
      if t.fileType == AXCESS2_TOKENS {
        reply := ProcessFileTransferDisk(t.func, t.data);
      } else if t.fileType == UNUSED {
        reply := GetUnusedResponse(t.func, t.data);
      } else {
        reply := Answer(Error(UNSUPPORTED_TYPE));
      }
    }
  }
}
