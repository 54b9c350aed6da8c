/** The directory listing: one header message and one entry message per item. */
module Directories {
  import opened Bytes
  import opened FileTransfers

  const FILE: ushort := 0
  const DIRECTORY: ushort := 1

  type Stamp = s: seq<byte> | |s| == 7 witness [0, 0, 0, 0, 0, 0, 0]

  datatype Item = Item(kind: ushort, name: Name, size: int32, stamp: Stamp)

  const HEADER: seq<byte> := [0, 0, 0, 0, 0, 0, 0x10, 0, 0, 0x33, 0x8d, 0x83, 0, 0x30, 0x7b, 0x66]

  const NO_STAMP: Stamp := [0, 0, 0, 0, 0, 0, 0]

  /** What an empty directory lists. */
  const PLACEHOLDER: Item := Item(FILE, Ascii("?"), 0, NO_STAMP)

  function Header(path: Name): seq<byte> { HEADER + path + [NUL] }

  function Entry(item: Item, count: ushort, no: ushort): seq<byte> {
    [0, 0] + Be16(item.kind) + Be16(count) + Be16(no) + Be32(item.size) + item.stamp + item.name + [NUL]
  }

  /** The count is cut to 16 bits, and a count of zero calls for the placeholder. */
  function Listed(items: seq<Item>): seq<Item> {
    if ToUShort(|items|) == 0 then items + [PLACEHOLDER] else items
  }

  /** The number before the first entry: with a zero count it is -1 as an unsigned number. */
  function BeforeFirst(items: seq<Item>): ushort { if ToUShort(|items|) > 0 then 0 else 0xFFFF }

  function Entries(items: seq<Item>): (r: seq<seq<byte>>)
    ensures |r| == |Listed(items)|
  {
    seq(|Listed(items)|, k requires 0 <= k < |Listed(items)| =>
      Entry(Listed(items)[k], ToUShort(|items|), ToUShort(BeforeFirst(items) + k + 1)))
  }

  // ----- reading it back -----

  /** DirHeader. */
  function PathOf(header: seq<byte>): Outcome<Name> {
    match GetNullStr(header, 16)
    case Thrown => Thrown
    case Returned(r) => Returned(r.0)
  }

  /** DirEntry. */
  function NameOf(entry: seq<byte>): Outcome<Name> {
    match GetNullStr(entry, 19)
    case Thrown => Thrown
    case Returned(r) => Returned(r.0)
  }

  lemma EntryLayout(item: Item, count: ushort, no: ushort)
    ensures var e := Entry(item, count, no);
            && |e| == 20 + |item.name|
            && GetBe16(e, 2) == item.kind && GetBe16(e, 4) == count && GetBe16(e, 6) == no
            && GetBe32(e, 8) == item.size && e[12..19] == item.stamp
  {
    hide High, Low, Word, Be32, GetBe32;
    WordHalves();
    var e := Entry(item, count, no);
    assert e[8..12] == Be32(item.size);
    Be32RoundTrip(item.size);
    Be32Shifted(e, 8);
  }

  lemma Be32Shifted(b: seq<byte>, i: nat)
    requires i + 4 <= |b|
    ensures GetBe32(b, i) == GetBe32(b[i..i + 4], 0)
  {
  }

  /** An entry gives its name back exactly when the name holds no NUL and does not end in a space. */
  lemma EntryName(item: Item, count: ushort, no: ushort)
    ensures NameOf(Entry(item, count, no)) == Returned(item.name) <==> Clean(item.name)
  {
    hide Be16, Be32, Clean;
    var front := [0, 0] + Be16(item.kind) + Be16(count) + Be16(no) + Be32(item.size) + item.stamp;
    assert Entry(item, count, no) == front + item.name + [NUL] + [];
    NullStrRoundTrip(front, item.name, []);
    NullStrEnd(front, item.name);
  }

  lemma NullStrEnd(front: seq<byte>, name: seq<byte>)
    ensures var r := GetNullStr(front + name + [NUL] + [], |front|);
            r.Returned? && (r.value.0 == name ==> r.value.1 == |front| + |name| + 1)
  {
    var b := front + name + [NUL] + [];
    assert b[|front| + |name|] == NUL;
    var k := FindZero(b, |front|);
    ZeroFound(b, |front|, |front| + |name|);
    if k < |front| + |name| {
      assert |TrimEnd(b[|front|..k])| <= k - |front|;
    }
  }

  lemma {:induction false} ZeroFound(b: seq<byte>, from: nat, z: nat)
    requires from <= z < |b| && b[z] == NUL
    ensures FindZero(b, from) <= z
    decreases z - from
  {
    if from < z {
      ZeroFound(b, from + 1, z);
    }
  }

  lemma HeaderPath(path: Name)
    ensures PathOf(Header(path)) == Returned(path) <==> Clean(path)
  {
    hide Clean;
    assert Header(path) == HEADER + path + [NUL] + [];
    NullStrRoundTrip(HEADER, path, []);
    NullStrEnd(HEADER, path);
  }

  /** Entries numbered 1 to n of n, in the order of the items. */
  ghost predicate Numbered(entries: seq<seq<byte>>, n: nat) {
    && |entries| == n
    && forall k | 0 <= k < n :: |entries[k]| >= 8 && GetBe16(entries[k], 4) == n && GetBe16(entries[k], 6) == k + 1
  }

  /** The numbering is right for 1 to 65535 items and for no other number. */
  lemma NumberedIff(items: seq<Item>)
    ensures Numbered(Entries(items), |items|) <==> 1 <= |items| <= 0xFFFF
  {
    hide Entry, GetBe16;
    var entries := Entries(items);
    forall k | 0 <= k < |entries|
      ensures |entries[k]| >= 8 && GetBe16(entries[k], 4) == ToUShort(|items|)
      ensures GetBe16(entries[k], 6) == ToUShort(BeforeFirst(items) + k + 1)
    {
      EntryLayout(Listed(items)[k], ToUShort(|items|), ToUShort(BeforeFirst(items) + k + 1));
    }
    if |items| > 0xFFFF {
      assert ToUShort(|items|) != |items|;
      assert |entries[0]| >= 8 && GetBe16(entries[0], 4) == ToUShort(|items|);
    }
  }

  /** A listing of clean names is read back: the path, and all names in order; an empty directory is one entry
      numbered 0 of 0 and named with a question mark. */
  lemma ListingRoundTrip(path: Name, items: seq<Item>)
    requires Clean(path) && |items| <= 0xFFFF && forall k | 0 <= k < |items| :: Clean(items[k].name)
    ensures PathOf(Header(path)) == Returned(path)
    ensures items != [] ==>
              && Numbered(Entries(items), |items|)
              && forall k | 0 <= k < |items| :: NameOf(Entries(items)[k]) == Returned(items[k].name)
    ensures items == [] ==>
              && Entries(items) == [Entry(PLACEHOLDER, 0, 0)]
              && NameOf(Entries(items)[0]) == Returned(Ascii("?"))
  {
    hide Entry, NameOf, Clean, PathOf, Numbered;
    HeaderPath(path);
    NumberedIff(items);
    forall k | 0 <= k < |items|
      ensures items != [] ==> NameOf(Entries(items)[k]) == Returned(items[k].name)
    {
      EntryName(items[k], ToUShort(|items|), ToUShort(BeforeFirst(items) + k + 1));
    }
    if items == [] {
      EntryName(PLACEHOLDER, 0, 0);
      PlaceholderIsClean();
    }
  }

  lemma PlaceholderIsClean()
    ensures Clean(PLACEHOLDER.name)
  {
    assert PLACEHOLDER.name == [0x3F];
  }

  // ----- what is sent -----

  /** The foreign part: the full name of a directory, and its items when it can be read. */
  datatype Disk = Disk(fullName: Name -> Name, items: Name -> Option<seq<Item>>)

  /** The header is sent before the directory is read, so it is all that a directory which cannot be read lists. */
  function Listing(path: Name, found: Option<seq<Item>>): seq<Transfer> {
    [Transfer(UNUSED, DIR_HEADER, Header(path))] + if found.Some? then EntryMessages(found.value) else []
  }

  function EntryMessages(items: seq<Item>): (r: seq<Transfer>)
    ensures |r| == |Listed(items)|
  {
    seq(|Listed(items)|, k requires 0 <= k < |Listed(items)| => Transfer(UNUSED, DIR_ENTRY, Entries(items)[k]))
  }

  /** Everything that is sent for an incoming message: a listing if it asks for one, and the answer if there is one. */
  function Sent(env: Env, disk: Disk, fm: Fm, t: Transfer): seq<Transfer> {
    var reply := Respond(env, fm, t).1;
    (if t.fileType == UNUSED && t.func == DIR_GET && GetNullStr(t.data, 2).Returned? then
       var path := GetNullStr(t.data, 2).value.0;
       Listing(disk.fullName(path), disk.items(path))
     else [])
    + if reply.Answer? then [reply.message] else []
  }

  function ListingRequest(path: Name): Transfer { Transfer(UNUSED, DIR_GET, [0, 0] + path + [NUL]) }

  lemma ListingRequested(env: Env, disk: Disk, fm: Fm, path: Name)
    requires Clean(path)
    ensures Sent(env, disk, fm, ListingRequest(path)) == Listing(disk.fullName(path), disk.items(path))
  {
    hide Listing;
    NullStrRoundTrip([0, 0], path, []);
    assert [0, 0] + path + [NUL] + [] == [0, 0] + path + [NUL];
    assert Listing(disk.fullName(path), disk.items(path)) + [] == Listing(disk.fullName(path), disk.items(path));
  }

  /** A path without a terminator is the empty path, and a request too short for one lists nothing. */
  lemma UnnamedListing(env: Env, disk: Disk, fm: Fm, data: seq<byte>)
    ensures |data| < 2 ==> Sent(env, disk, fm, Transfer(0, 0x100, data)) == []
    ensures |data| >= 2 && NoNul(data[2..]) ==>
              Sent(env, disk, fm, Transfer(0, 0x100, data)) == Listing(disk.fullName([]), disk.items([]))
  {
    hide NoNul, Listing, FindZero, TrimEnd;
    NullStrUnterminated(data, 2);
    var listing := Listing(disk.fullName([]), disk.items([]));
    assert listing + [] == listing;
  }

  /** Who asks for a listing by a clean path, and decodes all that comes back, has the full path and the names of
      all items in order; of a directory that cannot be read, only the path. */
  lemma ListingRequestRoundTrip(env: Env, disk: Disk, fm: Fm, path: Name)
    requires Clean(path) && Clean(disk.fullName(path))
    requires disk.items(path).Some? ==>
               && |disk.items(path).value| <= 0xFFFF
               && forall k | 0 <= k < |disk.items(path).value| :: Clean(disk.items(path).value[k].name)
    ensures var sent := Sent(env, disk, fm, ListingRequest(path));
            && sent != [] && sent[0].func == DIR_HEADER && PathOf(sent[0].data) == Returned(disk.fullName(path))
            && match disk.items(path)
               case None => |sent| == 1
               case Some(items) =>
                 && |sent| == 1 + |Listed(items)|
                 && forall k | 0 <= k < |Listed(items)| ::
                      sent[1 + k].func == DIR_ENTRY && NameOf(sent[1 + k].data) == Returned(Listed(items)[k].name)
  {
    hide Sent, Entry, NameOf, PathOf, Header, Clean;
    ListingRequested(env, disk, fm, path);
    HeaderPath(disk.fullName(path));
    if disk.items(path).Some? {
      var items := disk.items(path).value;
      PlaceholderIsClean();
      forall k | 0 <= k < |Listed(items)|
        ensures NameOf(Entries(items)[k]) == Returned(Listed(items)[k].name)
      {
        assert Clean(Listed(items)[k].name);
        EntryName(Listed(items)[k], ToUShort(|items|), ToUShort(BeforeFirst(items) + k + 1));
      }
    }
  }

  lemma EntryMessageAt(items: seq<Item>, k: nat)
    requires k < |Listed(items)|
    ensures var no := ToUShort(BeforeFirst(items) + k + 1);
            EntryMessages(items)[k] == Transfer(UNUSED, DIR_ENTRY, Entry(Listed(items)[k], ToUShort(|items|), no))
  {
    hide Entry, Listed;
    assert EntryMessages(items)[k] == Transfer(UNUSED, DIR_ENTRY, Entries(items)[k]);
  }

  lemma NextNo(n: int)
    ensures ToUShort(ToUShort(n) + 1) == ToUShort(n + 1)
  {
  }

  lemma FirstNo(items: seq<Item>)
    ensures ToUShort(BeforeFirst(items)) == ToUShort(if ToUShort(|items|) > 0 then 0 else -1)
  {
  }

  /** The sending loop. */
  method GetDirectoryInfo(path: Name, found: Option<seq<Item>>) returns (sent: seq<Transfer>)
    ensures sent == Listing(path, found)
  {
    hide Entry, Header, ToUShort, BeforeFirst;
    sent := [Transfer(UNUSED, DIR_HEADER, Header(path))];
    if found.None? {
      return;
    }
    var lItems := found.value;
    var lItemCount := ToUShort(|lItems|);
    var lItemNo: int := ToUShort(if lItemCount > 0 then 0 else -1);
    if lItemCount == 0 {
      lItems := lItems + [PLACEHOLDER];
    }
    FirstNo(found.value);
    ghost var first, goal := sent, EntryMessages(found.value);
    for k := 0 to |lItems|
      invariant lItemNo == ToUShort(BeforeFirst(found.value) + k)
      invariant sent == first + goal[..k]
    {
      NextNo(BeforeFirst(found.value) + k);
      lItemNo := ToUShort(lItemNo + 1);
      var lMessage := Transfer(UNUSED, DIR_ENTRY, Entry(lItems[k], lItemCount, lItemNo));
      EntryMessageAt(found.value, k);
      assert goal[..k + 1] == goal[..k] + [lMessage];
      sent := sent + [lMessage];
    }
    assert goal[..|lItems|] == goal;
  }

  /** A listing is sent while the request is handled, the answer afterwards. */
  method ProcessMessage(manager: FileManager, disk: Disk, t: Transfer) returns (sent: seq<Transfer>)
    modifies manager
    ensures manager.State() == Respond(manager.env, old(manager.State()), t).0
    ensures sent == Sent(manager.env, disk, old(manager.State()), t)
  {
    hide Respond, Listing;
    sent := [];
    if t.fileType == UNUSED && t.func == DIR_GET {
      var lPath := GetNullStr(t.data, 2);
      if lPath.Returned? {
        sent := GetDirectoryInfo(disk.fullName(lPath.value.0), disk.items(lPath.value.0));
      }
    }
    var lResponse := manager.GetResponse(t);
    if lResponse.Answer? {
      sent := sent + [lResponse.message];
    }
  }
}
