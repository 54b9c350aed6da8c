/** The stateful cipher with its salt/save/restore discipline, and the streaming transform nested in it. */
module Rc4Cipher {
  import opened Bytes
  import opened Rc4Stream

  // ----- the cipher as a value -----

  /** The working table and the copy that the key schedule saved. The indices restart with every block. */
  datatype Cipher = Cipher(table: Table, saved: Table)

  function Keyed(key: seq<byte>): Cipher
    requires key != []
  {
    Cipher(Ksa(key), Ksa(key))
  }

  /** The salt overwrites the first entries, so the table is in general no longer a permutation. */
  function Salted(t: Table, salt: seq<byte>): Table
    requires |salt| <= 256
  {
    salt + t[|salt|..]
  }

  /** Only the first entries are overwritten, one by one. */
  lemma SaltedAt(t: Table, salt: seq<byte>, k: nat)
    requires |salt| <= 256 && k < 256
    ensures Salted(t, salt)[k] == if k < |salt| then salt[k] else t[k]
  {
  }

  /** One block; a salt longer than the table throws. */
  function Transformed(c: Cipher, data: seq<byte>, salt: Option<seq<byte>>): Outcome<(seq<byte>, Cipher)> {
    match salt
    case None =>
      Returned((Crypt(Start(c.table), data), c.(table := After(Start(c.table), |data|).table)))
    case Some(s) =>
      if |s| > 256 then Thrown
      else Returned((Crypt(Start(Salted(c.table, s)), data), c.(table := c.saved)))
  }

  datatype Call = Call(data: seq<byte>, salt: Option<seq<byte>>)

  /** The cipher after a history of calls; a call that throws leaves it as it was. */
  function History(c: Cipher, calls: seq<Call>): Cipher {
    if calls == [] then c
    else
      var before := History(c, calls[..|calls| - 1]);
      var last := calls[|calls| - 1];
      match Transformed(before, last.data, last.salt)
      case Thrown => before
      case Returned(r) => r.1
  }

  lemma {:induction false} SavedTableNeverChanges(key: seq<byte>, calls: seq<Call>)
    requires key != []
    ensures History(Keyed(key), calls).saved == Ksa(key)
  {
    hide Ksa, Crypt, After;
    if calls != [] {
      SavedTableNeverChanges(key, calls[..|calls| - 1]);
    }
  }

  /** A salted call brings the keyed state back, even after unsalted calls have scrambled the table. */
  lemma SaltedCallRestores(key: seq<byte>, calls: seq<Call>, data: seq<byte>, salt: seq<byte>)
    requires key != [] && |salt| <= 256
    ensures History(Keyed(key), calls + [Call(data, Some(salt))]) == Keyed(key)
  {
    hide Ksa, Crypt, After;
    SavedTableNeverChanges(key, calls);
    assert (calls + [Call(data, Some(salt))])[..|calls|] == calls;
  }

  predicate AllSalted(calls: seq<Call>) {
    forall c | c in calls :: c.salt.Some?
  }

  lemma {:induction false} SaltedHistory(key: seq<byte>, calls: seq<Call>)
    requires key != [] && AllSalted(calls)
    ensures History(Keyed(key), calls) == Keyed(key)
  {
    if calls != [] {
      SaltedHistory(key, calls[..|calls| - 1]);
    }
  }

  /** After any salted history, a salted block depends on key, salt and data only, and undoes itself. */
  lemma SaltedBlock(key: seq<byte>, calls: seq<Call>, data: seq<byte>, salt: seq<byte>)
    requires key != [] && AllSalted(calls) && |salt| <= 256
    ensures var result := Crypt(Start(Salted(Ksa(key), salt)), data);
            var c := History(Keyed(key), calls);
            && Transformed(c, data, Some(salt)) == Returned((result, c))
            && Transformed(c, result, Some(salt)) == Returned((data, c))
  {
    SaltedHistory(key, calls);
    CryptInvolutive(Start(Salted(Ksa(key), salt)), data);
  }

  /** An unsalted block scrambles the table: already one byte does, unless entry 1 is 1 or names an entry that holds
      its own index. */
  lemma UnsaltedByteKeepsTable(c: Cipher, b: byte)
    ensures var after := Transformed(c, [b], None);
            after.Returned? && (after.value.1 == c <==> c.table[1] == 1 || c.table[c.table[1]] == c.table[1])
  {
    var p := Start(c.table);
    assert After(p, 1) == Next(After(p, 0)) == Next(p);
    var t := Next(p).table;
    var j := c.table[1];
    assert t == SwapAt(c.table, 1, j);
    if c.table[j] == j || j == 1 {
      assert t == c.table;
    } else {
      assert t[j] != c.table[j];
    }
  }

  // ----- the cipher as an object -----

  /** Swaps two array elements. */
  method Swap<T>(a: array<T>, x: int, y: int)
    requires 0 <= x < a.Length && 0 <= y < a.Length
    modifies a
    ensures a[..] == SwapAt(old(a[..]), x, y)
  {
    a[x], a[y] := a[y], a[x];
  }

  method FillIdentity(s: array<byte>)
    requires s.Length == 256
    modifies s
    ensures s[..] == Range(256)
  {
    for i := 0 to 256
      invariant forall k | 0 <= k < i :: s[k] == k
    {
      s[i] := i;
    }
  }

  /** The swap rounds, which SetKey and the transform's KSA share. */
  method Schedule(s: array<byte>, key: array<byte>)
    requires s.Length == 256 && s[..] == Range(256) && key.Length > 0 && key != s
    modifies s
    ensures s[..] == Ksa(key[..])
  {
    hide KsaFrom, Ksa;
    KsaStarts(key[..]);
    var j: int := 0;
    for i := 0 to 256
      invariant 0 <= j < 256
      invariant KsaFrom(s[..], key[..], i, j) == Ksa(key[..])
    {
      KsaStep(s[..], key[..], i, j);
      j := (j + s[i] + key[i % key.Length]) % 256;
      Swap(s, i, j);
    }
    KsaEnds(s[..], key[..], j);
  }

  class RC4 {
    var mI: int
    var mJ: int
    var mILast: int
    var mJLast: int
    const KeyValue: array<byte>
    const mKeyValueLast: array<byte>

    ghost predicate Valid()
      reads this
    {
      && KeyValue.Length == 256 && mKeyValueLast.Length == 256 && KeyValue != mKeyValueLast
      && 0 <= mI < 256 && 0 <= mJ < 256 && 0 <= mILast < 256 && 0 <= mJLast < 256
    }

    ghost function State(): Cipher
      requires Valid()
      reads this, KeyValue, mKeyValueLast
    {
      Cipher(KeyValue[..], mKeyValueLast[..])
    }

    ghost function Generator(): Prga
      requires Valid()
      reads this, KeyValue
    {
      Prga(KeyValue[..], mI, mJ)
    }

    constructor ()
      ensures Valid() && fresh(KeyValue) && fresh(mKeyValueLast)
      ensures State() == Cipher(seq(256, _ => 0), seq(256, _ => 0))
    {
      mI, mJ, mILast, mJLast := 0, 0, 0, 0;
      KeyValue := new byte[256](_ => 0);
      mKeyValueLast := new byte[256](_ => 0);
    }

    method SavePrivateKey()
      requires Valid()
      modifies this, mKeyValueLast
      ensures Valid() && State() == Cipher(old(State().table), old(State().table))
    {
      CopyAll(KeyValue, mKeyValueLast);
      mILast, mJLast := mI, mJ;
    }

    method RestorePrivateKey()
      requires Valid()
      modifies this, KeyValue
      ensures Valid() && State() == Cipher(old(State().saved), old(State().saved))
    {
      CopyAll(mKeyValueLast, KeyValue);
      mI, mJ := mILast, mJLast;
    }

    method UpdatePrivateKey(salt: array<byte>) returns (ok: bool)
      requires Valid()
      modifies KeyValue
      ensures ok <==> salt.Length <= 256
      ensures Valid()
      ensures State() == if ok then Cipher(Salted(old(State().table), old(salt[..])), old(State().saved))
                         else old(State())
    {
      ok := salt.Length <= 256;
      if ok {
        forall k | 0 <= k < salt.Length {
          KeyValue[k] := salt[k];
        }
        assert KeyValue[..] == Salted(old(KeyValue[..]), old(salt[..]));
      }
    }

    /** An empty key divides by zero in the first round, with the table reset but not saved. */
    method SetKey(rgbKey: array<byte>) returns (ok: bool)
      requires Valid()
      modifies this, KeyValue, mKeyValueLast
      ensures ok <==> rgbKey.Length > 0
      ensures Valid()
      ensures State() == if ok then Keyed(old(rgbKey[..])) else Cipher(Range(256), old(State().saved))
    {
      var lKey := new byte[rgbKey.Length];
      CopyAll(rgbKey, lKey);
      FillIdentity(KeyValue);
      if lKey.Length == 0 {
        return false;
      }
      Schedule(KeyValue, lKey);
      SavePrivateKey();
      return true;
    }

    method PRGA() returns (k: byte)
      requires Valid()
      modifies this`mI, this`mJ, KeyValue
      ensures Valid() && Generator() == Next(old(Generator())) && k == Output(Generator())
    {
      mI := (mI + 1) % 256;
      mJ := (mJ + KeyValue[mI]) % 256;
      Swap(KeyValue, mI, mJ);
      var x: int, y: int := KeyValue[mI], KeyValue[mJ];
      k := KeyValue[(x + y) % 256];
    }

    method PRGABlock(cipher: array<byte>)
      requires Valid() && cipher != KeyValue && cipher != mKeyValueLast
      modifies this`mI, this`mJ, KeyValue, cipher
      ensures Valid() && Generator() == After(old(Generator()), cipher.Length)
      ensures cipher[..] == Crypt(old(Generator()), old(cipher[..]))
    {
      hide Next, Output, Crypt;
      ghost var start := Generator();
      for k := 0 to cipher.Length
        invariant Valid() && Generator() == After(start, k)
        invariant forall m | 0 <= m < k :: cipher[m] == Crypt(start, old(cipher[..]))[m]
        invariant forall m | k <= m < cipher.Length :: cipher[m] == old(cipher[m])
      {
        var w := PRGA();
        CryptAt(start, old(cipher[..]), k);
        cipher[k] := Xor(cipher[k], w);
      }
    }

    /** Encrypts or decrypts in place. */
    method TransformBlock(data: array<byte>, salt: array?<byte>) returns (ok: bool)
      requires Valid() && data != KeyValue && data != mKeyValueLast
      modifies this, KeyValue, data
      ensures Valid()
      ensures var s := if salt == null then None else Some(old(salt[..]));
              match Transformed(old(State()), old(data[..]), s)
              case Thrown => !ok && State() == old(State()) && data[..] == old(data[..])
              case Returned(r) => ok && data[..] == r.0 && State() == r.1
    {
      if salt != null {
        ok := UpdatePrivateKey(salt);
        if !ok {
          return;
        }
      }
      mI, mJ := 0, 0;
      PRGABlock(data);
      if salt != null {
        RestorePrivateKey();
      }
      ok := true;
    }
  }

  /** RC4.Create: a provider for the key, or the division by zero of an empty key. */
  method CreateRC4(key: array<byte>) returns (r: Outcome<RC4>)
    ensures r.Thrown? <==> key.Length == 0
    ensures r.Returned? ==>
              && r.value.Valid() && fresh(r.value) && fresh(r.value.KeyValue) && fresh(r.value.mKeyValueLast)
              && r.value.State() == Keyed(key[..])
  {
    var c := new RC4();
    var ok := c.SetKey(key);
    return if ok then Returned(c) else Thrown;
  }

  method CopyAll(from: array<byte>, to: array<byte>)
    requires from.Length == to.Length
    modifies to
    ensures to[..] == old(from[..])
  {
    forall k | 0 <= k < from.Length {
      to[k] := from[k];
    }
  }

  // ----- the streaming transform -----

  /** What the block transform does with its arguments. */
  datatype BlockResult = Written(count: nat) | BadArgument | OutputTooSmall

  class Transform {
    const S: array<byte>
    var i: int
    var j: int

    ghost predicate Valid()
      reads this
    {
      S.Length == 256 && 0 <= i < 256 && 0 <= j < 256
    }

    ghost function Generator(): Prga
      requires Valid()
      reads this, S
    {
      Prga(S[..], i, j)
    }

    constructor (rgbKey: array<byte>)
      requires rgbKey.Length > 0
      ensures Valid() && fresh(S) && Generator() == Start(Ksa(rgbKey[..]))
    {
      i, j := 0, 0;
      S := new byte[256];
      new;
      FillIdentity(S);
      Schedule(S, rgbKey);
    }

    method PRGA() returns (k: byte)
      requires Valid()
      modifies this, S
      ensures Valid() && Generator() == Next(old(Generator())) && k == Output(Generator())
    {
      i := (i + 1) % 256;
      j := (j + S[i]) % 256;
      Swap(S, i, j);
      var x: int, y: int := S[i], S[j];
      k := S[(x + y) % 256];
    }

    method PRGABlock(cipher: array<byte>)
      requires Valid() && cipher != S
      modifies this, S, cipher
      ensures Valid() && Generator() == After(old(Generator()), cipher.Length)
      ensures cipher[..] == Crypt(old(Generator()), old(cipher[..]))
    {
      hide Next, Output, Crypt;
      ghost var start := Generator();
      for k := 0 to cipher.Length
        invariant Valid() && Generator() == After(start, k)
        invariant forall m | 0 <= m < k :: cipher[m] == Crypt(start, old(cipher[..]))[m]
        invariant forall m | k <= m < cipher.Length :: cipher[m] == old(cipher[m])
      {
        var w := PRGA();
        CryptAt(start, old(cipher[..]), k);
        cipher[k] := Xor(cipher[k], w);
      }
    }

    /** The argument checks shared by both block methods. */
    static predicate Accepts(length: nat, offset: int, count: int) {
      offset >= 0 && 0 <= count <= length && length - count >= offset
    }

    /** The region lies within the array. */
    static lemma AcceptsIff(length: nat, offset: int, count: int)
      ensures Accepts(length, offset, count) <==> 0 <= offset <= offset + count <= length
    {
    }

    /** An output that does not fit throws only after the keystream has advanced. */
    method TransformBlock(input: array?<byte>, offset: int, count: int, output: array?<byte>, outOffset: int)
        returns (r: BlockResult)
      requires Valid() && input != S && output != S
      modifies this, S, output
      ensures Valid()
      ensures input == null || output == null || !Accepts(input.Length, offset, count)
              <==> r == BadArgument
      ensures r == BadArgument ==> Generator() == old(Generator()) && (output != null ==> output[..] == old(output[..]))
      ensures r != BadArgument ==> Generator() == After(old(Generator()), count)
      ensures r == OutputTooSmall ==>
                !(0 <= outOffset && outOffset + count <= output.Length) && output[..] == old(output[..])
      ensures r.Written? ==>
                && r.count == count && 0 <= outOffset && outOffset + count <= output.Length
                && output[..] == old(output[..outOffset])
                               + Crypt(old(Generator()), old(input[offset..offset + count]))
                               + old(output[outOffset + count..])
    {
      hide Crypt, After;
      if input == null || output == null || !Accepts(input.Length, offset, count) {
        return BadArgument;
      }
      var cipher := new byte[count](k requires 0 <= k < count reads input => input[offset + k]);
      assert cipher[..] == input[offset..offset + count];
      PRGABlock(cipher);
      if !(0 <= outOffset && outOffset + count <= output.Length) {
        return OutputTooSmall;
      }
      forall k | 0 <= k < count {
        output[outOffset + k] := cipher[k];
      }
      return Written(count);
    }

    method TransformFinalBlock(input: array?<byte>, offset: int, count: int) returns (r: Outcome<array<byte>>)
      requires Valid() && input != S
      modifies this, S
      ensures Valid()
      ensures r.Thrown? <==> input == null || !Accepts(input.Length, offset, count)
      ensures r.Thrown? ==> Generator() == old(Generator())
      ensures r.Returned? ==>
                && fresh(r.value) && Generator() == After(old(Generator()), count)
                && r.value[..] == Crypt(old(Generator()), old(input[offset..offset + count]))
    {
      hide Crypt, After;
      if input == null || !Accepts(input.Length, offset, count) {
        return Thrown;
      }
      var cipher := new byte[count](k requires 0 <= k < count reads input => input[offset + k]);
      assert cipher[..] == input[offset..offset + count];
      PRGABlock(cipher);
      return Returned(cipher);
    }
  }

  /** CreateEncryptor and CreateDecryptor are this same call. */
  method CreateTransform(rgbKey: array<byte>) returns (r: Outcome<Transform>)
    ensures r.Thrown? <==> rgbKey.Length == 0
    ensures r.Returned? ==>
              r.value.Valid() && fresh(r.value) && fresh(r.value.S) && r.value.Generator() == Start(Ksa(rgbKey[..]))
  {
    if rgbKey.Length == 0 {
      return Thrown;
    }
    var t := new Transform(rgbKey);
    return Returned(t);
  }
}
