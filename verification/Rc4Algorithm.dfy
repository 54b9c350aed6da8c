/** The stand-alone forms of RC4, which work on int tables and on a key vector T. */
module Rc4Algorithm {
  import opened Bytes
  import opened Rc4Stream
  import opened Rc4Cipher

  /** C# remainder: truncates toward zero, so it takes the sign of the dividend. */
  function Remainder(a: int, m: int): int
    requires m > 0
  {
    if a >= 0 then a % m else -((-a) % m)
  }

  /** What a is left with when it is divided toward zero: it differs from a by a multiple of m, is smaller than m in
      size, and has the sign of a. */
  lemma RemainderIs(a: int, m: int)
    requires m > 0
    ensures exists q :: a == q * m + Remainder(a, m)
    ensures -m < Remainder(a, m) < m && (Remainder(a, m) > 0 ==> a > 0) && (Remainder(a, m) < 0 ==> a < 0)
  {
    if a >= 0 {
      assert a == a / m * m + Remainder(a, m);
    } else {
      var b := -a;
      assert b == b / m * m + b % m;
      assert a == -(b / m) * m + Remainder(a, m);
    }
  }

  /** Buffer.BlockCopy of 256 bytes into an int[256]: four bytes, low byte first, to an element. */
  function BlockCopied(key: seq<byte>): (r: seq<int32>)
    requires |key| == 256
    ensures |r| == 256
  {
    seq(256, k requires 0 <= k < 256 =>
      if k < 64 then ToInt32(Join(Join(Join(key[4 * k + 3], key[4 * k + 2]), key[4 * k + 1]), key[4 * k])) else 0)
  }

  function KeyVector(key: seq<byte>): (r: seq<int32>)
    requires key != []
    ensures |r| == 256
  {
    if |key| == 256 then BlockCopied(key) else seq(256, k requires 0 <= k < 256 => key[k % |key|] as int32)
  }

  function NextJ(t: Table, v: seq<int32>, i: nat, j: byte): int
    requires i < 256 && |v| == 256
  {
    Remainder(ToInt32(j + t[i] + v[i]), 256)
  }

  /** The swap rounds over the key vector; a negative index throws. */
  function ApplyKsa(t: Table, v: seq<int32>, i: nat, j: byte): Option<Table>
    requires i <= 256 && |v| == 256
    decreases 256 - i
  {
    if i == 256 then Some(t)
    else
      var j' := NextJ(t, v, i, j);
      if j' < 0 then None else ApplyKsa(SwapAt(t, i, j'), v, i + 1, j')
  }

  function Applied(data: seq<byte>, key: seq<byte>): Outcome<seq<byte>> {
    if key == [] then Thrown
    else
      match ApplyKsa(Range(256), KeyVector(key), 0, 0)
      case None => Thrown
      case Some(t) => Returned(Crypt(Start(t), data))
  }

  function Padded(p: seq<byte>): Table
    requires |p| <= 256
  {
    p + seq(256 - |p|, _ => 0)
  }

  lemma PaddedAt(p: seq<byte>, k: nat)
    requires |p| <= 256 && k < 256
    ensures Padded(p)[k] == if k < |p| then p[k] else 0
  {
  }

  function AppliedDirect(data: seq<byte>, privatKey: seq<byte>): Outcome<seq<byte>> {
    if |privatKey| > 256 then Thrown else Returned(Crypt(Start(Padded(privatKey)), data))
  }

  // ----- agreement -----

  /** The key vector holds the key, repeated. */
  predicate VectorIsKey(key: seq<byte>)
    requires key != []
  {
    forall k | 0 <= k < 256 :: KeyVector(key)[k] == key[k % |key|]
  }

  /** A 256-byte key is packed four bytes to an entry, which leaves the key itself only when all bytes but the
      first are zero; shorter and longer keys are copied as they are. */
  lemma VectorIsKeyIff(key: seq<byte>)
    requires key != []
    ensures VectorIsKey(key) <==> |key| != 256 || forall k | 1 <= k < 256 :: key[k] == 0
  {
    hide KeyVector;
    if |key| != 256 {
      CopiedIsKey(key);
    } else if VectorIsKey(key) {
      forall k | 1 <= k < 256
        ensures key[k] == 0
      {
        ZeroAt(key, k);
      }
    } else if forall k | 1 <= k < 256 :: key[k] == 0 {
      forall k | 0 <= k < 256
        ensures KeyVector(key)[k] == key[k]
      {
        PackedZeros(key, k);
      }
    }
  }

  lemma CopiedIsKey(key: seq<byte>)
    requires key != [] && |key| != 256
    ensures VectorIsKey(key)
  {
  }

  lemma {:induction false} ZeroAt(key: seq<byte>, k: nat)
    requires |key| == 256 && VectorIsKey(key) && 1 <= k < 256
    ensures key[k] == 0
    decreases 256 - k
  {
    assert KeyVector(key)[k] == key[k % |key|];
    if k < 64 {
      PackedLowByte(key, k);
      ZeroAt(key, 4 * k);
    }
  }

  lemma LowByteOfLowBits(n: int)
    ensures n % 0x1_0000_0000 % 256 == n % 256
  {
    assert n == n / 0x1_0000_0000 * 0x1_0000_0000 + n % 0x1_0000_0000;
  }

  lemma JoinBounds(high: nat, low: byte)
    ensures high * 0x100 <= Join(high, low) < high * 0x100 + 0x100 && Join(high, low) % 256 == low
  {
  }

  lemma LowByte(high: nat, low: byte)
    ensures ToInt32(Join(high, low)) % 256 == low
  {
    hide Join;
    JoinBounds(high, low);
    LowByteOfLowBits(Join(high, low));
  }

  lemma PackedEntry(key: seq<byte>, k: nat)
    requires |key| == 256 && k < 64
    ensures KeyVector(key)[k] == ToInt32(Join(Join(Join(key[4 * k + 3], key[4 * k + 2]), key[4 * k + 1]), key[4 * k]))
  {
    hide ToInt32, Join;
  }

  lemma ZeroEntry(key: seq<byte>, k: nat)
    requires |key| == 256 && 64 <= k < 256
    ensures KeyVector(key)[k] == 0
  {
    hide ToInt32, Join;
  }

  lemma PackedLowByte(key: seq<byte>, k: nat)
    requires |key| == 256 && k < 64
    ensures KeyVector(key)[k] % 256 == key[4 * k]
  {
    hide ToInt32, Join, KeyVector;
    PackedEntry(key, k);
    LowByte(Join(Join(key[4 * k + 3], key[4 * k + 2]), key[4 * k + 1]), key[4 * k]);
  }

  lemma PackedZeros(key: seq<byte>, k: nat)
    requires |key| == 256 && k < 256 && forall m | 1 <= m < 256 :: key[m] == 0
    ensures KeyVector(key)[k] == key[k]
  {
    hide ToInt32, Join, KeyVector;
    if k < 64 {
      PackedEntry(key, k);
      assert key[4 * k + 3] == 0 && key[4 * k + 2] == 0 && key[4 * k + 1] == 0;
      assert key[4 * k] == key[k];
      OnlyLowByte(key[k]);
    } else {
      ZeroEntry(key, k);
    }
  }

  lemma OnlyLowByte(low: byte)
    ensures ToInt32(Join(Join(Join(0, 0), 0), low)) == low
  {
  }

  lemma {:induction false} VectorScheduleIsKsa(t: Table, key: seq<byte>, i: nat, j: byte)
    requires key != [] && VectorIsKey(key) && i <= 256
    ensures ApplyKsa(t, KeyVector(key), i, j) == Some(KsaFrom(t, key, i, j))
    decreases 256 - i
  {
    hide KeyVector;
    if i < 256 {
      var j' := (j + t[i] + key[i % |key|]) % 256;
      assert NextJ(t, KeyVector(key), i, j) == j';
      VectorScheduleIsKsa(SwapAt(t, i, j'), key, i + 1, j');
    }
  }

  /** For every key of another length than 256, and for those 256-byte keys whose vector is the key itself, Apply
      is the cipher keyed by SetKey, unsalted. */
  lemma ApplyAgrees(data: seq<byte>, key: seq<byte>)
    requires key != [] && (|key| != 256 || forall k | 1 <= k < 256 :: key[k] == 0)
    ensures Applied(data, key) == Returned(Crypt(Start(Ksa(key)), data))
  {
    hide KsaFrom, ApplyKsa, KeyVector;
    VectorIsKeyIff(key);
    KsaStarts(key);
    VectorScheduleIsKsa(Range(256), key, 0, 0);
  }

  lemma CryptAtKeystream(p: Prga, data: seq<byte>, k: nat)
    requires k < |data|
    ensures Crypt(p, data)[k] == Xor(data[k], KeystreamByte(p, k))
  {
    hide Output, After, Crypt;
    CryptAt(p, data, k);
  }

  /** Encrypting zeros shows the keystream. */
  lemma EncryptedZeros(p: Prga, n: nat)
    ensures Crypt(p, seq(n, _ => 0)) == seq(n, k requires 0 <= k < n => KeystreamByte(p, k))
  {
    hide Crypt, KeystreamByte, Xor;
    var zeros := seq(n, _ => 0);
    forall k | 0 <= k < n
      ensures Crypt(p, zeros)[k] == KeystreamByte(p, k)
    {
      CryptAtKeystream(p, zeros, k);
      XorZero(KeystreamByte(p, k));
    }
  }

  /** ApplyDirect on the identity table: the first keystream bytes are 2, 5 and 7. */
  lemma DirectKnownAnswer()
    ensures AppliedDirect([0, 0, 0], Range(256)) == Returned([2, 5, 7])
  {
    hide Range, KeystreamByte, Crypt;
    IdentityKeystream();
    assert Padded(Range(256)) == Range(256);
    EncryptedZeros(Start(Range(256)), 3);
    assert seq(3, _ => 0) == [0, 0, 0];
    var shown := seq(3, k requires 0 <= k < 3 => KeystreamByte(Start(Range(256)), k));
    assert shown == [2, 5, 7];
  }

  // ----- 256-byte keys -----

  /** The key that Apply uses of a 256-byte key: every fourth byte, and then zeros. */
  function Reduced(key: seq<byte>): (r: seq<byte>)
    requires |key| == 256
    ensures |r| == 256
  {
    seq(256, k requires 0 <= k < 256 => if k < 64 then key[4 * k] else 0)
  }

  /** The table and the index of the key schedule after i rounds. */
  function KsaRound(key: seq<byte>, i: nat): (Table, byte)
    requires key != [] && i <= 256
  {
    if i == 0 then (Range(256), 0)
    else
      var (t, j) := KsaRound(key, i - 1);
      var j' := (j + t[i - 1] + key[(i - 1) % |key|]) % 256;
      (SwapAt(t, i - 1, j'), j')
  }

  lemma KsaRoundStep(key: seq<byte>, i: nat)
    requires key != [] && i < 256
    ensures var (t, j) := KsaRound(key, i);
            var j' := (j + t[i] + key[i % |key|]) % 256;
            KsaRound(key, i + 1) == (SwapAt(t, i, j'), j')
  {
    hide SwapAt, Range;
  }

  lemma KsaRoundStart(key: seq<byte>)
    requires key != []
    ensures KsaRound(key, 0) == (Range(256), 0)
  {
  }

  lemma {:induction false} KsaFromRound(key: seq<byte>, i: nat)
    requires key != [] && i <= 256
    ensures KsaFrom(KsaRound(key, i).0, key, i, KsaRound(key, i).1) == Ksa(key)
  {
    hide KsaFrom, Ksa, Range, KsaRound, SwapAt;
    if i == 0 {
      KsaRoundStart(key);
      KsaStarts(key);
    } else {
      KsaFromRound(key, i - 1);
      KsaRoundStep(key, i - 1);
      var (t, j) := KsaRound(key, i - 1);
      KsaStep(t, key, i - 1, j);
    }
  }

  /** In round i of the reduced key's schedule, the integer sum has a negative remainder. */
  predicate Overruns(key: seq<byte>, i: nat)
    requires |key| == 256 && i < 256
  {
    var (t, j) := KsaRound(Reduced(key), i);
    NextJ(t, KeyVector(key), i, j) < 0
  }

  lemma RemainderOfCast(n: int)
    ensures Remainder(ToInt32(n), 256) < 0 || Remainder(ToInt32(n), 256) == n % 256
  {
    var u := n % 0x1_0000_0000;
    LowByteOfLowBits(n);
    if u >= 0x8000_0000 {
      NegatedRemainder(u);
    }
  }

  lemma NegatedRemainder(u: nat)
    requires u < 0x1_0000_0000
    ensures if u % 256 == 0 then (0x1_0000_0000 - u) % 256 == 0 else (0x1_0000_0000 - u) % 256 > 0
  {
  }

  lemma VectorLowByte(key: seq<byte>, k: nat)
    requires |key| == 256 && k < 256
    ensures KeyVector(key)[k] % 256 == Reduced(key)[k]
  {
    hide ToInt32, Join, KeyVector;
    if k < 64 {
      PackedLowByte(key, k);
    } else {
      ZeroEntry(key, k);
    }
  }

  lemma SumOfLowBytes(n: nat, v: int, low: byte)
    requires v % 256 == low
    ensures (n + v) % 256 == (n + low) % 256
  {
  }

  /** A round that does not throw takes the index of the reduced key's schedule. */
  lemma NextJReduced(t: Table, key: seq<byte>, i: nat, j: byte)
    requires |key| == 256 && i < 256
    ensures var n := NextJ(t, KeyVector(key), i, j);
            n < 0 || n == (j + t[i] + Reduced(key)[i]) % 256
  {
    hide KeyVector, Reduced, Remainder, ToInt32;
    VectorLowByte(key, i);
    SumOfLowBytes(j + t[i], KeyVector(key)[i], Reduced(key)[i]);
    RemainderOfCast(j + t[i] + KeyVector(key)[i]);
  }

  lemma ApplyKsaStep(t: Table, v: seq<int32>, i: nat, j: byte)
    requires i <= 256 && |v| == 256
    ensures ApplyKsa(t, v, i, j) ==
            if i == 256 then Some(t)
            else if NextJ(t, v, i, j) < 0 then None
            else ApplyKsa(SwapAt(t, i, NextJ(t, v, i, j)), v, i + 1, NextJ(t, v, i, j))
  {
  }

  lemma ReducedStep(key: seq<byte>, i: nat)
    requires |key| == 256 && i < 256
    ensures var (t, j), (t', j') := KsaRound(Reduced(key), i), KsaRound(Reduced(key), i + 1);
            ApplyKsa(t, KeyVector(key), i, j) ==
            if Overruns(key, i) then None else ApplyKsa(t', KeyVector(key), i + 1, j')
  {
    hide KeyVector, Reduced, NextJ, ApplyKsa, KsaRound, SwapAt;
    KsaRoundStep(Reduced(key), i);
    var (t, j) := KsaRound(Reduced(key), i);
    NextJReduced(t, key, i, j);
    ApplyKsaStep(t, KeyVector(key), i, j);
  }

  lemma {:induction false} ReducedSchedule(key: seq<byte>, i: nat)
    requires |key| == 256 && i <= 256
    ensures var (t, j) := KsaRound(Reduced(key), i);
            ApplyKsa(t, KeyVector(key), i, j) ==
            if exists k :: i <= k < 256 && Overruns(key, k) then None else Some(Ksa(Reduced(key)))
    decreases 256 - i
  {
    hide KeyVector, Reduced, Overruns, Ksa, KsaFrom, KsaRound, ApplyKsa;
    var (t, j) := KsaRound(Reduced(key), i);
    if i == 256 {
      KsaFromRound(Reduced(key), 256);
      KsaEnds(t, Reduced(key), j);
      ApplyKsaStep(t, KeyVector(key), 256, j);
    } else {
      ReducedStep(key, i);
      ReducedSchedule(key, i + 1);
    }
  }

  lemma SmallCast(n: int)
    requires 0 <= n < 0x8000_0000
    ensures ToInt32(n) == n
  {
  }

  /** Only the packed entries can overrun. */
  lemma ZerosDoNotOverrun(key: seq<byte>, i: nat)
    requires |key| == 256 && 64 <= i < 256
    ensures !Overruns(key, i)
  {
    hide KsaRound, Reduced, ToInt32, KeyVector;
    var (t, j) := KsaRound(Reduced(key), i);
    ZeroEntry(key, i);
    SmallCast(j + t[i]);
  }

  /** What Apply does with a 256-byte key: it throws exactly when one of the first 64 rounds overruns, and
      otherwise it is the cipher keyed by every fourth byte of the key. */
  lemma Apply256(data: seq<byte>, key: seq<byte>)
    requires |key| == 256
    ensures Applied(data, key) ==
            if exists i :: 0 <= i < 64 && Overruns(key, i) then Thrown
            else Returned(Crypt(Start(Ksa(Reduced(key))), data))
  {
    hide KeyVector, Reduced, Overruns, Ksa, Crypt, ApplyKsa, KsaRound;
    ReducedSchedule(key, 0);
    KsaRoundStart(Reduced(key));
    if i :| 64 <= i < 256 && Overruns(key, i) {
      ZerosDoNotOverrun(key, i);
    }
  }

  /** Two generators encrypt the data alike exactly when their keystreams agree as far as the data goes. */
  lemma CryptsAgreeIff(p: Prga, q: Prga, data: seq<byte>)
    ensures Crypt(p, data) == Crypt(q, data)
            <==> forall k | 0 <= k < |data| :: KeystreamByte(p, k) == KeystreamByte(q, k)
  {
    hide KeystreamByte, Crypt, Xor;
    var a, b := Crypt(p, data), Crypt(q, data);
    forall k | 0 <= k < |data|
      ensures a[k] == b[k] <==> KeystreamByte(p, k) == KeystreamByte(q, k)
    {
      CryptAtKeystream(p, data, k);
      CryptAtKeystream(q, data, k);
      XorInjective(data[k], KeystreamByte(p, k), KeystreamByte(q, k));
    }
  }

  /** So with a 256-byte key Apply agrees with SetKey exactly when it does not throw and the keystreams of the key
      and of its reduced form agree on the length of the data. */
  lemma Apply256AgreesIff(data: seq<byte>, key: seq<byte>)
    requires |key| == 256
    ensures Applied(data, key) == Returned(Crypt(Start(Ksa(key)), data)) <==>
            && (forall i | 0 <= i < 64 :: !Overruns(key, i))
            && forall k | 0 <= k < |data| ::
                 KeystreamByte(Start(Ksa(key)), k) == KeystreamByte(Start(Ksa(Reduced(key))), k)
  {
    hide Reduced, Overruns, Ksa, Crypt, Applied, KeystreamByte;
    Apply256(data, key);
    CryptsAgreeIff(Start(Ksa(key)), Start(Ksa(Reduced(key))), data);
  }

  /** Many keys do throw: a negative first integer that is not a multiple of 256 is enough. */
  lemma Apply256Fails(data: seq<byte>, key: seq<byte>)
    requires |key| == 256 && key[3] >= 128 && key[0] != 0
    ensures Applied(data, key).Thrown?
  {
    hide ApplyKsa, Crypt, KeyVector, NextJ, Range;
    FirstRoundNegative(key);
    ApplyKsaStep(Range(256), KeyVector(key), 0, 0);
  }

  lemma NegativeRemainder(n: int)
    requires 0x8000_0000 <= n < 0x1_0000_0000 && n % 256 != 0
    ensures Remainder(ToInt32(n), 256) < 0
  {
    NegatedRemainder(n);
  }

  lemma JoinedBytes(b3: byte, b2: byte, b1: byte, b0: byte)
    ensures var n := Join(Join(Join(b3, b2), b1), b0);
            && b3 * 0x100_0000 <= n < b3 * 0x100_0000 + 0x100_0000 && n % 256 == b0
  {
    hide Join;
    JoinBounds(b3, b2);
    JoinBounds(Join(b3, b2), b1);
    JoinBounds(Join(Join(b3, b2), b1), b0);
  }

  lemma FirstRoundNegative(key: seq<byte>)
    requires |key| == 256 && key[3] >= 128 && key[0] != 0
    ensures NextJ(Range(256), KeyVector(key), 0, 0) < 0
  {
    hide Remainder, ToInt32, Join, KeyVector;
    var n := Join(Join(Join(key[3], key[2]), key[1]), key[0]);
    PackedEntry(key, 0);
    JoinedBytes(key[3], key[2], key[1], key[0]);
    CastTwice(n);
    NegativeRemainder(n);
  }

  lemma CastTwice(n: int)
    ensures ToInt32(ToInt32(n)) == ToInt32(n)
  {
  }

  /** Whatever the key, the table that Apply generates from is a permutation, so Convert.ToByte never overflows. */
  lemma {:induction false} ApplyKsaKeepsCounts(t: Table, v: seq<int32>, i: nat, j: byte)
    requires i <= 256 && |v| == 256
    ensures ApplyKsa(t, v, i, j).Some? ==> multiset(ApplyKsa(t, v, i, j).value) == multiset(t)
    decreases 256 - i
  {
    if i < 256 && NextJ(t, v, i, j) >= 0 {
      var j' := NextJ(t, v, i, j);
      SwapKeepsCounts(t, i, j');
      ApplyKsaKeepsCounts(SwapAt(t, i, j'), v, i + 1, j');
    }
  }

  // ----- two keys that Apply does not tell apart -----

  /** In the schedule of a twin key, every fourth index below 128 is 0 and the others are the round, so table and
      index stay simple. */
  function TwinByte(k: nat, last: byte): byte
    requires k < 256
  {
    if k == 255 then last
    else if k <= 1 || (k % 4 == 3 && k < 128) then 0
    else if Crossed(k) then 257 - 2 * k
    else 257 - k
  }

  function TwinKey(last: byte): (key: seq<byte>)
    ensures |key| == 256
  {
    seq(256, k requires 0 <= k < 256 => TwinByte(k, last))
  }

  predicate Crossed(p: nat) { p % 4 == 2 && p < 128 }

  function TwinIndex(i: nat): byte
    requires i <= 255
  {
    if i == 0 || Crossed(i - 1) then 0 else i - 1
  }

  /** The last crossed place before i. */
  function LastCrossed(i: nat): byte {
    if i < 3 then 0 else if i > 126 then 126 else (i - 3) / 4 * 4 + 2
  }

  function TwinEntry(i: nat, p: nat): byte
    requires p < 256
  {
    if p == 0 then LastCrossed(i) else if Crossed(p) && p < i then LastCrossed(p) else p
  }

  function TwinTable(i: nat): Table {
    seq(256, p requires 0 <= p < 256 => TwinEntry(i, p))
  }

  lemma TwinIndexStep(last: byte, i: nat)
    requires i < 255
    ensures (TwinIndex(i) + TwinEntry(i, i) + TwinByte(i, last)) % 256 == TwinIndex(i + 1)
  {
    var sum := TwinIndex(i) + i + TwinByte(i, last);
    assert TwinEntry(i, i) == i;
    if Crossed(i) {
      assert sum == 256;
    } else if i <= 1 || (i % 4 == 3 && i < 128) {
      assert sum == i;
    } else {
      assert sum == 256 + i;
    }
  }

  lemma TwinEntryStep(i: nat, p: nat)
    requires i < 255 && p < 256
    ensures TwinEntry(i + 1, p) == if p == i then TwinEntry(i, TwinIndex(i + 1))
                                   else if p == TwinIndex(i + 1) then TwinEntry(i, i) else TwinEntry(i, p)
  {
  }

  lemma TwinTableStep(i: nat)
    requires i < 255
    ensures SwapAt(TwinTable(i), i, TwinIndex(i + 1)) == TwinTable(i + 1)
  {
    hide TwinEntry, TwinIndex;
    var swapped, next := SwapAt(TwinTable(i), i, TwinIndex(i + 1)), TwinTable(i + 1);
    forall p | 0 <= p < 256
      ensures swapped[p] == next[p]
    {
      TwinEntryStep(i, p);
    }
  }

  lemma TwinStart()
    ensures TwinTable(0) == Range(256) && TwinIndex(0) == 0
  {
  }

  lemma {:induction false} TwinSchedule(last: byte, i: nat)
    requires i <= 255
    ensures KsaRound(TwinKey(last), i) == (TwinTable(i), TwinIndex(i))
  {
    hide TwinByte, TwinEntry, TwinIndex, Range, KsaRound, SwapAt;
    if i == 0 {
      KsaRoundStart(TwinKey(last));
      TwinStart();
    } else {
      TwinSchedule(last, i - 1);
      KsaRoundStep(TwinKey(last), i - 1);
      TwinIndexStep(last, i - 1);
      TwinTableStep(i - 1);
    }
  }

  /** The table of a twin key: the last round may take the last entry to place 2. */
  lemma TwinFinal(last: byte)
    requires last in {2, 5}
    ensures var j := if last == 2 then 255 else 2;
            Ksa(TwinKey(last)) == SwapAt(TwinTable(255), 255, j)
  {
    hide KsaRound, KsaFrom, Ksa, Range;
    TwinSchedule(last, 255);
    KsaFromRound(TwinKey(last), 255);
    var t, key, j := TwinTable(255), TwinKey(last), if last == 2 then 255 else 2;
    assert TwinIndex(255) == 254 && t[255] == 255 && key[255] == last;
    hide TwinTable, TwinKey, SwapAt;
    KsaStep(t, key, 255, 254);
    KsaEnds(SwapAt(t, 255, j), key, j);
  }

  lemma FirstOutput(t: Table)
    requires t[1] == 1
    ensures KeystreamByte(Start(t), 0) == t[2]
  {
    var p := Start(t);
    assert After(p, 1) == Next(After(p, 0)) == Next(p);
    assert SwapAt(t, 1, 1) == t;
  }

  /** So the first keystream byte shows where the last entry went. */
  lemma TwinOutput(last: byte)
    requires last in {2, 5}
    ensures KeystreamByte(Start(Ksa(TwinKey(last))), 0) == if last == 2 then 0 else 255
  {
    hide Ksa, TwinKey, KeystreamByte;
    TwinFinal(last);
    FirstOutput(Ksa(TwinKey(last)));
  }

  /** From the key to the keystream: under this key zeros are encrypted as 0, 0, 7, 6. */
  lemma TwinKnownAnswer()
    ensures Crypt(Start(Ksa(TwinKey(2))), [0, 0, 0, 0]) == [0, 0, 7, 6]
  {
    hide Ksa, TwinKey, SwapAt, KeystreamByte;
    TwinFinal(2);
    var t := TwinTable(255);
    SwapSame(t, 255);
    FourSteps(t);
    hide TwinTable;
    EncryptedZeros(Start(t), 4);
    assert seq(4, _ => 0) == [0, 0, 0, 0];
    var shown := seq(4, k requires 0 <= k < 4 => KeystreamByte(Start(t), k));
    assert shown == [0, 0, 7, 6];
  }

  lemma SwapSame(t: Table, k: nat)
    requires k < 256
    ensures SwapAt(t, k, k) == t
  {
  }

  lemma FourSteps(t: Table)
    requires t[1] == 1 && t[2] == 0 && t[3] == 3 && t[4] == 4 && t[7] == 7 && t[10] == 6
    ensures var p := Start(t);
            && KeystreamByte(p, 0) == 0 && KeystreamByte(p, 1) == 0 && KeystreamByte(p, 2) == 7
            && KeystreamByte(p, 3) == 6
  {
    hide After, KeystreamByte;
    var p := Start(t);
    AfterNothing(p);
    OneStep(p, 0, t, 0, 0);
    assert t[1 := t[1]][1 := t[1]] == t;
    OneStep(p, 1, t, 1, 1);
    var t2 := t[2 := 1][1 := 0];
    OneStep(p, 2, t2, 2, 1);
    OneStep(p, 3, t2[3 := 4][4 := 3], 3, 4);
  }

  lemma TwinsDoNotOverrun(last: byte, i: nat)
    requires last in {2, 5} && i < 64
    ensures !Overruns(TwinKey(last), i)
  {
    hide KsaRound, Reduced, ToInt32, Join, KeyVector;
    var key := TwinKey(last);
    assert key[4 * i + 3] <= 126;
    var n := Join(Join(Join(key[4 * i + 3], key[4 * i + 2]), key[4 * i + 1]), key[4 * i]);
    PackedEntry(key, i);
    JoinedBytes(key[4 * i + 3], key[4 * i + 2], key[4 * i + 1], key[4 * i]);
    SmallCast(n);
    var (t, j) := KsaRound(Reduced(key), i);
    SmallCast(j + t[i] + n);
  }

  lemma TwinsReduceAlike()
    ensures Reduced(TwinKey(2)) == Reduced(TwinKey(5))
  {
  }

  /** Two 256-byte keys for which Apply does not throw and gives the same bytes, while the cipher keyed by SetKey
      tells them apart in the first byte; so with one of them Apply is not RC4. */
  lemma TwinKeysDisagree(data: seq<byte>)
    requires data != []
    ensures Applied(data, TwinKey(2)) == Applied(data, TwinKey(5))
    ensures Applied(data, TwinKey(2)).Returned?
    ensures Crypt(Start(Ksa(TwinKey(2))), data) != Crypt(Start(Ksa(TwinKey(5))), data)
  {
    hide TwinKey, Reduced, Overruns, Ksa, Crypt, Applied, KeystreamByte;
    TwinsReduceAlike();
    forall i | 0 <= i < 64
      ensures !Overruns(TwinKey(2), i) && !Overruns(TwinKey(5), i)
    {
      TwinsDoNotOverrun(2, i);
      TwinsDoNotOverrun(5, i);
    }
    Apply256(data, TwinKey(2));
    Apply256(data, TwinKey(5));
    TwinOutput(2);
    TwinOutput(5);
    CryptsAgreeIff(Start(Ksa(TwinKey(2))), Start(Ksa(TwinKey(5))), data);
  }

  // ----- the algorithms -----

  ghost predicate IsTable(s: seq<int>) {
    |s| == 256 && forall k | 0 <= k < 256 :: 0 <= s[k] < 256
  }

  /** One round of the generation phase: the new indices and the keystream value K. */
  method Round(S: array<int>, i: int, j: int) returns (i': int, j': int, K: int)
    requires IsTable(S[..]) && 0 <= i < 256 && 0 <= j < 256
    modifies S
    ensures IsTable(S[..]) && 0 <= i' < 256 && 0 <= j' < 256
    ensures Prga(S[..], i', j') == Next(Prga(old(S[..]), i, j)) && K == Output(Prga(S[..], i', j'))
  {
    i' := (i + 1) % 256;
    j' := (j + S[i']) % 256;
    S[i'], S[j'] := S[j'], S[i'];
    K := S[(S[i'] + S[j']) % 256];
    assert S[..] == SwapAt(old(S[..]), i', j');
  }

  /** The pseudo-random generation phase; the table entries stay bytes, so does every result. */
  method Generate(data: array<byte>, S: array<int>) returns (result: array<byte>)
    requires IsTable(S[..])
    modifies S
    ensures fresh(result) && result[..] == Crypt(Start(old(S[..])), data[..])
  {
    hide Next, Output, Crypt;
    ghost var start := Start(S[..]);
    var i, j := 0, 0;
    result := new byte[data.Length];
    for iteration := 0 to data.Length
      invariant IsTable(S[..]) && 0 <= i < 256 && 0 <= j < 256
      invariant Prga(S[..], i, j) == After(start, iteration)
      invariant result[..iteration] == Crypt(start, data[..])[..iteration]
    {
      var K;
      i, j, K := Round(S, i, j);
      CryptAt(start, data[..], iteration);
      result[iteration] := Xor(data[iteration], K);
    }
    assert result[..] == result[..data.Length];
  }

  method Apply(data: array<byte>, key: array<byte>) returns (r: Outcome<array<byte>>)
    ensures match Applied(data[..], key[..])
            case Thrown => r.Thrown?
            case Returned(bytes) => r.Returned? && fresh(r.value) && r.value[..] == bytes
  {
    hide ApplyKsa, KeyVector, Crypt;
    if key.Length == 0 {
      return Thrown;
    }
    var S := new int[256](k => k);
    assert S[..] == Range(256);
    var T := FillVector(key);
    var ok := VectorSchedule(S, T);
    if !ok {
      return Thrown;
    }
    var result := Generate(data, S);
    return Returned(result);
  }

  method FillVector(key: array<byte>) returns (T: array<int32>)
    requires key.Length > 0
    ensures fresh(T) && T[..] == KeyVector(key[..])
  {
    T := new int32[256];
    if key.Length == 256 {
      BlockCopy(key, T);
    } else {
      for k := 0 to 256
        invariant forall m | 0 <= m < k :: T[m] == KeyVector(key[..])[m]
      {
        T[k] := key[k % key.Length];
      }
    }
  }

  method BlockCopy(key: array<byte>, T: array<int32>)
    requires key.Length == 256 && T.Length == 256
    modifies T
    ensures T[..] == BlockCopied(key[..])
  {
    forall k | 0 <= k < 256 {
      T[k] := BlockCopied(key[..])[k];
    }
  }

  method VectorSchedule(S: array<int>, T: array<int32>) returns (ok: bool)
    requires IsTable(S[..]) && T.Length == 256
    modifies S
    ensures match ApplyKsa(old(S[..]), T[..], 0, 0)
            case None => !ok
            case Some(t) => ok && S[..] == t
  {
    hide ApplyKsa;
    ghost var goal := ApplyKsa(S[..], T[..], 0, 0);
    var j := 0;
    for i := 0 to 256
      invariant IsTable(S[..]) && 0 <= j < 256
      invariant ApplyKsa(S[..], T[..], i, j) == goal
    {
      ApplyKsaStep(S[..], T[..], i, j);
      j := Remainder(ToInt32(j + S[i] + T[i]), 256);
      if j < 0 {
        return false;
      }
      S[i], S[j] := S[j], S[i];
    }
    ApplyKsaStep(S[..], T[..], 256, j);
    return true;
  }

  method ApplyDirect(data: array<byte>, privatKey: array<byte>) returns (r: Outcome<array<byte>>)
    ensures match AppliedDirect(data[..], privatKey[..])
            case Thrown => r.Thrown?
            case Returned(bytes) => r.Returned? && fresh(r.value) && r.value[..] == bytes
  {
    if privatKey.Length > 256 {
      return Thrown;
    }
    var S := new int[256](k requires 0 <= k < 256 reads privatKey => if k < privatKey.Length then privatKey[k] else 0);
    assert S[..] == Padded(privatKey[..]);
    var result := Generate(data, S);
    return Returned(result);
  }

  // ----- all forms side by side -----

  /** SetKey with an unsalted block, the one-shot transform and Apply give the same bytes. */
  method ThreeFormsAgree(key: array<byte>, data: array<byte>) returns (a: seq<byte>, b: seq<byte>, c: seq<byte>)
    requires key.Length > 0 && (key.Length != 256 || forall k | 1 <= k < 256 :: key[k] == 0)
    ensures a == b == c == Crypt(Start(Ksa(key[..])), data[..])
  {
    hide ApplyKsa, Ksa, Crypt, After;
    var copy := new byte[data.Length](k requires 0 <= k < data.Length reads data => data[k]);
    assert copy[..] == data[..];
    var cipher := CreateRC4(key);
    var ok := cipher.value.TransformBlock(copy, null);
    a := copy[..];
    var transform := CreateTransform(key);
    var block := transform.value.TransformFinalBlock(data, 0, data.Length);
    assert data[0..data.Length] == data[..];
    b := block.value[..];
    ApplyAgrees(data[..], key[..]);
    var result := Apply(data, key);
    c := result.value[..];
  }

  /** A salted block is ApplyDirect on the key table with the salt written over its start. */
  method SaltedBlockIsApplyDirect(key: array<byte>, data: array<byte>, salt: array<byte>)
      returns (a: seq<byte>, b: seq<byte>)
    requires key.Length > 0 && salt.Length <= 256
    ensures a == b == Crypt(Start(Salted(Ksa(key[..]), salt[..])), data[..])
  {
    hide Ksa, Crypt, After;
    var copy := new byte[data.Length](k requires 0 <= k < data.Length reads data => data[k]);
    assert copy[..] == data[..];
    var cipher := CreateRC4(key);
    ghost var t := cipher.value.State().table;
    var table := new byte[256](k requires 0 <= k < 256 reads cipher.value, cipher.value.KeyValue, salt =>
      if k < salt.Length then salt[k] else cipher.value.KeyValue[k]);
    assert table[..] == Salted(t, salt[..]) == Padded(table[..]);
    var ok := cipher.value.TransformBlock(copy, salt);
    a := copy[..];
    var result := ApplyDirect(data, table);
    b := result.value[..];
  }
}
