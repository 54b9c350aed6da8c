/** RC4 as a pure function: key schedule, keystream, and the tables they work on. */
module Rc4Stream {
  import opened Bytes

  /** An S-box. */
  type Table = t: seq<byte> | |t| == 256 witness seq(256, _ => 0)

  function SwapAt<T>(s: seq<T>, a: nat, b: nat): (r: seq<T>)
    requires a < |s| && b < |s|
    ensures |r| == |s|
  {
    s[a := s[b]][b := s[a]]
  }

  function Range(n: nat): (r: seq<byte>)
    requires n <= 256
    ensures |r| == n
  {
    seq(n, i requires 0 <= i < n => i)
  }

  // ----- key schedule -----

  function KsaFrom(t: Table, key: seq<byte>, i: nat, j: byte): Table
    requires i <= 256 && key != []
    decreases 256 - i
  {
    if i == 256 then t
    else
      var j' := (j + t[i] + key[i % |key|]) % 256;
      KsaFrom(SwapAt(t, i, j'), key, i + 1, j')
  }

  function Ksa(key: seq<byte>): Table
    requires key != []
  {
    KsaFrom(Range(256), key, 0, 0)
  }

  lemma KsaStarts(key: seq<byte>)
    requires key != []
    ensures KsaFrom(Range(256), key, 0, 0) == Ksa(key)
  {
  }

  lemma KsaStep(t: Table, key: seq<byte>, i: nat, j: byte)
    requires i < 256 && key != []
    ensures var j' := (j + t[i] + key[i % |key|]) % 256;
            KsaFrom(t, key, i, j) == KsaFrom(SwapAt(t, i, j'), key, i + 1, j')
  {
  }

  lemma KsaEnds(t: Table, key: seq<byte>, j: byte)
    requires key != []
    ensures KsaFrom(t, key, 256, j) == t
  {
  }

  // ----- keystream -----

  datatype Prga = Prga(table: Table, i: byte, j: byte)

  function Next(p: Prga): Prga {
    var i := (p.i + 1) % 256;
    var j := (p.j + p.table[i]) % 256;
    Prga(SwapAt(p.table, i, j), i, j)
  }

  /** The keystream byte of a generator that has just stepped. */
  function Output(p: Prga): byte {
    var x: int, y: int := p.table[p.i], p.table[p.j];
    p.table[(x + y) % 256]
  }

  function After(p: Prga, n: nat): Prga
    decreases n
  {
    if n == 0 then p else Next(After(p, n - 1))
  }

  /** Data byte k meets the keystream byte of step k + 1. */
  function Crypt(p: Prga, data: seq<byte>): (r: seq<byte>)
    ensures |r| == |data|
  {
    seq(|data|, k requires 0 <= k < |data| => Xor(data[k], Output(After(p, k + 1))))
  }

  function Start(t: Table): Prga { Prga(t, 0, 0) }

  function KeystreamByte(p: Prga, k: nat): byte { Output(After(p, k + 1)) }

  /** One step in full: the index moves on, the other index takes in the entry there, both entries change places,
      and the keystream byte stands at their sum. */
  lemma OneStep(p: Prga, n: nat, t: Table, i: byte, j: byte)
    requires After(p, n) == Prga(t, i, j)
    ensures var i', j' := (i + 1) % 256, (j + t[(i + 1) % 256]) % 256;
            var t' := t[i' := t[j']][j' := t[i']];
            var x: int, y: int := t[i'], t[j'];
            After(p, n + 1) == Prga(t', i', j') && KeystreamByte(p, n) == t'[(x + y) % 256]
  {
    assert After(p, n + 1) == Next(After(p, n));
  }

  lemma AfterNothing(p: Prga)
    ensures After(p, 0) == p
  {
  }

  /** The first keystream bytes of the identity table. */
  lemma IdentityKeystream()
    ensures var p := Start(Range(256));
            KeystreamByte(p, 0) == 2 && KeystreamByte(p, 1) == 5 && KeystreamByte(p, 2) == 7
  {
    hide After, KeystreamByte;
    var t := Range(256);
    var p := Start(t);
    AfterNothing(p);
    assert t[1] == 1 && t[2] == 2 && t[3] == 3 && t[5] == 5 && t[7] == 7;
    hide Range;
    OneStep(p, 0, t, 0, 0);
    assert t[1 := t[1]][1 := t[1]] == t;
    OneStep(p, 1, t, 1, 1);
    OneStep(p, 2, t[2 := 3][3 := 2], 2, 3);
  }

  /** The key is used byte by byte, and repeated as often as needed. */
  lemma KsaRepeats(key: seq<byte>)
    requires key != []
    ensures Ksa(key) == Ksa(seq(256, k requires 0 <= k < 256 => key[k % |key|]))
  {
    hide KsaFrom;
    var repeated := seq(256, k requires 0 <= k < 256 => key[k % |key|]);
    KsaRepeatsFrom(Range(256), key, repeated, 0, 0);
  }

  lemma {:induction false} KsaRepeatsFrom(t: Table, key: seq<byte>, repeated: seq<byte>, i: nat, j: byte)
    requires key != [] && i <= 256 && |repeated| == 256 && forall k | 0 <= k < 256 :: repeated[k] == key[k % |key|]
    ensures KsaFrom(t, key, i, j) == KsaFrom(t, repeated, i, j)
    decreases 256 - i
  {
    hide KsaFrom, SwapAt;
    if i == 256 {
      KsaEnds(t, key, j);
      KsaEnds(t, repeated, j);
    } else {
      KsaStep(t, key, i, j);
      KsaStep(t, repeated, i, j);
      var j' := (j + t[i] + key[i % |key|]) % 256;
      KsaRepeatsFrom(SwapAt(t, i, j'), key, repeated, i + 1, j');
    }
  }

  // ----- permutations -----

  /** Every byte value occurs exactly once. */
  ghost predicate IsPermutation(t: Table) {
    forall b: byte :: multiset(t)[b] == 1
  }

  lemma {:induction false} RangeCounts(n: nat, b: byte)
    requires n <= 256
    ensures multiset(Range(n))[b] == if b < n then 1 else 0
  {
    if n > 0 {
      RangeCounts(n - 1, b);
      assert Range(n) == Range(n - 1) + [n - 1];
    }
  }

  lemma SwapKeepsCounts<T>(s: seq<T>, a: nat, b: nat)
    requires a < |s| && b < |s|
    ensures multiset(SwapAt(s, a, b)) == multiset(s)
  {
  }

  lemma {:induction false} KsaFromKeepsCounts(t: Table, key: seq<byte>, i: nat, j: byte)
    requires i <= 256 && key != []
    ensures multiset(KsaFrom(t, key, i, j)) == multiset(t)
    decreases 256 - i
  {
    if i < 256 {
      var j' := (j + t[i] + key[i % |key|]) % 256;
      SwapKeepsCounts(t, i, j');
      KsaFromKeepsCounts(SwapAt(t, i, j'), key, i + 1, j');
    }
  }

  /** The key schedule permutes the byte values, for every non-empty key. */
  lemma KsaIsPermutation(key: seq<byte>)
    requires key != []
    ensures IsPermutation(Ksa(key))
  {
    hide Ksa, KsaFrom, Range;
    KsaStarts(key);
    KsaFromKeepsCounts(Range(256), key, 0, 0);
    forall b: byte
      ensures multiset(Ksa(key))[b] == 1
    {
      RangeCounts(256, b);
    }
  }

  lemma NextKeepsCounts(p: Prga)
    ensures multiset(Next(p).table) == multiset(p.table)
  {
    SwapKeepsCounts(p.table, Next(p).i, Next(p).j);
  }

  /** Generating keystream permutes the table and does nothing else to it. */
  lemma {:induction false} AfterKeepsCounts(p: Prga, n: nat)
    ensures multiset(After(p, n).table) == multiset(p.table)
  {
    hide Next;
    if n > 0 {
      AfterKeepsCounts(p, n - 1);
      NextKeepsCounts(After(p, n - 1));
    }
  }

  lemma AfterKeepsPermutation(key: seq<byte>, n: nat)
    requires key != []
    ensures IsPermutation(After(Start(Ksa(key)), n).table)
  {
    KsaIsPermutation(key);
    AfterKeepsCounts(Start(Ksa(key)), n);
  }

  /** In a permutation, two places never hold the same byte. */
  lemma PermutationIsInjective(t: Table, x: nat, y: nat)
    requires IsPermutation(t) && x < y < 256
    ensures t[x] != t[y]
  {
    assert t == t[..y] + t[y..];
    assert multiset(t)[t[x]] == multiset(t[..y])[t[x]] + multiset(t[y..])[t[x]];
    assert t[..y][x] == t[x] && t[y..][0] == t[y];
    assert t[x] in t[..y] && t[y] in t[y..];
  }

  // ----- streaming -----

  lemma {:induction false} AfterAfter(p: Prga, m: nat, n: nat)
    ensures After(After(p, m), n) == After(p, m + n)
  {
    hide Next;
    if n > 0 {
      AfterAfter(p, m, n - 1);
    }
  }

  lemma CryptAt(p: Prga, data: seq<byte>, k: nat)
    requires k < |data|
    ensures Crypt(p, data)[k] == Xor(data[k], Output(After(p, k + 1)))
  {
  }

  lemma CryptConcatAt(p: Prga, a: seq<byte>, b: seq<byte>, k: nat)
    requires k < |a| + |b|
    ensures Crypt(p, a + b)[k] == (Crypt(p, a) + Crypt(After(p, |a|), b))[k]
  {
    hide *;
    CryptAt(p, a + b, k);
    if k < |a| {
      CryptAt(p, a, k);
    } else {
      CryptAt(After(p, |a|), b, k - |a|);
      AfterAfter(p, |a|, k - |a| + 1);
    }
  }

  /** Encrypting in two parts continues the keystream. */
  lemma CryptConcat(p: Prga, a: seq<byte>, b: seq<byte>)
    ensures Crypt(p, a + b) == Crypt(p, a) + Crypt(After(p, |a|), b)
  {
    var whole, parts := Crypt(p, a + b), Crypt(p, a) + Crypt(After(p, |a|), b);
    assert |whole| == |parts|;
    forall k | 0 <= k < |whole|
      ensures whole[k] == parts[k]
    {
      CryptConcatAt(p, a, b, k);
    }
  }

  /** Decryption is encryption again, from the same generator state. */
  lemma CryptInvolutive(p: Prga, data: seq<byte>)
    ensures Crypt(p, Crypt(p, data)) == data
  {
    forall k | 0 <= k < |data|
      ensures Crypt(p, Crypt(p, data))[k] == data[k]
    {
      XorInvolutive(data[k], Output(After(p, k + 1)));
    }
  }

  /** The output of a transform that is fed chunk by chunk. */
  function CryptChunks(p: Prga, chunks: seq<seq<byte>>): (r: seq<seq<byte>>)
    ensures |r| == |chunks|
    decreases |chunks|
  {
    if chunks == [] then []
    else [Crypt(p, chunks[0])] + CryptChunks(After(p, |chunks[0]|), chunks[1..])
  }

  lemma {:induction false} ChunkedIsOneShot(p: Prga, chunks: seq<seq<byte>>)
    ensures Flatten(CryptChunks(p, chunks)) == Crypt(p, Flatten(chunks))
    decreases |chunks|
  {
    if chunks != [] {
      ChunkedIsOneShot(After(p, |chunks[0]|), chunks[1..]);
      CryptConcat(p, chunks[0], Flatten(chunks[1..]));
    }
  }

  /** Plain text cut one way, cipher text cut any other way: the decryptor recovers the plain text. */
  lemma StreamingRoundTrip(p: Prga, plain: seq<seq<byte>>, cipher: seq<seq<byte>>)
    requires Flatten(cipher) == Flatten(CryptChunks(p, plain))
    ensures Flatten(CryptChunks(p, cipher)) == Flatten(plain)
  {
    ChunkedIsOneShot(p, plain);
    ChunkedIsOneShot(p, cipher);
    CryptInvolutive(p, Flatten(plain));
  }
}
