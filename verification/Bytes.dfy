/** Bytes, C# integer casts, big-endian numbers and NUL-terminated strings. */
module Bytes {
  type byte = x: int | 0 <= x < 0x100
  type ushort = x: int | 0 <= x < 0x1_0000
  type int32 = x: int | -0x8000_0000 <= x < 0x8000_0000

  /** What a call does: return a value, or throw. Which exception is thrown is not distinguished. */
  datatype Outcome<+T> = Returned(value: T) | Thrown

  /** A reference that may be null. */
  datatype Option<+T> = None | Some(value: T)

  // The unchecked casts (byte), (ushort) and (int) keep the low bits.
  function ToByte(n: int): byte { n % 0x100 }

  function ToUShort(n: int): ushort { n % 0x1_0000 }

  function ToInt32(n: int): int32 {
    var u := n % 0x1_0000_0000;
    if u < 0x8000_0000 then u else u - 0x1_0000_0000
  }

  // ----- exclusive or -----

  /** The exclusive or of the low bits of two numbers, bit by bit. */
  function XorBits(a: nat, b: nat, bits: nat): nat {
    if bits == 0 then 0 else (a + b) % 2 + 2 * XorBits(a / 2, b / 2, bits - 1)
  }

  function Pow2(bits: nat): nat {
    if bits == 0 then 1 else 2 * Pow2(bits - 1)
  }

  lemma {:induction false} XorBitsFit(a: nat, b: nat, bits: nat)
    ensures XorBits(a, b, bits) < Pow2(bits)
  {
    if bits > 0 {
      XorBitsFit(a / 2, b / 2, bits - 1);
    }
  }

  lemma BitUndone(a: nat, b: nat, q: nat)
    ensures var r := (a + b) % 2 + 2 * q;
            r / 2 == q && (r + b) % 2 == a % 2
  {
  }

  lemma {:induction false} XorBitsInvolutive(a: nat, b: nat, bits: nat)
    requires a < Pow2(bits)
    ensures XorBits(XorBits(a, b, bits), b, bits) == a
  {
    if bits > 0 {
      XorBitsInvolutive(a / 2, b / 2, bits - 1);
      BitUndone(a, b, XorBits(a / 2, b / 2, bits - 1));
    }
  }

  lemma {:induction false} XorBitsZero(b: nat, bits: nat)
    requires b < Pow2(bits)
    ensures XorBits(0, b, bits) == b
  {
    if bits > 0 {
      XorBitsZero(b / 2, bits - 1);
    }
  }

  lemma Pow2Of8()
    ensures Pow2(8) == 0x100
  {
  }

  function Xor(a: byte, b: byte): byte {
    XorBitsFit(a, b, 8);
    Pow2Of8();
    XorBits(a, b, 8)
  }

  lemma XorInvolutive(a: byte, b: byte)
    ensures Xor(Xor(a, b), b) == a
  {
    Pow2Of8();
    XorBitsInvolutive(a, b, 8);
  }

  lemma {:induction false} XorBitsCommutes(a: nat, b: nat, bits: nat)
    ensures XorBits(a, b, bits) == XorBits(b, a, bits)
  {
    if bits > 0 {
      XorBitsCommutes(a / 2, b / 2, bits - 1);
    }
  }

  lemma XorInjective(a: byte, b: byte, c: byte)
    ensures Xor(a, b) == Xor(a, c) ==> b == c
  {
    hide XorBits;
    XorBitsCommutes(a, b, 8);
    XorBitsCommutes(a, c, 8);
    XorInvolutive(b, a);
    XorInvolutive(c, a);
  }

  /** Binary digit k of a number. */
  function Bit(n: nat, k: nat): nat
    decreases k
  {
    if k == 0 then n % 2 else Bit(n / 2, k - 1)
  }

  lemma {:induction false} BitIsBinary(n: nat, k: nat)
    ensures Bit(n, k) == 0 || Bit(n, k) == 1
    decreases k
  {
    if k > 0 {
      BitIsBinary(n / 2, k - 1);
    }
  }

  lemma XorBitsStep(a: nat, b: nat, bits: nat)
    requires bits > 0
    ensures XorBits(a, b, bits) / 2 == XorBits(a / 2, b / 2, bits - 1)
    ensures XorBits(a, b, bits) % 2 == (a + b) % 2
  {
    BitUndone(a, b, XorBits(a / 2, b / 2, bits - 1));
  }

  lemma OddSum(a: nat, b: nat)
    ensures (a + b) % 2 == 1 <==> a % 2 != b % 2
  {
  }

  lemma {:induction false} XorBitsAt(a: nat, b: nat, bits: nat, k: nat)
    requires k < bits
    ensures Bit(XorBits(a, b, bits), k) == 1 <==> Bit(a, k) != Bit(b, k)
    decreases k
  {
    hide XorBits;
    XorBitsStep(a, b, bits);
    if k > 0 {
      XorBitsAt(a / 2, b / 2, bits - 1, k - 1);
    } else {
      OddSum(a, b);
    }
  }

  /** The exclusive or of two bytes has a 1 exactly where their binary digits differ. */
  lemma XorAt(a: byte, b: byte, k: nat)
    requires k < 8
    ensures Bit(Xor(a, b), k) == 1 <==> Bit(a, k) != Bit(b, k)
  {
    hide XorBits, Bit;
    XorBitsAt(a, b, 8, k);
  }

  lemma XorZero(b: byte)
    ensures Xor(0, b) == b
  {
    Pow2Of8();
    XorBitsZero(b, 8);
  }

  // ----- big-endian numbers -----

  function High(v: ushort): byte { v / 0x100 }

  function Low(v: ushort): byte { v % 0x100 }

  function Word(high: byte, low: byte): ushort {
    var h: int := high;
    h * 0x100 + low
  }

  lemma WordHalves()
    ensures forall v: ushort {:trigger High(v)} {:trigger Low(v)} :: Word(High(v), Low(v)) == v
    ensures forall h: byte, l: byte {:trigger Word(h, l)} :: High(Word(h, l)) == h && Low(Word(h, l)) == l
  {
  }

  function Be16(v: ushort): (r: seq<byte>)
    ensures |r| == 2
  {
    [High(v), Low(v)]
  }

  function GetBe16(b: seq<byte>, i: nat): ushort
    requires i + 2 <= |b|
  {
    Word(b[i], b[i + 1])
  }

  /** The number whose base-256 digits these bytes are, the first byte being the most significant. */
  function Digits(b: seq<byte>): nat {
    if b == [] then 0 else Digits(b[..|b| - 1]) * 0x100 + b[|b| - 1]
  }

  lemma DigitsOfTwo(b: seq<byte>)
    requires |b| == 2
    ensures var high: int := b[0];
            Digits(b) == high * 0x100 + b[1]
  {
    assert b[..1] == [b[0]] && b[..1][..0] == [];
    assert Digits(b[..1]) == Digits([]) * 0x100 + b[0];
  }

  lemma DigitsOfFour(b: seq<byte>)
    requires |b| == 4
    ensures var b0: int, b1: int, b2: int := b[0], b[1], b[2];
            Digits(b) == ((b0 * 0x100 + b1) * 0x100 + b2) * 0x100 + b[3]
  {
    assert b[..3][..2] == b[..2];
    assert Digits(b[..3]) == Digits(b[..2]) * 0x100 + b[2];
    DigitsOfTwo(b[..2]);
  }

  lemma Be16Digits(v: ushort)
    ensures Digits(Be16(v)) == v
  {
    hide Digits;
    DigitsOfTwo(Be16(v));
  }

  lemma GetBe16Digits(b: seq<byte>, i: nat)
    requires i + 2 <= |b|
    ensures GetBe16(b, i) == Digits(b[i..i + 2])
  {
    hide Digits;
    DigitsOfTwo(b[i..i + 2]);
  }

  function Join(high: nat, low: byte): nat { high * 0x100 + low }

  function Be32(v: int32): (r: seq<byte>)
    ensures |r| == 4
  {
    var u := v % 0x1_0000_0000;
    [u / 0x100_0000, u / 0x1_0000 % 0x100, u / 0x100 % 0x100, u % 0x100]
  }

  function GetBe32(b: seq<byte>, i: nat): int32
    requires i + 4 <= |b|
  {
    ToInt32(Join(Join(Join(b[i], b[i + 1]), b[i + 2]), b[i + 3]))
  }

  lemma JoinSplit(n: nat)
    ensures Join(n / 0x100, n % 0x100) == n
  {
  }

  lemma DividedAgain(n: nat)
    ensures n / 0x1_0000 == n / 0x100 / 0x100 && n / 0x100_0000 == n / 0x100 / 0x100 / 0x100
  {
  }

  lemma CastBack(v: int32)
    ensures ToInt32(v % 0x1_0000_0000) == v
  {
  }

  /** The four bytes are the base-256 digits of the number, or of its two's complement. */
  lemma Be32Digits(v: int32)
    ensures Digits(Be32(v)) == if v < 0 then v + 0x1_0000_0000 else v
  {
    hide Digits;
    var u := v % 0x1_0000_0000;
    DividedAgain(u);
    DigitsOfFour(Be32(v));
    var a, b, c := u / 0x100, u / 0x100 / 0x100, u / 0x100 / 0x100 / 0x100;
    assert u == a * 0x100 + u % 0x100 && a == b * 0x100 + a % 0x100 && b == c * 0x100 + b % 0x100;
  }

  lemma GetBe32Digits(b: seq<byte>, i: nat)
    requires i + 4 <= |b|
    ensures var v := GetBe32(b, i);
            Digits(b[i..i + 4]) == if v < 0 then v + 0x1_0000_0000 else v
  {
    hide Digits;
    DigitsOfFour(b[i..i + 4]);
  }

  /** Equally many digits of the same number are the same. */
  lemma {:induction false} SameDigits(a: seq<byte>, b: seq<byte>)
    requires |a| == |b| && Digits(a) == Digits(b)
    ensures a == b
    decreases |a|
  {
    if a != [] {
      var n := |a| - 1;
      SameDigits(a[..n], b[..n]);
      assert a == a[..n] + [a[n]] && b == b[..n] + [b[n]];
    }
  }

  lemma Be32RoundTrip(v: int32)
    ensures GetBe32(Be32(v), 0) == v
  {
    hide Join, ToInt32;
    var u := v % 0x1_0000_0000;
    DividedAgain(u);
    JoinSplit(u);
    JoinSplit(u / 0x100);
    JoinSplit(u / 0x100 / 0x100);
    CastBack(v);
  }

  // ----- checksum -----

  function Sum(b: seq<byte>): nat {
    if b == [] then 0 else Sum(b[..|b| - 1]) + b[|b| - 1]
  }

  function Checksum(b: seq<byte>): byte { ToByte(Sum(b)) }

  lemma SumOne(x: byte)
    ensures Sum([x]) == x && Sum([]) == 0
  {
    assert [x][..0] == [];
  }

  /** The sum takes every byte in: it adds up over any cut. */
  lemma {:induction false} SumConcat(a: seq<byte>, b: seq<byte>)
    ensures Sum(a + b) == Sum(a) + Sum(b)
    decreases |b|
  {
    if b == [] {
      assert a + b == a;
    } else {
      SumConcat(a, b[..|b| - 1]);
      assert (a + b)[..|a + b| - 1] == a + b[..|b| - 1];
    }
  }

  lemma SumAround(b: seq<byte>, i: nat)
    requires i < |b|
    ensures Sum(b) == Sum(b[..i]) + b[i] + Sum(b[i + 1..])
  {
    hide Sum;
    SumConcat(b[..i], [b[i]]);
    SumConcat(b[..i] + [b[i]], b[i + 1..]);
    SumOne(b[i]);
    assert b == b[..i] + [b[i]] + b[i + 1..];
  }

  /** Changing any one byte changes the checksum by just that difference, modulo 256. */
  lemma ChecksumChange(b: seq<byte>, i: nat, x: byte)
    requires i < |b|
    ensures Checksum(b[i := x]) == (Checksum(b) + x - b[i]) % 0x100
  {
    hide Sum;
    var c := b[i := x];
    SumAround(b, i);
    SumAround(c, i);
    assert c[..i] == b[..i] && c[i + 1..] == b[i + 1..];
    var rest := Sum(b[..i]) + Sum(b[i + 1..]);
    assert Sum(c) == rest + x && Sum(b) == rest + b[i];
  }

  lemma {:induction false} ChecksumOfZeros(n: nat)
    ensures Sum(seq(n, _ => 0)) == 0
  {
    if n > 0 {
      ChecksumOfZeros(n - 1);
      assert seq(n, _ => 0)[..n - 1] == seq(n - 1, _ => 0);
    }
  }

  // ----- sequences of sequences -----

  lemma SliceOfSlice<T>(b: seq<T>, from: nat, to: nat, i: nat, j: nat)
    requires from <= to <= |b| && i <= j <= to - from
    ensures b[from..to][i..j] == b[from + i..from + j]
  {
    var s, t := b[from..to][i..j], b[from + i..from + j];
    assert forall k | 0 <= k < |s| :: s[k] == b[from..to][i + k] == t[k];
    assert s == t;
  }

  function Flatten<T>(ss: seq<seq<T>>): seq<T> {
    if ss == [] then [] else ss[0] + Flatten(ss[1..])
  }

  lemma {:induction false} FlattenSnoc<T>(ss: seq<seq<T>>, s: seq<T>)
    ensures Flatten(ss + [s]) == Flatten(ss) + s
  {
    if ss == [] {
      assert ss + [s] == [s];
      assert Flatten([s]) == s + Flatten([]);
    } else {
      FlattenSnoc(ss[1..], s);
      assert (ss + [s])[1..] == ss[1..] + [s];
      assert ss[0] + (Flatten(ss[1..]) + s) == Flatten(ss) + s;
    }
  }

  // ----- NUL-terminated strings (a string is its byte sequence in code page 1252) -----

  const NUL: byte := 0
  const SPACE: byte := 0x20

  predicate NoNul(s: seq<byte>) { NUL !in s }

  function FindZero(b: seq<byte>, from: nat): (k: nat)
    requires from <= |b|
    ensures from <= k <= |b|
    ensures NoNul(b[from..k])
    ensures k < |b| ==> b[k] == NUL
    decreases |b| - from
  {
    if from == |b| || b[from] == NUL then from
    else
      var k := FindZero(b, from + 1);
      assert b[from..k] == [b[from]] + b[from + 1..k];
      k
  }

  function TrimEnd(s: seq<byte>): (r: seq<byte>)
    ensures r <= s
    ensures r == s <==> s == [] || s[|s| - 1] !in {NUL, SPACE}
  {
    if s != [] && s[|s| - 1] in {NUL, SPACE} then TrimEnd(s[..|s| - 1]) else s
  }

  /** The string at offset and the offset behind its terminator; without a terminator, the empty string. */
  function GetNullStr(b: seq<byte>, offset: nat): Outcome<(seq<byte>, nat)> {
    if offset > |b| then Thrown
    else
      var k := FindZero(b, offset);
      if k < |b| then Returned((TrimEnd(b[offset..k]), k + 1)) else Returned(([], offset))
  }

  /** The names that survive being written with a terminator and read back. */
  predicate Clean(s: seq<byte>) {
    NoNul(s) && (s == [] || s[|s| - 1] != SPACE)
  }

  lemma {:induction false} FindZeroIs(b: seq<byte>, from: nat, z: nat)
    requires from <= z < |b| && b[z] == NUL && NoNul(b[from..z])
    ensures FindZero(b, from) == z
    decreases z - from
  {
    if from < z {
      assert b[from] == b[from..z][0];
      assert b[from + 1..z] == b[from..z][1..];
      FindZeroIs(b, from + 1, z);
    }
  }

  /** A NUL-terminated name is read back exactly when it holds no NUL and does not end in a space. */
  lemma NullStrRoundTrip(prefix: seq<byte>, name: seq<byte>, suffix: seq<byte>)
    ensures GetNullStr(prefix + name + [NUL] + suffix, |prefix|) == Returned((name, |prefix| + |name| + 1))
            <==> Clean(name)
  {
    var b := prefix + name + [NUL] + suffix;
    var n := FindZero(name, 0);
    assert name[0..n] == name[..n];
    assert b[|prefix|..|prefix| + n] == name[..n];
    assert b[|prefix| + n] == NUL;
    FindZeroIs(b, |prefix|, |prefix| + n);
    if n == |name| {
      assert name[..n] == name;
    }
  }

  function Spaces(n: nat): (r: seq<byte>)
    ensures |r| == n
  {
    seq(n, _ => 0x20)
  }

  /** Clean names hold no zero byte and do not end in the byte 32. */
  lemma CleanIff(s: seq<byte>)
    ensures Clean(s) <==> (forall k | 0 <= k < |s| :: s[k] != 0) && (s == [] || s[|s| - 1] != 0x20)
  {
  }

  lemma {:induction false} TrimEndTrims(name: seq<byte>, n: nat)
    requires Clean(name)
    ensures TrimEnd(name + Spaces(n)) == name
  {
    var s := name + Spaces(n);
    if n == 0 {
      assert s == name;
    } else {
      TrimEndTrims(name, n - 1);
      assert s[..|s| - 1] == name + Spaces(n - 1);
    }
  }

  /** Spaces before the terminator are cut off. */
  lemma NullStrTrims(prefix: seq<byte>, name: seq<byte>, n: nat, suffix: seq<byte>)
    requires Clean(name)
    ensures GetNullStr(prefix + (name + Spaces(n)) + [NUL] + suffix, |prefix|)
            == Returned((name, |prefix| + |name| + n + 1))
  {
    var padded := name + Spaces(n);
    var b := prefix + padded + [NUL] + suffix;
    assert b[|prefix|..|prefix| + |padded|] == padded;
    FindZeroIs(b, |prefix|, |prefix| + |padded|);
    TrimEndTrims(name, n);
  }

  lemma FoundIsThere(b: seq<byte>, offset: nat)
    requires offset <= |b|
    ensures FindZero(b, offset) < |b| ==> NUL in b[offset..]
  {
    var k := FindZero(b, offset);
    if k < |b| {
      assert b[offset..][k - offset] == NUL;
    }
  }

  /** Without a terminator nothing is read, and an offset behind the end throws. */
  lemma NullStrUnterminated(b: seq<byte>, offset: nat)
    ensures offset > |b| ==> GetNullStr(b, offset).Thrown?
    ensures offset <= |b| && NoNul(b[offset..]) ==> GetNullStr(b, offset) == Returned(([], offset))
  {
    if offset <= |b| {
      FoundIsThere(b, offset);
    }
  }
}
