/** Rewriting (file, size) references into numbers of a font table that grows on the way. */
module Fonts {
  import opened Bytes

  datatype Font = Font(number: int32, file: Option<string>, size: int32, fullName: Option<string>)

  /** The font fields of a button or page state; index 0 means that the font is given by file and size. */
  datatype Ref = Ref(index: int32, file: Option<string>, size: int32)

  const DEFAULT_FONT := "arial.ttf"

  function WantedFile(r: Ref): string { if r.file.Some? then r.file.value else DEFAULT_FONT }

  predicate Matches(f: Font, file: string, size: int32) { f.file == Some(file) && f.size == size }

  predicate Suits(f: Font, r: Ref) { Matches(f, WantedFile(r), r.size) }

  /** The first suitable entry. */
  function Lookup(fonts: seq<Font>, r: Ref): Option<Font> {
    if fonts == [] then None else if Suits(fonts[0], r) then Some(fonts[0]) else Lookup(fonts[1..], r)
  }

  /** The entry that the font dictionary keeps for a number: the first one. */
  function Numbered(fonts: seq<Font>, number: int32): Option<Font> {
    if fonts == [] then None else if fonts[0].number == number then Some(fonts[0]) else Numbered(fonts[1..], number)
  }

  function MaxNumber(fonts: seq<Font>): (m: int32)
    requires fonts != []
    ensures forall k | 0 <= k < |fonts| :: fonts[k].number <= m
    ensures exists k :: 0 <= k < |fonts| && fonts[k].number == m
  {
    if |fonts| == 1 then fonts[0].number
    else
      var rest := MaxNumber(fonts[1..]);
      assert forall k | 0 <= k < |fonts| :: k == 0 || fonts[k] == fonts[1..][k - 1];
      var m := if fonts[0].number > rest then fonts[0].number else rest;
      assert exists k :: 0 <= k < |fonts| && fonts[k].number == m by {
        if m == rest {
          var j :| 0 <= j < |fonts[1..]| && fonts[1..][j].number == m;
          assert fonts[j + 1].number == m;
        }
      }
      m
  }

  /** string.Replace(".ttf", "") */
  function StripTtf(s: string): string {
    if |s| < 4 then s else if s[..4] == ".ttf" then StripTtf(s[4..]) else [s[0]] + StripTtf(s[1..])
  }

  function FullName(g5: seq<Font>, file: string): string {
    if g5 == [] then StripTtf(file)
    else if g5[0].file == Some(file) then (if g5[0].fullName.Some? then g5[0].fullName.value else StripTtf(file))
    else FullName(g5[1..], file)
  }

  predicate TtfAt(s: string, i: nat) { i + 4 <= |s| && s[i..i + 4] == ".ttf" }

  predicate HasTtf(s: string) { exists i | 0 <= i <= |s| :: TtfAt(s, i) }

  lemma TailHasTtf(s: string)
    requires s != [] && !HasTtf(s)
    ensures !HasTtf(s[1..])
  {
    if i :| 0 <= i <= |s[1..]| && TtfAt(s[1..], i) {
      SliceOfSlice(s, 1, |s|, i, i + 4);
      assert s[1..] == s[1..|s|] && TtfAt(s, i + 1);
    }
  }

  /** Without an occurrence nothing is replaced. */
  lemma {:induction false} StripNothing(s: string)
    requires !HasTtf(s)
    ensures StripTtf(s) == s
  {
    if |s| >= 4 {
      assert s[0..4] == s[..4] && !TtfAt(s, 0);
      TailHasTtf(s);
      StripNothing(s[1..]);
    }
  }

  /** The first occurrence is cut out, and the rest goes on behind it. */
  lemma {:induction false} StripFirst(a: string, b: string)
    requires !HasTtf(a)
    ensures StripTtf(a + ".ttf" + b) == a + StripTtf(b)
  {
    var s := a + ".ttf" + b;
    if a == [] {
      assert s[..4] == ".ttf" && s[4..] == b;
    } else {
      TailHasTtf(a);
      StripFirst(a[1..], b);
      assert s[1..] == a[1..] + ".ttf" + b;
      NotYet(a, b);
    }
  }

  lemma NotYet(a: string, b: string)
    requires a != [] && !HasTtf(a)
    ensures (a + ".ttf" + b)[..4] != ".ttf"
  {
    var s := a + ".ttf" + b;
    if |a| >= 4 {
      assert a[0..4] == s[..4] && !TtfAt(a, 0);
    } else {
      assert s[|a|] == '.' && ".ttf"[|a|] != '.';
      assert s[..4][|a|] == s[|a|];
    }
  }

  /** The full name is that of the first G5 font of the file, if it has one, and else the file without ".ttf". */
  lemma {:induction false} FullNameIs(g5: seq<Font>, file: string, k: nat)
    requires k <= |g5| && forall j | 0 <= j < k :: g5[j].file != Some(file)
    ensures k == |g5| ==> FullName(g5, file) == StripTtf(file)
    ensures k < |g5| && g5[k].file == Some(file) ==>
              FullName(g5, file) == if g5[k].fullName.Some? then g5[k].fullName.value else StripTtf(file)
  {
    hide StripTtf;
    if k > 0 {
      assert g5[0].file != Some(file);
      FullNameIs(g5[1..], file, k - 1);
    }
  }

  // ----- the conversion -----

  /** The next number: one more than the largest of the table and what was added since, as a 32-bit integer. */
  function NextNumber(g4: seq<Font>, fonts: seq<Font>): int32
    requires g4 != []
  {
    ToInt32(LargestSoFar(g4, fonts) + 1)
  }

  /** The running maximum; ++ wraps it around. */
  function LargestSoFar(g4: seq<Font>, fonts: seq<Font>): int32
    requires g4 != []
  {
    var max: int := MaxNumber(g4);
    ToInt32(max + |fonts| - |g4|)
  }

  lemma Int32Fits(n: int)
    requires -0x8000_0000 <= n < 0x8000_0000
    ensures ToInt32(n) == n
  {
  }

  lemma Int32Steps(n: int)
    ensures ToInt32(ToInt32(n) + 1) == ToInt32(n + 1)
  {
  }

  lemma CounterSteps(g4: seq<Font>, fonts: seq<Font>, f: Font)
    requires g4 != []
    ensures LargestSoFar(g4, fonts + [f]) == NextNumber(g4, fonts)
  {
    var max: int := MaxNumber(g4);
    Int32Steps(max + |fonts| - |g4|);
  }

  predicate Missing(fonts: seq<Font>, r: Ref) { r.index == 0 && Lookup(fonts, r).None? }

  function NewFont(g4: seq<Font>, g5: seq<Font>, fonts: seq<Font>, r: Ref): Font
    requires g4 != []
  {
    Font(NextNumber(g4, fonts), Some(WantedFile(r)), r.size, Some(FullName(g5, WantedFile(r))))
  }

  /** The table after the first k references. */
  function Table(g4: seq<Font>, g5: seq<Font>, refs: seq<Ref>, k: nat): (fonts: seq<Font>)
    requires g4 != [] && k <= |refs|
    ensures g4 <= fonts && |fonts| <= |g4| + k
  {
    if k == 0 then g4
    else
      var fonts := Table(g4, g5, refs, k - 1);
      if Missing(fonts, refs[k - 1]) then fonts + [NewFont(g4, g5, fonts, refs[k - 1])] else fonts
  }

  lemma {:induction false} LookupGrows(fonts: seq<Font>, more: seq<Font>, r: Ref)
    ensures Lookup(fonts + more, r) == if Lookup(fonts, r).Some? then Lookup(fonts, r) else Lookup(more, r)
  {
    if fonts == [] {
      assert fonts + more == more;
    } else {
      LookupGrows(fonts[1..], more, r);
      assert (fonts + more)[1..] == fonts[1..] + more;
    }
  }

  lemma {:induction false} NumberedGrows(fonts: seq<Font>, more: seq<Font>, n: int32)
    ensures Numbered(fonts + more, n) == if Numbered(fonts, n).Some? then Numbered(fonts, n) else Numbered(more, n)
  {
    if fonts == [] {
      assert fonts + more == more;
    } else {
      NumberedGrows(fonts[1..], more, n);
      assert (fonts + more)[1..] == fonts[1..] + more;
    }
  }

  lemma {:induction false} LookupFinds(fonts: seq<Font>, r: Ref)
    ensures Lookup(fonts, r).Some? <==> exists k :: 0 <= k < |fonts| && Suits(fonts[k], r)
    ensures Lookup(fonts, r).Some? ==> Suits(Lookup(fonts, r).value, r) && Lookup(fonts, r).value in fonts
  {
    if fonts != [] {
      LookupFinds(fonts[1..], r);
      assert forall k | 1 <= k < |fonts| :: fonts[k] == fonts[1..][k - 1];
      if Lookup(fonts[1..], r).Some? {
        var j :| 0 <= j < |fonts[1..]| && Suits(fonts[1..][j], r);
        assert Suits(fonts[j + 1], r);
      }
    }
  }

  lemma {:induction false} NumberedFinds(fonts: seq<Font>, k: nat)
    requires k < |fonts| && forall j | 0 <= j < k :: fonts[j].number != fonts[k].number
    ensures Numbered(fonts, fonts[k].number) == Some(fonts[k])
  {
    if k > 0 {
      assert fonts[0].number != fonts[k].number;
      NumberedFinds(fonts[1..], k - 1);
    }
  }

  lemma {:induction false} NumberedIsThere(fonts: seq<Font>, f: Font)
    requires f in fonts
    ensures Numbered(fonts, f.number).Some?
  {
    if fonts[0].number != f.number {
      assert f in fonts[1..];
      NumberedIsThere(fonts[1..], f);
    }
  }

  lemma NewFontIsFound(g4: seq<Font>, g5: seq<Font>, fonts: seq<Font>, r: Ref)
    requires g4 != [] && Lookup(fonts, r).None?
    ensures Lookup(fonts + [NewFont(g4, g5, fonts, r)], r) == Some(NewFont(g4, g5, fonts, r))
  {
    LookupGrows(fonts, [NewFont(g4, g5, fonts, r)], r);
  }

  /** Tables of later references extend those of earlier ones. */
  lemma {:induction false} TableGrows(g4: seq<Font>, g5: seq<Font>, refs: seq<Ref>, j: nat, k: nat)
    requires g4 != [] && j <= k <= |refs|
    ensures Table(g4, g5, refs, j) <= Table(g4, g5, refs, k)
  {
    hide Table, NewFont, Missing;
    if j < k {
      TableGrows(g4, g5, refs, j, k - 1);
      TableStep(g4, g5, refs, k - 1);
    }
  }

  /** After a reference is processed, its font is in the table, and stays the one that is found. */
  lemma FoundOnceProcessed(g4: seq<Font>, g5: seq<Font>, refs: seq<Ref>, j: nat, k: nat)
    requires g4 != [] && j < k <= |refs| && refs[j].index == 0
    ensures var found := Lookup(Table(g4, g5, refs, j + 1), refs[j]);
            found.Some? && Lookup(Table(g4, g5, refs, k), refs[j]) == found
  {
    hide Table, Lookup, NewFont;
    var before, after, final := Table(g4, g5, refs, j), Table(g4, g5, refs, j + 1), Table(g4, g5, refs, k);
    TableStep(g4, g5, refs, j);
    if Missing(before, refs[j]) {
      NewFontIsFound(g4, g5, before, refs[j]);
    }
    TableGrows(g4, g5, refs, j + 1, k);
    assert final == after + final[|after|..];
    LookupGrows(after, final[|after|..], refs[j]);
  }

  lemma TableStep(g4: seq<Font>, g5: seq<Font>, refs: seq<Ref>, j: nat)
    requires g4 != [] && j < |refs|
    ensures var before := Table(g4, g5, refs, j);
            Table(g4, g5, refs, j + 1)
            == if Missing(before, refs[j]) then before + [NewFont(g4, g5, before, refs[j])] else before
  {
  }

  /** What a reference becomes. */
  function Converted(g4: seq<Font>, g5: seq<Font>, refs: seq<Ref>, j: nat): Ref
    requires g4 != [] && j < |refs|
  {
    if refs[j].index != 0 then refs[j]
    else
      FoundOnceProcessed(g4, g5, refs, j, j + 1);
      Ref(Lookup(Table(g4, g5, refs, j + 1), refs[j]).value.number, None, 0)
  }

  lemma ConvertedIs(g4: seq<Font>, g5: seq<Font>, refs: seq<Ref>, j: nat)
    requires g4 != [] && j < |refs|
    ensures refs[j].index == 0 ==> Lookup(Table(g4, g5, refs, j + 1), refs[j]).Some?
    ensures Converted(g4, g5, refs, j) ==
            if refs[j].index != 0 then refs[j]
            else Ref(Lookup(Table(g4, g5, refs, j + 1), refs[j]).value.number, None, 0)
  {
    hide Lookup, Table;
    if refs[j].index == 0 {
      FoundOnceProcessed(g4, g5, refs, j, j + 1);
    }
  }

  // ----- meaning -----

  /** The number of the entry at place t behind the old table: the largest old number and one more for each entry
      since, wrapped around as a 32-bit integer. */
  function AddedNumber(g4: seq<Font>, t: nat): int32
    requires g4 != []
  {
    var max: int := MaxNumber(g4);
    ToInt32(max + t - |g4| + 1)
  }

  lemma NextNumberIs(g4: seq<Font>, fonts: seq<Font>)
    requires g4 != []
    ensures NextNumber(g4, fonts) == AddedNumber(g4, |fonts|)
  {
    hide MaxNumber;
    var max: int := MaxNumber(g4);
    Int32Steps(max + |fonts| - |g4|);
  }

  predicate Consecutive(g4: seq<Font>, fonts: seq<Font>)
    requires g4 != []
  {
    forall t | |g4| <= t < |fonts| :: fonts[t].number == AddedNumber(g4, t)
  }

  lemma {:induction false} AddedNumbers(g4: seq<Font>, g5: seq<Font>, refs: seq<Ref>, k: nat)
    requires g4 != [] && k <= |refs|
    ensures Consecutive(g4, Table(g4, g5, refs, k))
  {
    hide MaxNumber, FullName, NextNumber, Lookup, AddedNumber;
    if k > 0 {
      AddedNumbers(g4, g5, refs, k - 1);
      NextNumberIs(g4, Table(g4, g5, refs, k - 1));
    }
  }

  /** Integers closer than 2^32 are cast to different numbers. */
  lemma CastsApart(a: int, b: int)
    requires a < b < a + 0x1_0000_0000
    ensures ToInt32(a) != ToInt32(b)
  {
  }

  lemma AddedApart(g4: seq<Font>, s: nat, t: nat)
    requires g4 != [] && s < t < s + 0x1_0000_0000
    ensures AddedNumber(g4, s) != AddedNumber(g4, t)
  {
    hide MaxNumber, ToInt32;
    var max: int := MaxNumber(g4);
    CastsApart(max + s - |g4| + 1, max + t - |g4| + 1);
  }

  /** The dictionary does not hide the font of the reference behind an earlier entry of the same number: neither the
      font that the old table has for it, nor the one that is added under the given number. */
  predicate NotShadowed(g4: seq<Font>, r: Ref, number: int32) {
    match Lookup(g4, r)
    case None => Numbered(g4, number).None?
    case Some(f) =>
      var kept := Numbered(g4, f.number);
      kept.Some? && Suits(kept.value, r)
  }

  /** The index of the converted reference leads, in the final dictionary, to the font it asked for. */
  predicate Resolves(fonts: seq<Font>, converted: Ref, original: Ref) {
    var kept := Numbered(fonts, converted.index);
    kept.Some? && Suits(kept.value, original)
  }

  lemma {:induction false} NumberedFrom(fonts: seq<Font>, n: int32)
    ensures Numbered(fonts, n).Some? ==> Numbered(fonts, n).value in fonts
  {
    if fonts != [] {
      NumberedFrom(fonts[1..], n);
    }
  }

  lemma AddedFound(g4: seq<Font>, fonts: seq<Font>, t: nat)
    requires g4 != [] && g4 <= fonts && Consecutive(g4, fonts) && |fonts| <= |g4| + 0xFFFF_FFFF
    requires |g4| <= t < |fonts|
    ensures Numbered(fonts[|g4|..], fonts[t].number) == Some(fonts[t])
  {
    hide AddedNumber, Numbered;
    var added := fonts[|g4|..];
    forall s | 0 <= s < t - |g4|
      ensures added[s].number != added[t - |g4|].number
    {
      assert added[s] == fonts[|g4| + s];
      AddedApart(g4, |g4| + s, t);
    }
    NumberedFinds(added, t - |g4|);
  }

  /** The number of an added font leads to it exactly when the old table does not use that number. */
  lemma AddedResolvesIff(g4: seq<Font>, fonts: seq<Font>, t: nat, r: Ref)
    requires g4 != [] && g4 <= fonts && Consecutive(g4, fonts) && |fonts| <= |g4| + 0xFFFF_FFFF
    requires |g4| <= t < |fonts| && Suits(fonts[t], r) && Lookup(g4, r).None?
    ensures var kept := Numbered(fonts, fonts[t].number);
            kept.Some? && (Suits(kept.value, r) <==> Numbered(g4, fonts[t].number).None?)
  {
    hide Suits, Consecutive, Numbered, Lookup;
    var added, n := fonts[|g4|..], fonts[t].number;
    assert fonts == g4 + added;
    NumberedGrows(g4, added, n);
    AddedFound(g4, fonts, t);
    if Numbered(g4, n).Some? {
      NumberedFrom(g4, n);
      LookupFinds(g4, r);
    }
  }

  /** For any table, with the counter wrapping around as it may: the meaning of a reference is preserved exactly when
      its font is not shadowed in the old table. */
  lemma MeaningPreservedIff(g4: seq<Font>, g5: seq<Font>, refs: seq<Ref>, j: nat)
    requires g4 != [] && |refs| <= 0xFFFF_FFFF && j < |refs| && refs[j].index == 0
    ensures var converted := Converted(g4, g5, refs, j);
            Resolves(Table(g4, g5, refs, |refs|), converted, refs[j]) <==> NotShadowed(g4, refs[j], converted.index)
  {
    hide Suits, Consecutive;
    var r := refs[j];
    var fonts := Table(g4, g5, refs, |refs|);
    FoundOnceProcessed(g4, g5, refs, j, |refs|);
    var found := Lookup(fonts, r).value;
    assert Converted(g4, g5, refs, j).index == found.number;
    var added := fonts[|g4|..];
    assert fonts == g4 + added;
    LookupGrows(g4, added, r);
    if Lookup(g4, r).Some? {
      NumberedGrows(g4, added, found.number);
      LookupFinds(g4, r);
      NumberedIsThere(g4, found);
    } else {
      LookupFinds(added, r);
      var t :| 0 <= t < |added| && added[t] == found;
      AddedNumbers(g4, g5, refs, |refs|);
      assert fonts[|g4| + t] == found;
      AddedResolvesIff(g4, fonts, |g4| + t, r);
    }
  }

  predicate AllPositive(fonts: seq<Font>) {
    forall k | 0 <= k < |fonts| :: fonts[k].number > 0
  }

  predicate AllDistinct(fonts: seq<Font>) {
    forall j, k | 0 <= j < k < |fonts| :: fonts[j].number != fonts[k].number
  }

  lemma DistinctResolves(fonts: seq<Font>, r: Ref)
    requires AllDistinct(fonts) && Lookup(fonts, r).Some?
    ensures Numbered(fonts, Lookup(fonts, r).value.number) == Lookup(fonts, r) && Suits(Lookup(fonts, r).value, r)
  {
    hide Suits;
    LookupFinds(fonts, r);
    var k :| 0 <= k < |fonts| && fonts[k] == Lookup(fonts, r).value;
    NumberedFinds(fonts, k);
  }

  /** The added numbers are distinct from each other and from positive old numbers, even when they wrap around. */
  lemma StaysDistinct(g4: seq<Font>, fonts: seq<Font>)
    requires g4 != [] && g4 <= fonts && AllPositive(g4) && AllDistinct(g4) && Consecutive(g4, fonts)
    requires |fonts| <= |g4| + 0x7FFF_FFFF
    ensures AllDistinct(fonts)
  {
    hide MaxNumber, ToInt32;
    var max: int := MaxNumber(g4);
    forall j, k | 0 <= j < k < |fonts|
      ensures fonts[j].number != fonts[k].number
    {
      if |g4| <= j {
        AddedApart(g4, j, k);
      } else if |g4| <= k {
        assert fonts[j] == g4[j] && 0 < g4[j].number <= max;
        Int32Fits(g4[j].number);
        CastsApart(g4[j].number, max + k - |g4| + 1);
      }
    }
  }

  /** All numbers are positive as long as the counter does not pass the largest 32-bit integer. */
  lemma PositiveIff(g4: seq<Font>, fonts: seq<Font>)
    requires g4 != [] && g4 <= fonts && AllPositive(g4) && Consecutive(g4, fonts)
    ensures AllPositive(fonts) <==> (MaxNumber(g4) as int) + |fonts| - |g4| <= 0x7FFF_FFFF
  {
    hide MaxNumber, ToInt32;
    var max: int := MaxNumber(g4);
    assert g4[0].number <= max;
    if max + |fonts| - |g4| <= 0x7FFF_FFFF {
      forall k | 0 <= k < |fonts|
        ensures fonts[k].number > 0
      {
        if |g4| <= k {
          Int32Fits(max + k - |g4| + 1);
        } else {
          assert fonts[k] == g4[k];
        }
      }
    } else {
      var k := |g4| + 0x7FFF_FFFF - max;
      LargestWraps();
      assert fonts[k].number == AddedNumber(g4, k) == ToInt32(0x8000_0000);
    }
  }

  lemma LargestWraps()
    ensures ToInt32(0x8000_0000) < 0
  {
  }

  /** From a table with distinct positive numbers, every reference by file and size becomes an index that resolves to
      that file and size; the other references and the old entries stay; the numbers stay distinct, even when the
      counter wraps around, and positive exactly when it does not. */
  lemma MeaningPreserved(g4: seq<Font>, g5: seq<Font>, refs: seq<Ref>)
    requires g4 != [] && AllPositive(g4) && AllDistinct(g4) && |refs| <= 0x7FFF_FFFF
    ensures var fonts := Table(g4, g5, refs, |refs|);
            && g4 <= fonts && AllDistinct(fonts)
            && (AllPositive(fonts) <==> (MaxNumber(g4) as int) + |fonts| - |g4| <= 0x7FFF_FFFF)
            && forall j | 0 <= j < |refs| ::
                 if refs[j].index == 0 then
                   && Resolves(fonts, Converted(g4, g5, refs, j), refs[j])
                   && (AllPositive(fonts) ==> Converted(g4, g5, refs, j).index > 0)
                 else Converted(g4, g5, refs, j) == refs[j]
  {
    hide Suits, Table, MaxNumber, Consecutive;
    var fonts := Table(g4, g5, refs, |refs|);
    AddedNumbers(g4, g5, refs, |refs|);
    StaysDistinct(g4, fonts);
    PositiveIff(g4, fonts);
    forall j | 0 <= j < |refs| && refs[j].index == 0
      ensures Resolves(fonts, Converted(g4, g5, refs, j), refs[j])
      ensures AllPositive(fonts) ==> Converted(g4, g5, refs, j).index > 0
    {
      FoundOnceProcessed(g4, g5, refs, j, |refs|);
      DistinctResolves(fonts, refs[j]);
      LookupFinds(fonts, refs[j]);
    }
  }

  /** The dictionary leads from the number to a font of this file and size: the first entry of that number has them. */
  ghost predicate LeadsTo(fonts: seq<Font>, number: int32, file: string, size: int32) {
    exists k :: 0 <= k < |fonts| && fonts[k].number == number && (forall j | 0 <= j < k :: fonts[j].number != number)
                && fonts[k].file == Some(file) && fonts[k].size == size
  }

  lemma {:induction false} NumberedIsFirst(fonts: seq<Font>, n: int32) returns (k: nat)
    requires Numbered(fonts, n).Some?
    ensures k < |fonts| && Numbered(fonts, n) == Some(fonts[k]) && fonts[k].number == n
    ensures forall j | 0 <= j < k :: fonts[j].number != n
  {
    if fonts[0].number == n {
      k := 0;
    } else {
      k := NumberedIsFirst(fonts[1..], n);
      k := k + 1;
      assert forall j | 1 <= j < k :: fonts[j] == fonts[1..][j - 1];
    }
  }

  /** Resolving is leading to the file of the reference, or to arial.ttf without one, in its size. */
  lemma ResolvesLeads(fonts: seq<Font>, converted: Ref, original: Ref)
    ensures Resolves(fonts, converted, original)
            <==> LeadsTo(fonts, converted.index, if original.file.Some? then original.file.value else "arial.ttf",
                         original.size)
  {
    if Resolves(fonts, converted, original) {
      var k := NumberedIsFirst(fonts, converted.index);
    } else if LeadsTo(fonts, converted.index, WantedFile(original), original.size) {
      var k :| 0 <= k < |fonts| && fonts[k].number == converted.index
               && (forall j | 0 <= j < k :: fonts[j].number != converted.index)
               && fonts[k].file == Some(WantedFile(original)) && fonts[k].size == original.size;
      NumberedFinds(fonts, k);
    }
  }

  /** The same with every field spelled out: a reference by file and size becomes one by number alone, and the number
      leads to the file, or to arial.ttf, in the size that was asked for. */
  lemma FontsResolved(g4: seq<Font>, g5: seq<Font>, refs: seq<Ref>, j: nat)
    requires g4 != [] && AllPositive(g4) && AllDistinct(g4) && |refs| <= 0x7FFF_FFFF && j < |refs|
    ensures var fonts, r, converted := Table(g4, g5, refs, |refs|), refs[j], Converted(g4, g5, refs, j);
            if r.index == 0 then
              && converted.file == None && converted.size == 0
              && LeadsTo(fonts, converted.index, if r.file.Some? then r.file.value else "arial.ttf", r.size)
            else converted == r
  {
    hide Table, Resolves, LeadsTo, AllPositive, AllDistinct, Lookup;
    MeaningPreserved(g4, g5, refs);
    if refs[j].index == 0 {
      ResolvesLeads(Table(g4, g5, refs, |refs|), Converted(g4, g5, refs, j), refs[j]);
      ConvertedIs(g4, g5, refs, j);
    }
  }

  /** Every added entry has a file, and the full name that belongs to it. */
  lemma {:induction false} AddedFullNames(g4: seq<Font>, g5: seq<Font>, refs: seq<Ref>, k: nat, t: nat)
    requires g4 != [] && k <= |refs| && |g4| <= t < |Table(g4, g5, refs, k)|
    ensures var f := Table(g4, g5, refs, k)[t];
            f.file.Some? && f.fullName == Some(FullName(g5, f.file.value))
  {
    hide Lookup, FullName, NextNumber;
    if k > 0 && t < |Table(g4, g5, refs, k - 1)| {
      AddedFullNames(g4, g5, refs, k - 1, t);
    }
  }

  // ----- how many entries are added -----

  /** The (file, size) pairs that are asked for and not in the table. */
  ghost function MissingPairs(g4: seq<Font>, refs: seq<Ref>, k: nat): set<(string, int32)>
    requires k <= |refs|
  {
    set j | 0 <= j < k && Missing(g4, refs[j]) :: (WantedFile(refs[j]), refs[j].size)
  }

  lemma SameWishSameFont(fonts: seq<Font>, a: Ref, b: Ref)
    requires WantedFile(a) == WantedFile(b) && a.size == b.size
    ensures Lookup(fonts, a) == Lookup(fonts, b)
  {
  }

  /** One entry is added per distinct missing pair. */
  lemma {:induction false} OneEntryPerMissingPair(g4: seq<Font>, g5: seq<Font>, refs: seq<Ref>, k: nat)
    requires g4 != [] && k <= |refs|
    ensures |Table(g4, g5, refs, k)| == |g4| + |MissingPairs(g4, refs, k)|
    ensures forall t | |g4| <= t < |Table(g4, g5, refs, k)| ::
              var f := Table(g4, g5, refs, k)[t];
              f.file.Some? && (f.file.value, f.size) in MissingPairs(g4, refs, k)
  {
    hide Lookup, NewFont, Table, MissingPairs;
    NoPairs(g4, refs);
    if k > 0 {
      OneEntryPerMissingPair(g4, g5, refs, k - 1);
      var before, r := Table(g4, g5, refs, k - 1), refs[k - 1];
      var pairs, pair := MissingPairs(g4, refs, k - 1), (WantedFile(r), r.size);
      TableStep(g4, g5, refs, k - 1);
      PairsStep(g4, refs, k);
      if Missing(g4, r) {
        PairKnownIff(g4, g5, refs, k - 1, r);
        NewFontPair(g4, g5, before, r);
        if pair in pairs {
          assert pairs + {pair} == pairs;
        }
      } else {
        LookupGrows(g4, before[|g4|..], r);
        assert before == g4 + before[|g4|..];
      }
    } else {
      assert Table(g4, g5, refs, 0) == g4 by { TableStarts(g4, g5, refs); }
    }
  }

  lemma TableStarts(g4: seq<Font>, g5: seq<Font>, refs: seq<Ref>)
    requires g4 != []
    ensures Table(g4, g5, refs, 0) == g4
  {
  }

  lemma NoPairs(g4: seq<Font>, refs: seq<Ref>)
    ensures MissingPairs(g4, refs, 0) == {}
  {
  }

  lemma NewFontPair(g4: seq<Font>, g5: seq<Font>, fonts: seq<Font>, r: Ref)
    requires g4 != []
    ensures var f := NewFont(g4, g5, fonts, r);
            f.file == Some(WantedFile(r)) && f.size == r.size
  {
  }

  lemma PairsStep(g4: seq<Font>, refs: seq<Ref>, k: nat)
    requires 0 < k <= |refs|
    ensures var r := refs[k - 1];
            MissingPairs(g4, refs, k) ==
            if Missing(g4, r) then MissingPairs(g4, refs, k - 1) + {(WantedFile(r), r.size)}
            else MissingPairs(g4, refs, k - 1)
  {
    hide Missing;
  }

  lemma PairKnownIff(g4: seq<Font>, g5: seq<Font>, refs: seq<Ref>, k: nat, r: Ref)
    requires g4 != [] && k <= |refs| && Missing(g4, r)
    requires forall t | |g4| <= t < |Table(g4, g5, refs, k)| ::
               var f := Table(g4, g5, refs, k)[t];
               f.file.Some? && (f.file.value, f.size) in MissingPairs(g4, refs, k)
    ensures (WantedFile(r), r.size) in MissingPairs(g4, refs, k) <==> !Missing(Table(g4, g5, refs, k), r)
  {
    var fonts := Table(g4, g5, refs, k);
    if (WantedFile(r), r.size) in MissingPairs(g4, refs, k) {
      var j :| 0 <= j < k && Missing(g4, refs[j]) && (WantedFile(refs[j]), refs[j].size) == (WantedFile(r), r.size);
      FoundOnceProcessed(g4, g5, refs, j, k);
      SameWishSameFont(fonts, refs[j], r);
    }
    if !Missing(fonts, r) {
      LookupGrows(g4, fonts[|g4|..], r);
      assert fonts == g4 + fonts[|g4|..];
      LookupFinds(fonts[|g4|..], r);
      var t :| 0 <= t < |fonts[|g4|..]| && Suits(fonts[|g4|..][t], r);
      assert Suits(fonts[|g4| + t], r);
    }
  }

  // ----- the loop over shared state objects -----

  class State {
    var FontIndex: int32
    var Font: Option<string>
    var FontSize: int32

    ghost function AsRef(): Ref
      reads this
    {
      Ref(FontIndex, Font, FontSize)
    }

    constructor (index: int32, font: Option<string>, size: int32)
      ensures AsRef() == Ref(index, font, size)
    {
      FontIndex, Font, FontSize := index, font, size;
    }
  }

  ghost function Refs(states: seq<State>): seq<Ref>
    reads states
  {
    seq(|states|, k requires 0 <= k < |states| reads states => states[k].AsRef())
  }

  /** The loop body for a state with index 0. */
  method ConvertState(state: State, fonts: seq<Font>, g4: seq<Font>, g5: seq<Font>, max: int32)
      returns (fonts': seq<Font>, max': int32)
    requires g4 != [] && state.FontIndex == 0 && max == LargestSoFar(g4, fonts)
    modifies state
    ensures var r := old(state.AsRef());
            && fonts' == (if Missing(fonts, r) then fonts + [NewFont(g4, g5, fonts, r)] else fonts)
            && max' == LargestSoFar(g4, fonts')
            && Lookup(fonts', r).Some? && state.AsRef() == Ref(Lookup(fonts', r).value.number, None, 0)
  {
    hide Lookup, FullName, NextNumber, LargestSoFar;
    ghost var r := state.AsRef();
    if state.Font.None? {
      state.Font := Some(DEFAULT_FONT);
    }
    SameWishSameFont(fonts, r, state.AsRef());
    var lG4Font := Lookup(fonts, Ref(0, state.Font, state.FontSize));
    if lG4Font.Some? {
      fonts', max' := fonts, max;
      state.FontIndex := lG4Font.value.number;
    } else {
      NextIsLargestPlusOne(g4, fonts);
      max' := ToInt32(max + 1);
      var lFont := Font(max', state.Font, state.FontSize, Some(FullName(g5, state.Font.value)));
      fonts' := fonts + [lFont];
      NewFontIsFound(g4, g5, fonts, r);
      CounterSteps(g4, fonts, lFont);
      state.FontIndex := lFont.number;
    }
    state.Font := None;
    state.FontSize := 0;
  }

  lemma NextIsLargestPlusOne(g4: seq<Font>, fonts: seq<Font>)
    requires g4 != []
    ensures NextNumber(g4, fonts) == ToInt32(LargestSoFar(g4, fonts) + 1)
  {
  }

  /** An empty table has no maximum, which throws before anything is changed. */
  method JsonConvertG5ButtonFonts(states: seq<State>, g4: seq<Font>, g5: seq<Font>) returns (fonts: seq<Font>)
    requires forall j, k | 0 <= j < k < |states| :: states[j] != states[k]
    modifies states
    ensures g4 == [] ==> fonts == [] && Refs(states) == old(Refs(states))
    ensures g4 != [] ==>
              && fonts == Table(g4, g5, old(Refs(states)), |states|)
              && forall k | 0 <= k < |states| :: states[k].AsRef() == Converted(g4, g5, old(Refs(states)), k)
  {
    hide NewFont, Lookup, LargestSoFar, Table, Converted;
    fonts := g4;
    if g4 == [] {
      return;
    }
    ghost var refs := Refs(states);
    TableStarts(g4, g5, refs);
    var lMax := LargestSoFar(g4, g4);
    for k := 0 to |states|
      invariant fonts == Table(g4, g5, refs, k) && lMax == LargestSoFar(g4, fonts)
      invariant forall j | 0 <= j < k :: states[j].AsRef() == Converted(g4, g5, refs, j)
      invariant forall j | k <= j < |states| :: states[j].AsRef() == refs[j]
    {
      assert states[k].AsRef() == refs[k];
      TableStep(g4, g5, refs, k);
      ConvertedIs(g4, g5, refs, k);
      if states[k].FontIndex == 0 {
        fonts, lMax := ConvertState(states[k], fonts, g4, g5, lMax);
      }
    }
  }

  /** TryAdd keeps the first font of each number. */
  method FillFontTable(fonts: seq<Font>) returns (dictionary: map<int32, Font>)
    ensures forall n: int32 :: n in dictionary <==> Numbered(fonts, n).Some?
    ensures forall n | n in dictionary :: Numbered(fonts, n) == Some(dictionary[n])
  {
    dictionary := map[];
    for k := 0 to |fonts|
      invariant forall n: int32 :: n in dictionary <==> Numbered(fonts[..k], n).Some?
      invariant forall n | n in dictionary :: Numbered(fonts[..k], n) == Some(dictionary[n])
    {
      var font := fonts[k];
      assert fonts[..k + 1] == fonts[..k] + [font];
      forall n: int32
        ensures Numbered(fonts[..k + 1], n) ==
                if Numbered(fonts[..k], n).Some? then Numbered(fonts[..k], n)
                else if font.number == n then Some(font) else None
      {
        NumberedGrows(fonts[..k], [font], n);
      }
      if font.number !in dictionary {
        dictionary := dictionary[font.number := font];
      }
    }
    assert fonts[..|fonts|] == fonts;
  }
}
