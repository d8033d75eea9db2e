/**
 * The battery bar battery_handler shows: one '@' per full ten percent of
 * charge, padded with spaces to ten characters.
 */
module Battery {
  import opened CStrings

  const BarWidth: nat := 10
  const FilledGlyph: char := '@'
  const EmptyGlyph: char := ' '

  /** The bar for `percent`: percent / 10 '@' glyphs, then spaces up to ten. */
  function BatteryBar(percent: int): (r: string)
    requires 0 <= percent <= 100
    ensures |r| == BarWidth
    ensures forall i :: 0 <= i < BarWidth ==>
      r[i] == if i < percent / 10 then FilledGlyph else EmptyGlyph
  {
    var filled := percent / 10;
    RepeatCharAll(filled, FilledGlyph);
    RepeatCharAll(BarWidth - filled, EmptyGlyph);
    Repeat(filled, [FilledGlyph]) + Repeat(BarWidth - filled, [EmptyGlyph])
  }

  /** n copies of `d` hold `c` n times if `c` is `d`, and never otherwise. */
  lemma {:induction false} RepeatMultiplicity(c: char, d: char, n: nat)
    ensures multiset(Repeat(n, [d]))[c] == if c == d then n else 0
  {
    if n > 0 {
      RepeatMultiplicity(c, d, n - 1);
      assert Repeat(n, [d]) == Repeat(n - 1, [d]) + [d];
      assert multiset(Repeat(n, [d])) == multiset(Repeat(n - 1, [d])) + multiset{d};
    }
  }

  /** The bar holds floor(percent / 10) filled glyphs and the rest empty ones. */
  lemma BatteryBarCounts(percent: int)
    requires 0 <= percent <= 100
    ensures multiset(BatteryBar(percent))[FilledGlyph] == percent / 10
    ensures multiset(BatteryBar(percent))[EmptyGlyph] == BarWidth - percent / 10
  {
    var filled := percent / 10;
    var left, right := Repeat(filled, [FilledGlyph]), Repeat(BarWidth - filled, [EmptyGlyph]);
    assert BatteryBar(percent) == left + right;
    assert multiset(left + right) == multiset(left) + multiset(right);
    RepeatMultiplicity(FilledGlyph, FilledGlyph, filled);
    RepeatMultiplicity(FilledGlyph, EmptyGlyph, BarWidth - filled);
    RepeatMultiplicity(EmptyGlyph, FilledGlyph, filled);
    RepeatMultiplicity(EmptyGlyph, EmptyGlyph, BarWidth - filled);
  }

  /** The bar never holds a NUL, so it fits a C string whole. */
  lemma BatteryBarHasNoNul(percent: int)
    requires 0 <= percent <= 100
    ensures NUL !in BatteryBar(percent)
  {
  }

  /** The bar is the concatenation battery_handler builds, and reads back whole as a C string. */
  lemma BatteryBarIsText(percent: int)
    requires 0 <= percent <= 100
    ensures BatteryBar(percent)
         == Repeat(percent / 10, [FilledGlyph]) + Repeat(BarWidth - percent / 10, [EmptyGlyph])
    ensures Terminated(BatteryBar(percent) + [NUL])
    ensures Text(BatteryBar(percent) + [NUL]) == BatteryBar(percent)
  {
    BatteryBarHasNoNul(percent);
    TextOfTerminated(BatteryBar(percent), []);
    assert BatteryBar(percent) + [NUL] + [] == BatteryBar(percent) + [NUL];
  }

  /** Empty, full, and truncation rather than rounding. */
  lemma BatteryBarExamples()
    ensures BatteryBar(0) == "          "
    ensures BatteryBar(100) == "@@@@@@@@@@"
    ensures BatteryBar(95) == "@@@@@@@@@ "
    ensures BatteryBar(55) == "@@@@@     "
    ensures BatteryBar(9) == "          "
  {
  }
}
