/**
 * The watch face's display engine: the two module-level bits `count` and
 * `flash`, the three static text buffers, and the handlers that update them
 * on each tick, tap and battery event.
 */
module Face {
  import opened CStrings
  import opened Clock
  import opened Battery

  /** The accelerometer axis a tap event names. */
  datatype AccelAxis = AxisX | AxisY | AxisZ

  /** `(bit + 1) % 2`: the other value of a 0/1 variable. */
  function Flip(bit: int): (r: int)
    requires bit == 0 || bit == 1
    ensures r == 0 || r == 1
    ensures r != bit
  {
    (bit + 1) % 2
  }

  /** The separators shown by `n` consecutive update_time calls from `count`. */
  function Separators(count: int, flash: int, n: nat): (r: seq<char>)
    requires count == 0 || count == 1
    ensures |r| == n
    decreases n
  {
    if n == 0 then [] else [Separator(count, flash)] + Separators(Flip(count), flash, n - 1)
  }

  /** With flash on, the separator alternates with the parity of count. */
  lemma {:induction false} SeparatorsFlashOn(count: int, n: nat)
    requires count == 0 || count == 1
    ensures forall i :: 0 <= i < n ==>
      Separators(count, 1, n)[i] == if (count + i) % 2 == 1 then '|' else ':'
    decreases n
  {
    if n > 0 {
      SeparatorsFlashOn(Flip(count), n - 1);
      var r := Separators(count, 1, n);
      forall i | 0 <= i < n
        ensures r[i] == if (count + i) % 2 == 1 then '|' else ':'
      {
        if i > 0 {
          assert r[i] == Separators(Flip(count), 1, n - 1)[i - 1];
          assert (Flip(count) + (i - 1)) % 2 == (count + i) % 2;
        }
      }
    }
  }

  /** With flash on, two consecutive ticks never show the same separator. */
  lemma FlashOnAlternates(count: int, n: nat, i: nat)
    requires count == 0 || count == 1
    requires i + 1 < n
    ensures Separators(count, 1, n)[i] != Separators(count, 1, n)[i + 1]
  {
    SeparatorsFlashOn(count, n);
  }

  /** With flash off, every tick shows ':'. */
  lemma {:induction false} SeparatorsFlashOff(count: int, n: nat)
    requires count == 0 || count == 1
    ensures forall i :: 0 <= i < n ==> Separators(count, 0, n)[i] == ':'
    decreases n
  {
    if n > 0 {
      SeparatorsFlashOff(Flip(count), n - 1);
      var r := Separators(count, 0, n);
      forall i | 0 <= i < n
        ensures r[i] == ':'
      {
        if i > 0 {
          assert r[i] == Separators(Flip(count), 0, n - 1)[i - 1];
        }
      }
    }
  }

  /** The value of flash after `n` taps. */
  function Taps(flash: int, n: nat): (r: int)
    requires flash == 0 || flash == 1
    ensures r == 0 || r == 1
    decreases n
  {
    if n == 0 then flash else Taps(Flip(flash), n - 1)
  }

  /** An even number of taps restores flash; an odd number inverts it. */
  lemma {:induction false} TapsParity(flash: int, n: nat)
    requires flash == 0 || flash == 1
    ensures Taps(flash, n) == if n % 2 == 0 then flash else 1 - flash
    decreases n
  {
    if n > 0 {
      TapsParity(Flip(flash), n - 1);
    }
  }

  /** An even number of taps leaves the separator of the next tick as it was. */
  lemma EvenTapsKeepSeparator(count: int, flash: int, n: nat)
    requires flash == 0 || flash == 1
    requires n % 2 == 0
    ensures Separator(count, Taps(flash, n)) == Separator(count, flash)
  {
    TapsParity(flash, n);
  }

  /**
   * The bar-building part of battery_handler: percent / 10 '@' from
   * string_repeat, 10 - percent / 10 spaces from string_repeat, joined by
   * concat into a fresh C string.
   */
  method BuildBar(chargePercent: int) returns (str: array<char>)
    requires 0 <= chargePercent <= 100
    ensures fresh(str)
    ensures str[..] == BatteryBar(chargePercent) + [NUL]
  {
    var mult := chargePercent / 10;
    var at := NewCString("@");
    var space := NewCString(" ");
    var left := StringRepeat(mult, at);
    var done := StringRepeat(10 - mult, space);
    assert Text(left[..]) + Text(done[..]) == BatteryBar(chargePercent) by {
      RepeatIsText(mult, FilledGlyph);
      RepeatIsText(10 - mult, EmptyGlyph);
      BatteryBarIsText(chargePercent);
    }
    str := Concat(left, done);
  }

  class WatchFace {
    /** Flips on every update_time call. */
    var count: int
    /** Flips on every tap. */
    var flash: int
    /** update_time's static buffer, "00:00" initially. */
    const timeBuffer: array<char>
    /** update_time's static date buffer, "Feb 01" initially. */
    const dateBuffer: array<char>
    /** battery_handler's static buffer, "**********" initially. */
    const batteryBuffer: array<char>

    ghost predicate Valid()
      reads this
    {
      && (count == 0 || count == 1)
      && (flash == 0 || flash == 1)
      && timeBuffer.Length == 6
      && dateBuffer.Length == 7
      && batteryBuffer.Length == 11
    }

    constructor ()
      ensures Valid()
      ensures count == 0 && flash == 0
      ensures fresh(timeBuffer) && fresh(dateBuffer) && fresh(batteryBuffer)
      ensures timeBuffer[..] == "00:00" + [NUL]
      ensures dateBuffer[..] == "Feb 01" + [NUL]
      ensures batteryBuffer[..] == "**********" + [NUL]
    {
      var time := NewCString("00:00");
      var date := NewCString("Feb 01");
      var battery := NewCString("**********");
      count, flash := 0, 0;
      timeBuffer, dateBuffer, batteryBuffer := time, date, battery;
    }

    /**
     * update_time: writes the time with the separator the current bits
     * select, flips count, and writes the date.
     */
    method UpdateTime(t: Tm, is24h: bool)
      requires Valid() && ValidTm(t)
      modifies this`count, timeBuffer, dateBuffer
      ensures Valid()
      ensures timeBuffer[..] == TimeText(t, is24h, Separator(old(count), old(flash))) + [NUL]
      ensures timeBuffer[2] == '|' <==> old(count) == 1 && old(flash) == 1
      ensures timeBuffer[2] == ':' <==> old(count) == 0 || old(flash) == 0
      ensures dateBuffer[..] == DateText(t) + [NUL]
      ensures count == Flip(old(count)) && flash == old(flash)
    {
      SeparatorOnBits(count, flash);
      var text: string;
      if is24h {
        if count == 0 || flash != 1 {
          text := ClockText(t.hour, ':', t.min);
        } else {
          text := ClockText(t.hour, '|', t.min);
        }
      } else {
        if count == 0 || flash != 1 {
          text := ClockText(Hour12(t.hour), ':', t.min);
        } else {
          text := ClockText(Hour12(t.hour), '|', t.min);
        }
      }
      WriteText(timeBuffer, text);

      count := (count + 1) % 2;

      WriteText(dateBuffer, DateText(t));
    }

    /** tap_handler: every tap flips flash, whatever its axis and direction. */
    method TapHandler(axis: AccelAxis, direction: int)
      requires Valid()
      modifies this`flash
      ensures Valid()
      ensures flash == Flip(old(flash)) && count == old(count)
    {
      match axis
      case AxisX =>
        if direction > 0 { flash := (flash + 1) % 2; } else { flash := (flash + 1) % 2; }
      case AxisY =>
        if direction > 0 { flash := (flash + 1) % 2; } else { flash := (flash + 1) % 2; }
      case AxisZ =>
        if direction > 0 { flash := (flash + 1) % 2; } else { flash := (flash + 1) % 2; }
    }

    /**
     * battery_handler: builds the bar (BuildBar) and copies it into the
     * battery buffer with snprintf.
     */
    method BatteryHandler(chargePercent: int)
      requires Valid()
      requires 0 <= chargePercent <= 100
      modifies batteryBuffer
      ensures Valid()
      ensures batteryBuffer[..] == BatteryBar(chargePercent) + [NUL]
    {
      var str := BuildBar(chargePercent);
      ghost var text := str[..];
      BatteryBarIsText(chargePercent);

      var copied := BoundedCopy(batteryBuffer, str);
      CopyHoldsText(text, copied, batteryBuffer[..]);
    }
  }
}
