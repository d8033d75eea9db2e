# Tekkno watch face: display engine

This project models the display engine of a Pebble watch face. The engine is the core of `src/main.c`. It has three parts:

- **Time and date** (`update_time`). It formats the hour and minute as a 5-character text `HH:MM` or `HH|MM`, and the date as a 6-character text `Mon DD`. The separator is `|` only when both module-level bits `count` and `flash` are 1. Every call flips `count`, so while `flash` is on the separator blinks on each tick.
- **Taps** (`tap_handler`). Every tap flips `flash`. The axis and the direction of the tap make no difference.
- **Battery** (`battery_handler`). It turns a charge percentage into a 10-character bar, `percent / 10` `@` glyphs followed by spaces. The helpers `string_repeat` and `concat` build the bar in fresh buffers, and `snprintf` copies it into an 11-byte static buffer.

Files:

- `cstrings.dfy` (module `CStrings`): NUL-terminated buffers. It models `strlen`, `memcpy`, `string_repeat`, `concat`, the bounded copy `snprintf` makes, and the writing of a formatted text into a buffer. These are methods over `array<char>`, specified against the functions `Length`, `Text` and `Repeat`.
- `clock.dfy` (module `Clock`): the pure formatting `strftime` does for `%H`, `%I`, `%M`, `%b` and `%d` in the C locale, and the separator choice. Parsers read the texts back. The round-trip lemmas in both directions show that the texts carry exactly the displayed hour, the separator, the minute, the month and the day.
- `battery.dfy` (module `Battery`): the bar as a function of the percentage, with its glyph counts and the examples 0, 9, 55, 95 and 100.
- `face.dfy` (module `Face`): the class `WatchFace`. It holds `count`, `flash` and the three static buffers (`"00:00"`, `"Feb 01"`, `"**********"`). Its methods are the three handlers. The module also holds lemmas over runs of ticks and taps: the separator alternates when `flash` is on, stays `:` when it is off, and an even number of taps restores `flash`.

Inputs that come from the host become parameters:

- The `struct tm` from `localtime(time(NULL))` becomes a record `Tm` of hour (0–23), minute (0–59), month (0–11) and day of month (1–31).
- `clock_is_24h_style()` becomes a boolean.
- `charge_percent` becomes an integer in 0..100.
- The tap's axis and direction become `AccelAxis` and `int`.

Where the design description and the code differ, the model follows the code:

- The separator depends on `count` as well as on `flash` (`src/main.c:50`, `src/main.c:58`, `src/main.c:64`). It is not simply "`|` when flash is on".
- The percentage is not clamped. The code divides it by 10 as is, so 0..100 is a precondition of `BatteryHandler` rather than a clamp.

Integer notes:

- C's `%` truncates toward zero and Dafny's is Euclidean. The two agree here because `count` and `flash` start at 0 and stay in {0, 1}. The class invariant `Valid` states this.
- `charge_percent / 10` is applied to a non-negative value, so truncation and Euclidean division agree.

## Model

| member | source | states |
|---|---|---|
| CStrings.Length | src/main.c:23 | strlen: the result indexes a NUL and no earlier character is NUL |
| CStrings.Text | src/main.c:78-79 | the text of a C string has no NUL and, followed by NUL, is a prefix of the buffer |
| CStrings.TextOfTerminated | src/main.c:30 | a text followed by NUL reads back as exactly that text |
| CStrings.StrLen | src/main.c:23 | the scan returns the index of the first NUL of the buffer |
| CStrings.LengthIsFirstNul | src/main.c:78-79 | an index of a NUL with no NUL before it is the string's length, and the text is the prefix up to it |
| CStrings.Repeat | src/main.c:27-28 | n copies of s have length n * strlen(s) |
| CStrings.RepeatAt | src/main.c:27-28 | character j of copy k of the repetition is character j of s |
| CStrings.RepeatCharAt | src/main.c:148-149 | every character of a repeated one-character string is that character |
| CStrings.RepeatCharAll | src/main.c:148-149 | a repeated one-character string has length n and holds only that character |
| CStrings.RepeatHasNoNul | src/main.c:27-30 | repeating a NUL-free text gives a NUL-free text, so the copied terminator ends the result |
| CStrings.RepeatIsText | src/main.c:148-149 | a terminated repetition of a non-NUL character reads back as the repetition |
| CStrings.MemCopy | src/main.c:28 | memcpy: the target range holds the source prefix and the rest of the target is unchanged |
| CStrings.WriteText | src/main.c:51 | a formatted text that fits is written with its NUL, and the rest of the buffer is unchanged |
| CStrings.NewCString | src/main.c:148 | a string literal becomes a fresh buffer holding the text and NUL |
| CStrings.StringRepeat | src/main.c:21-32 | a fresh buffer of n*strlen(s)+1 characters holding n copies of the text of s, then NUL |
| CStrings.Concat | src/main.c:75-85 | a fresh buffer of len1+len2+1 characters holding text of s1, text of s2 and NUL; s1 and s2 unchanged |
| CStrings.BoundedCopy | src/main.c:153 | copies min(strlen(src), size-1) characters and then a NUL; the rest of the buffer is unchanged |
| CStrings.CopyHoldsText | src/main.c:153 | when the buffer is one longer than the text, the bounded copy holds the whole text and NUL |
| Clock.DigitChar | src/main.c:51 | the digit character for d is a digit whose value is d |
| Clock.TwoDigits | src/main.c:51 | two zero-padded digits whose decimal value is n |
| Clock.Hour12 | src/main.c:59 | %I gives an hour in 1..12 on the same 12-hour dial position as the 24-hour hour |
| Clock.Hour12Convention | src/main.c:59 | 0 reads 12, 1..12 are unchanged, and 13..23 read 1..11 |
| Clock.DisplayHour | src/main.c:47-62 | the 24-hour style shows the hour itself; the 12-hour style shows a value in 1..12 congruent mod 12 |
| Clock.MonthAbbrev | src/main.c:66 | %b is three letters, capital first |
| Clock.MonthAbbrevInjective | src/main.c:66 | different months have different abbreviations |
| Clock.Separator | src/main.c:50-53 | the separator is ':' or '\|', and '\|' exactly when count != 0 and flash == 1 |
| Clock.SeparatorOnBits | src/main.c:50-61 | for 0/1 bits: '\|' iff count == 1 and flash == 1, ':' iff either is 0 |
| Clock.ClockText | src/main.c:51-53 | two hour digits, the separator at index 2, two minute digits |
| Clock.TimeText | src/main.c:47-62 | 5 characters with the separator at index 2; digits decode to the minute and to %H or %I of the hour |
| Clock.TimeTextHourRange | src/main.c:47-62 | the hour digits read 00..23 in 24-hour style and 01..12 in 12-hour style |
| Clock.DateText | src/main.c:66 | 6 characters: month abbreviation, space, two digits decoding to the day |
| Clock.DateTextIgnoresTime | src/main.c:66 | the date depends only on month and day, not on the hour, flash or count |
| Clock.FormatExamples | src/main.c:47-66 | 14:05 on 3 March reads "14:05", "14\|05", "02:05" and "Mar 03"; 00:30 in 12-hour style reads "12:30" |
| Clock.ParseTwoDigits | src/main.c:51 | a parsed pair of digits formats back to the same two characters |
| Clock.TwoDigitsRoundTrip | src/main.c:51 | parsing two formatted digits gives back the number |
| Clock.MonthIndexFrom | src/main.c:66 | finds the month with the given abbreviation from a start month, or reports that none has it |
| Clock.MonthIndex | src/main.c:66 | finds the month with the given abbreviation, or reports that no month has it |
| Clock.MonthIndexFromFinds | src/main.c:66 | searching from any month up to m finds m's abbreviation at m |
| Clock.MonthRoundTrip | src/main.c:66 | looking up a month's abbreviation gives back the month |
| Clock.ParseClock | src/main.c:51-53 | a parsed time text has two-digit hour and minute values |
| Clock.ClockRoundTrip | src/main.c:51-53 | parsing a formatted time text gives back hour, separator and minute |
| Clock.ClockParseFormats | src/main.c:51-53 | every text that parses as a time is the formatting of what it parses to |
| Clock.TimeRoundTrip | src/main.c:47-62 | update_time's time text carries exactly the displayed hour, the separator and the minute |
| Clock.ParseDate | src/main.c:66 | a parsed date text has a valid month and a two-digit day |
| Clock.DateRoundTrip | src/main.c:66 | parsing the date text gives back month and day |
| Clock.DateParseFormats | src/main.c:66 | every text that parses as a date is the formatting of what it parses to |
| Battery.BatteryBar | src/main.c:147-153 | 10 characters; position i is '@' exactly when i < percent/10, else a space |
| Battery.RepeatMultiplicity | src/main.c:148-149 | n copies of d hold c n times if c is d, else never |
| Battery.BatteryBarCounts | src/main.c:147-151 | the bar's multiset holds percent/10 '@' glyphs and 10 - percent/10 spaces |
| Battery.BatteryBarHasNoNul | src/main.c:151-153 | the bar holds no NUL, so snprintf copies it whole |
| Battery.BatteryBarIsText | src/main.c:147-151 | the bar is string_repeat(p/10, "@") followed by string_repeat(10 - p/10, " "), and it reads back whole once terminated |
| Battery.BatteryBarExamples | src/main.c:147-153 | 0 gives all spaces, 100 all '@', 95 nine '@' and a space (truncation), 55 five and five, 9 all spaces |
| Face.Flip | src/main.c:64 | (bit + 1) % 2 of a 0/1 value is the other 0/1 value |
| Face.Separators | src/main.c:50-64 | the separators of n consecutive update_time calls, one per call |
| Face.SeparatorsFlashOn | src/main.c:50-64 | with flash at 1, call i shows '\|' exactly when count + i is odd |
| Face.FlashOnAlternates | src/main.c:50-64 | with flash at 1, consecutive calls never show the same separator |
| Face.SeparatorsFlashOff | src/main.c:50-64 | with flash at 0, every call shows ':' |
| Face.Taps | src/main.c:89-133 | flash after n taps stays in {0,1} |
| Face.TapsParity | src/main.c:89-133 | after n taps flash is unchanged if n is even and inverted if odd |
| Face.EvenTapsKeepSeparator | src/main.c:50-53 | an even number of taps leaves the next separator as it was |
| Face.BuildBar | src/main.c:147-151 | a fresh C string holding string_repeat(p/10, "@") concatenated with string_repeat(10 - p/10, " "), which is the bar, then NUL |
| Face.WatchFace.constructor | src/main.c:16-17 | count and flash start at 0 (lines 16-17); the buffers start as "00:00" and "Feb 01" (lines 43-44) and "**********" (line 140) |
| Face.WatchFace.UpdateTime | src/main.c:36-71 | the time buffer holds the time text with the separator chosen by the old bits, and '\|' at index 2 iff both were 1; the date buffer holds the date text; count flips and flash is unchanged |
| Face.WatchFace.TapHandler | src/main.c:89-133 | flash flips whatever the axis and direction; count is unchanged |
| Face.WatchFace.BatteryHandler | src/main.c:137-157 | the battery buffer holds exactly the 10-character bar and NUL; count, flash and the other buffers are unchanged |

## Left out

- Window, layer, font and bitmap creation and destruction, and the resource handles (`src/main.c:161-228`). These are UI plumbing of the host framework.
- The `text_layer_set_text` calls that hand the buffers to the display (`src/main.c:69-70`, `src/main.c:154`). The model stops at the buffer contents.
- The service subscriptions, `init`, `deinit`, `main` and the event loop (`src/main.c:239-276`). These are event wiring of the host framework.
- `time(NULL)` and `localtime`. The clock and the time zone are foreign calls, so the `tm` fields are inputs.
- `clock_is_24h_style()`. It is a foreign call, so its value is an input.
- `APP_LOG` in `tap_handler`. It is logging I/O. The six branches are kept, each flipping `flash`.
- The `malloc`/`free` lifetime: a failed `malloc`, and the fact that `left` and `done` are never freed. The results are fresh arrays, and the model does not reason about leaks.
- CStrings.BoundedCopy: `snprintf` is given the bar as its format string. The model copies the text as `%s` would. This is the same only because the bar holds no `%`.
- CStrings.StringRepeat: a negative `n` is undefined behaviour in C, so `n >= 0` is a precondition.
- Face.WatchFace.BatteryHandler: percentages outside 0..100 are not modelled, because the battery service reports 0..100. From 110 on (and from -10 down, as C division truncates), `10 - mult` or `mult` is negative, and the allocation size in `string_repeat` wraps, which is undefined behaviour. 101..109 would show ten `@` as 100 does, and -9..-1 would show ten spaces as 0 does.
- `strftime` in locales other than C. The month names are the C locale's names.
