# tz — instant resolution, modelled in Dafny

`tz` is a small Rust command-line world clock. It takes an optional time
`HH:MM`, an optional date `yyyy-mm-dd` and a `--utc` flag. From these and the
current time it builds one instant, and then prints that instant in a fixed
list of zones. This project models how the instant is built:

- `read_hour_minute` and `read_yy_mm_dd`, the two argument readers, which
  split on `:` or `-` and parse each piece as an integer;
- the `match` in `main`, which picks one of three paths. With no time the
  instant is UTC "now". With a time only, it takes "now" and sets the hour and
  minute. With a time and a date, it builds the instant from the fields, with
  second 0. Each path builds in UTC or in the local zone, as `--utc` says.

The model has three modules:

- `RustStd` (`rust_std.dfy`) covers the standard-library behaviour the
  readers rely on. `Split` models `str::split` with a one-character pattern,
  and `Join` is its inverse. `ParseU32` and `ParseI32` model `FromStr` for
  `u32` and `i32`: an optional sign, at least one ASCII digit, and a value
  that fits the type. `Decimal` is the decimal rendering the round trips
  start from.
- `Chrono` (`chrono.dfy`) covers the chrono calls on the resolution path:
  `with_hour`, `with_minute` and `with_ymd_and_hms`. A date-time is
  represented by its wall-clock fields in a zone (`Utc` or `Local`). Two facts
  chrono takes from outside the program are passed in as a `TzEnv`: which
  year-month-day triples are calendar dates, and which local readings name
  exactly one instant.
- `TzMain` (`tz_main.dfy`) holds the two readers and `Resolve`. Each panic
  becomes a `Fatal` result that names where it happens: the two readers'
  `panic!`/`expect`, and the `unwrap` after each chrono call. The clock is
  passed in as a `Clock`, which holds "now" in UTC and in the local zone.

Behaviour of the code worth noting:

- A date given without a time is ignored, and the instant is UTC "now"
  (src/main.rs:74-76).
- With a time only, the seconds and the fraction of a second of "now" are
  kept. Only the hour and the minute are replaced (src/main.rs:82-93).
- The readers do no range check. `25:00` reads as (25, 0), and
  `2024-13-01` reads as (2024, 13, 1). The failure comes later, at an
  `unwrap` of a chrono call (src/main.rs:85, 87, 103, 107).
- The date argument's help text says `yy-mm-dd` (src/main.rs:24). The year
  is still read as a full year, so `24-06-01` is read as year 24.

## Model

| member | source | states |
|---|---|---|
| `RustStd.Split` | src/main.rs:46 | `str::split`: the number of pieces is one more than the number of separators, and no piece contains the separator |
| `RustStd.JoinSplit` | src/main.rs:46 | joining the pieces of any string with the separator gives that string back |
| `RustStd.SplitJoin` | src/main.rs:46 | splitting a separator-joined list of separator-free pieces gives that list back |
| `RustStd.ParseU32` | src/main.rs:51-52 | `u32::from_str` accepts only an optional `+` followed by at least one ASCII digit, and its result is at most `u32::MAX`; it never accepts `-`, an empty string or a lone sign |
| `RustStd.ParseU32Literal` | src/main.rs:51-52 | every literal made of an optional `+`, zero padding and the decimal text of `n` reads as `n` when `n <= u32::MAX` and is rejected when `n` is larger (no wrap-around) |
| `RustStd.ParseU32Accepted` | src/main.rs:51-52 | the converse: every accepted string is an optional `+`, zero padding and the decimal text of the value returned, so the result is the number the digits denote |
| `RustStd.ParseI32` | src/main.rs:64 | `i32::from_str` accepts only an optional `+`/`-` followed by at least one digit, with a result in the `i32` range; a negative result needs a leading `-` |
| `RustStd.ParseI32Literal` | src/main.rs:64 | every literal made of a sign, zero padding and the decimal text of `n` reads as `n`, or as `-n` after `-`, when that lies in `i32::MIN..=i32::MAX`, and is rejected beyond either end |
| `RustStd.ParseI32Accepted` | src/main.rs:64 | the converse: every accepted string is its sign (`-` exactly when it starts with one), zero padding and the decimal text of the magnitude returned |
| `RustStd.Decimal` | src/main.rs:44-68 | reference rendering for the round trips of the readers at these lines (nothing is rendered there): the shortest decimal text of a number, non-empty, all digits, no leading zero, denoting that number |
| `Chrono.WithHour` | src/main.rs:84-85 | `with_hour(h)` fails iff `h >= 24` or the new reading is not a single instant in its zone; otherwise it changes only the hour |
| `Chrono.WithMinute` | src/main.rs:86-87 | `with_minute(m)` fails iff `m >= 60` or the new reading is not a single instant; otherwise it changes only the minute |
| `Chrono.WithYmdAndHms` | src/main.rs:102-103 | `with_ymd_and_hms(..).unwrap()` succeeds iff the date is a calendar date, the time is in range and the reading is a single instant; the result has exactly those fields, no fraction of a second, and is well-formed |
| `TzMain.ReadHourMinute` | src/main.rs:44-55 | an accepted time has exactly one `:`, and both numbers fit in `u32` |
| `TzMain.ReadHourMinuteTokenCount` | src/main.rs:46-50 | every string whose `:` count is not one is rejected |
| `TzMain.ReadHourMinutePieces` | src/main.rs:51-54 | `a:b` (no other `:`) is accepted iff both sides parse as `u32`, and then reads as those two values |
| `TzMain.ReadHourMinuteShape` | src/main.rs:44-55 | every accepted string is some `a:b` whose sides parse to the hour and minute returned |
| `TzMain.ReadHourMinuteDecimal` | src/main.rs:44-55 | round trip: `decimal(h):decimal(m)` reads back as `(h, m)` exactly when both fit in `u32` (out-of-range hours included), and is rejected when either is wider |
| `TzMain.TwoDigits` | src/main.rs:45 | reference rendering of the `HH:MM` fields the error message at this line asks for (nothing is rendered there): two zero-padded digits that denote the number |
| `TzMain.ReadHourMinuteTwoDigits` | src/main.rs:44-55 | round trip on the documented `HH:MM` format, zero padding included, for any two-digit hour and minute |
| `TzMain.ReadHourMinuteRejects` | src/main.rs:46-52 | `""`, `"1230"`, `"1:2:3"`, `"12:"`, `"ab:30"` and `"12-30"` are rejected |
| `TzMain.ReadHourMinuteNoRangeCheck` | src/main.rs:51-54 | `"25:00"` is accepted as (25, 0) |
| `TzMain.ReadYyMmDd` | src/main.rs:57-68 | an accepted date has exactly two `-`, its year is never negative, and all three numbers fit their types |
| `TzMain.ReadYyMmDdTokenCount` | src/main.rs:59-63 | every string whose `-` count is not two is rejected |
| `TzMain.ReadYyMmDdPieces` | src/main.rs:64-67 | `a-b-c` (no other `-`) is accepted iff `a` parses as `i32` and `b`, `c` as `u32`, and then reads as those values |
| `TzMain.ReadYyMmDdDecimal` | src/main.rs:57-68 | round trip: `decimal(y)-decimal(mo)-decimal(d)` reads back as `(y, mo, d)` exactly when `y <= i32::MAX` and the month and day fit in `u32`, and is rejected otherwise |
| `TzMain.ReadYyMmDdShape` | src/main.rs:57-68 | every accepted date is some `a-b-c` with no other `-` whose pieces parse as `i32`, `u32`, `u32` to the values returned |
| `TzMain.ReadYyMmDdLeadingMinus` | src/main.rs:59-64 | every string starting with `-` is rejected |
| `TzMain.ReadYyMmDdNoRangeCheck` | src/main.rs:64-67 | `"2024-13-01"` is accepted as (2024, 13, 1) |
| `TzMain.Resolve` | src/main.rs:74-113 | with no time the instant is UTC "now"; with a time, a resolved instant lies in the frame `--utc` selects |
| `TzMain.ResolveWithoutTime` | src/main.rs:74-76 | with no time the result is UTC "now", whatever the date and `--utc` are |
| `TzMain.ResolveTimeOnly` | src/main.rs:80-95 | with a time only, resolution succeeds iff hour < 24, minute < 60 and both steps give single instants. The result keeps now's date, second and fraction, and takes the hour and minute read |
| `TzMain.ResolveTimeOnlyFailures` | src/main.rs:81-93 | a malformed time fails at the reader. An hour >= 24 fails at `with_hour`. A minute >= 60 always fails, and under `--utc` it fails at `with_minute` |
| `TzMain.ResolveTimeAndDate` | src/main.rs:98-109 | with a time and a date, resolution succeeds iff the date is a calendar date, the time is in range and the reading is a single instant. The result is exactly that date, hour and minute, with second 0 |
| `TzMain.ResolveTimeAndDateFailures` | src/main.rs:99-107 | the time is read first, then the date. An hour >= 24 in two well-formed arguments fails at `with_ymd_and_hms` |
| `TzMain.ResolveWellFormed` | src/main.rs:74-113 | when the clock's readings are well-formed, every resolved instant is too. In the date path its year is non-negative and its second is 0 |
| `TzMain.ResolveUtcIgnoresLocal` | src/main.rs:82-87 | under `--utc` the result does not depend on the local clock or the local zone rules |
| `TzMain.ResolveScenarioUtcMorning` | src/main.rs:80-87 | `09:30` with `--utc` on 2024-06-01 resolves to 09:30 UTC that day, with the clock's seconds kept |
| `TzMain.ResolveOutOfRangeHour` | src/main.rs:81-85 | `25:00` passes the reader and is rejected by `with_hour` |

## Left out

- Printing the instant in the eight zones (src/main.rs:115-122) is not modelled. It needs the time-zone rule database of an external crate.
- `pretty_print` (src/main.rs:32-42) is not modelled. It is console output with colour escapes and chrono formatting.
- `TzMain.Resolve` does not model the final `with_timezone(&Utc)` (src/main.rs:94, 108). It returns the instant in the frame it was built in. Converting it to UTC changes only the representation, and the offset rules are not part of the model.
- The real calendar and the local zone's daylight-saving rules are not modelled. Both are inputs (`TzEnv`): chrono's date validity is `isCalendarDate`, and whether a local reading is a single instant is `isSingleLocal`.
- Reading the system clock (`Utc::now()`, `Local::now()`) is I/O. "Now" is an input (`Clock`).
- Command-line parsing with `clap` (src/main.rs:18-30, 71) is not modelled. The three arguments are inputs of `Resolve`.
- `RustStd.ParseU32` and `RustStd.ParseI32` do not model the kind of `ParseIntError` (empty, invalid digit, overflow). They only say whether the parse succeeds, which is all the program uses before it panics. Overflow is checked on the final value. This matches Rust's digit-by-digit checked arithmetic, because a prefix of a digit string never has a larger value than the whole string.
- The panic message texts are not modelled. Each `Failure` names the call that panics instead.
