# Reporting core of the finance bot, in Dafny

The bot runs two daily jobs. At noon it sends each payment-method manager a report. The
report gives the approved deposits and withdrawals of the last seven days and the current
balance, each in BDT and USDT. In the evening it sends only the balance. This project
models the pure core of `index.js`:

- `formatMoney` (module `Money`). It is modelled as the three steps the code performs on
  an amount of integer cents:
  - `toFixed(2)`;
  - replacing the first `.` with `,`;
  - the global regular expression `\B(?=(\d{3})+(?!\d))`, modelled position by position,
    that inserts a space wherever a run of digits of length divisible by three follows a
    word character.

  The model proves that this pipeline gives the sign, the integer digits grouped by threes
  from the right, a comma and two fraction digits.
- `formatDate` (module `Dates`): `DD.MM.YYYY` from the fields of a local date.
- The trailing seven-day window of the noon task (module `Periods`). Instants are integer
  milliseconds and days are integer day numbers.
- The sums of `getStats` (module `Stats`): its defaults for a falsy amount and a missing or
  zero timestamp, the inclusive window, and the partial result kept when a query fails.
- Both cron callbacks (module `Reports`): which managers are skipped, what each remaining
  manager is sent, and the balance line with a minus written before both figures. The
  effects of a run are a sequence of actions, namely `getStats` calls and sends.

Modules `Wrappers` (optional fields, query results) and `Digits` (decimal numerals,
`padStart`) hold shared definitions.

Two features of the code shape the model:

- Errors are caught once, around the whole loop of each task (index.js:115-157,
  167-194). Nothing inside the loop throws, because `getStats` and `sendTelegramMessage`
  catch their own errors. So a run sends to every eligible manager, and only a failed
  manager query ends it early.
- Both tasks write `-` before the BDT figure and before the USDT figure of the balance
  line (index.js:149, 186).

## Model

| member | source | states |
|---|---|---|
| Digits.NatToString | index.js:48 | `String(n)` is a non-empty run of digits with no leading zero, and it reads back as `n` |
| Digits.IntToString | index.js:48 | `String(year)`: a minus exactly for negative years, then a non-empty run of digits without a leading zero (so 0 is `"0"`, never `"-0"` or `"00"`), reading back as the year |
| Digits.PadStart | index.js:48 | `padStart(width, fill)` reaches `width` characters, or keeps a longer string unchanged; the original string is the suffix and only `fill` characters precede it |
| Money.ToFixed2Denotes | index.js:40 | the `toFixed(2)` string of `cents / 100` reads back as exactly `cents` |
| Money.ReplaceFirstAt | index.js:41 | `replace('.', ',')` changes only the first occurrence and keeps everything around it |
| Money.Groups | index.js:42 | the digit groups: one leading group of 1 to 3 digits, then groups of exactly 3, which concatenate to the digits |
| Money.GroupingIsUnique | index.js:42 | any split with that shape is the one `Groups` returns, so the grouping counts from the right |
| Money.SeparatorsInAmount | index.js:42 | on `sign digits , two-digits`, the regular expression inserts a space exactly before each digit that is not first and leaves a multiple of three digits before the comma; the fraction is never grouped and a leading `-` gets no space |
| Money.FormatMoney | index.js:39-43 | the three steps give the sign, the integer digits joined in right-counted groups of three by single spaces, a comma and the two fraction digits |
| Money.FormatMoneyShape | index.js:39-43 | the result has exactly one comma, and exactly two digits follow it; it begins with `-` exactly for negative amounts; before the comma come only digits and spaces, starting with a digit |
| Money.MoneyRoundTrip | index.js:40-42 | deleting the spaces and turning the comma back into `.` gives exactly the `toFixed(2)` string |
| Money.FormatMoneyReadsBack | index.js:39-43 | the displayed amount, spaces removed and comma read as a point, parses back to exactly the cents it was made from: no digit is lost or invented |
| Money.MinusPrefixShowsNegation | index.js:149 | `"-" + formatMoney(b)` equals `formatMoney(-b)` exactly when `b > 0` |
| Money.MinusPrefixOnNonPositive | index.js:149 | otherwise the minus misleads: a zero figure shows `-0,00`, and a negative one starts with `--` |
| Dates.FormatDate | index.js:46-49 | for a valid date: two digits that read as the day, `.`, two digits that read as the zero-based month plus one, `.`, then `String(year)`, the year's canonical numeral |
| Dates.PaddedTwoDigits | index.js:48 | `String(n).padStart(2, '0')` of a number below 100 is two digits that read back as `n` |
| Dates.FormatDateRoundTrip | index.js:46-49 | a formatted valid date reads back as the same date |
| Periods.DayBounds | index.js:120-124 | an instant lies on day `d` exactly when it lies between `d` at 00:00:00.000 and `d` at 23:59:59.999 |
| Periods.TrailingWeek | index.js:119-124 | `start < end`; `now` is in the window; it spans exactly 7 days of milliseconds; `start` falls on today minus 6 and `end` on today; an instant is inside exactly when its day is one of those seven |
| Stats.UndatedCountsNow | index.js:82-86 | a document with a missing or zero `createdAt.seconds` is dated `new Date()`: adding it to either collection raises that sum by its amount exactly when `now` lies in the window, and leaves it unchanged otherwise |
| Stats.DatedCountsAtItsSecond | index.js:82-86 | a dated document raises the sum by its amount exactly when `seconds * 1000` lies in the window, both end points included |
| Stats.FalsyAmountAddsNothing | index.js:81 | a document whose amount is missing or falsy (`amount \|\| 0`, here and at line 96 for withdrawals) leaves both sums of `getStats` as they were |
| Stats.AccumulateIsWindowTotal | index.js:79-87 | the `forEach` running sum equals the sum of the amounts of the documents in the window, taken with a filter |
| Stats.ContributesOnce | index.js:84-86 | each document adds its amount once when it counts, and nothing otherwise |
| Stats.WindowTotalPermutation | index.js:79-87 | the order in which the store returns documents does not change the sum |
| Stats.GetStats | index.js:67-109 | the deposit sum and the withdrawal sum are each the filtered sum of their own collection. A failed deposit query gives `{0, 0}` whatever the withdrawal query returns. A failed withdrawal query keeps the deposit sum and leaves the withdrawal sum at 0 |
| Reports.DailyStepReaches | index.js:131-153 | at noon a manager gets one `getStats` call and one message to its `groupId` when both `payment` and `groupId` are truthy, and neither otherwise |
| Reports.BalanceStepReaches | index.js:176-190 | in the evening a manager gets one message exactly when both fields are truthy, and never a `getStats` call |
| Reports.ForEachRecipients | index.js:126-154 | looping over the managers messages exactly the eligible managers, once each, in store order |
| Reports.ForEachAggregations | index.js:126-154 | looping over the managers calls `getStats` for exactly the eligible managers, once each, in store order |
| Reports.ForEachNoAggregation | index.js:171-191 | a loop whose steps call no `getStats` calls none |
| Reports.DailyReportReaches | index.js:116-157 | the noon run messages and aggregates for exactly the eligible managers in order, and does nothing when the manager query fails |
| Reports.BalanceReportReaches | index.js:168-194 | the evening run messages exactly the eligible managers in order, makes no `getStats` call, and does nothing when the manager query fails |
| Reports.DailySkipsIneligible | index.js:131 | at noon, a manager without a payment method or chat id leaves the run as if the document were absent |
| Reports.BalanceSkipsIneligible | index.js:176 | the same in the evening |
| Reports.BalanceLineNegates | index.js:149 | the balance line equals the line with `formatMoney(-bdt)` and `formatMoney(-usdt)` exactly when both figures are positive |
| Reports.DailyStepSends | index.js:131-150 | at noon an eligible manager's chat gets a report on its own payment method: the window's first and last dates, the approved deposit and withdrawal sums of that method in that window (0 where `getStats` caught a failed query), and the manager's own `balance \|\| 0`, each beside its USDT conversion; the `getStats` call for the same window comes first |
| Reports.BalanceStepSends | index.js:176-187 | in the evening an eligible manager's chat gets its own method and `balance \|\| 0` beside its USDT conversion, and nothing else |
| Reports.DailyReportCoversWeek | index.js:117-143 | one noon run reports every manager on the same window: every `getStats` call covers `TrailingWeek(now)`, and every report is dated from six days before today to today |
| Reports.RenderLayout | index.js:141-149 | the message starts with the task's title and the method (in bold at noon) and ends with the balance line, plus a line break at noon; the evening message has nothing else (index.js:182-186) |

## Left out

- Firestore initialisation and queries, the Telegram call through axios, the express
  health endpoint, and loading of environment variables and credentials (index.js:1-34,
  52-64). These are I/O. Each query result is given as a sequence of documents or a
  failure. The store's filter on `method` and `status == 'approved'` is assumed done. A
  send is an action whose result neither task reads.
- Cron scheduling and the `Asia/Dhaka` time zone (index.js:113, 158-161, 165, 195-198).
  These are external timers. Instants are milliseconds on the local clock, and days start
  at multiples of 86 400 000 ms.
- The USDT conversion `x / 125.56` (index.js:8, 136-139, 180). It is floating-point
  division, so it is the uninterpreted function `Env.toUsdt`, which gives USDT cents.
- `Date` month rollover and local calendar fields. The date of a day number is the
  uninterpreted function `Env.calendar`.
- Each `new Date()` of the noon task reads the clock anew: the two that fix the window
  (index.js:119, 122) and the one per undated document inside every `getStats` call
  (index.js:82, 97). The model uses a single `now` for the whole noon run: the window and
  every `getStats` call.
- `Number()` on non-numeric strings (NaN). Amounts and balances are `Option<int>` cents.
  `None` stands for any falsy value.
- FormatMoney: does not model binary floating-point rounding in `toFixed`, or its switch
  to exponential notation at 1e21 and above. BDT amounts are exact integer cents, and the
  USDT figures are modelled after they are rounded to cents.
- FormatMoney: does not model the minus that `toFixed(2)` keeps on a negative value that
  rounds to zero. The USDT figures `x / 125.56` (index.js:136-139, 145-146, 149, 180, 186)
  can be such values. A balance of -0.50 BDT is -0.00398 USDT, which the code shows as
  `(--0,00 USDT)`. An integer `Env.toUsdt` result cannot make `FormatMoney` print `-0,00`,
  so the model cannot produce that line. `MinusPrefixShowsNegation` and
  `BalanceLineNegates` describe the USDT figure only after it is rounded to cents.
- A Saturday-to-Friday week window. No such code exists in index.js.
- Console logging.
