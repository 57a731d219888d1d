# Roster BBCode parser — a Dafny model

This project models the parser of a small web app that reads forum BBCode roster tables. A pasted
`[TABLE]…[/TABLE]` block lists workers, one `[TR]` per row. Its first four `[TD]` cells are
nationality, name (usually a `[URL="…"]name[/URL]` link), a time range and a rate. The parser turns
them into typed rows, groups the rows by nationality in first-appearance order, sorts each group by
start time, and flattens the groups for export.

Modules, leaf first:

- `Text` (text.dfy): the JavaScript string built-ins the parser uses, over `seq<char>`. This covers
  the `\s` class, ASCII case mapping, `trim`, the `\s+`→" " and `\s{2,}`→" " replacements, `\b`,
  index search, decimal digits, `join` and `split`.
- `BBCode` (bbcode.dfy): `stripBB` and `extractURLAndText`. `src/App.tsx` holds a copy of both
  with the same patterns and replacements, so each is defined once.
- `Clock` (clock.dfy): the normalisation and the four regular expressions of `parseTimeToDate`,
  plus a one-pass reference grammar `ClockOf` that the if-chains are proved against.
- `Times` (times.dfy): `parseTimeToDate`, `fmtHM` and `buildDateNote` of `src/lib/utils.ts`.
- `Utils` (utils.dfy): `cleanRate`, `extractHeaderTags`, `extractTags`, `stripInlineTagWords` and
  `normalizeNat` of `src/lib/utils.ts`.
- `AppHelpers` (app.dfy): the `src/App.tsx` helpers. These are `FLAG_MAP`, `guessFlag`, the older
  `cleanRate`, the local `parseTimeToDate` (which has no `24` branch), `Row` and `toNotionMarkdown`.
- `Grouping` (grouping.dfy): grouping by nationality key, the stable sort by start, and flattening.
- `Roster` (roster.dfy): the `parsed` computation of `src/App.tsx`, pulled out as the method
  `ParseRoster`. It covers the page title, the choice of body table, the `[TR]`/`[TD]` split, row
  building with the overnight rollover, and the grouping.

A time is an `int` number of minutes after the roster day's local midnight, so `setHours(h, m)` is
`h * 60 + m` with no range check. Each regular expression is a hand-written scanner that reproduces
the engine's leftmost, greedy or lazy choice for that fixed pattern. Imperative code is modelled by
methods: `extractTags` grows its list behind an `includes` test, `parseTimeToDate` assigns `h`/`m`
through an if-chain, and the parse loop pushes rows, rolls `end` over and fills the `grouped`
record and the `order` list. Each of these methods is proved equal to a specification function,
and the properties are proved about those functions.

Quirks of the code that the model keeps:

- The parser in `src/App.tsx` uses its own older `cleanRate`. That version keeps no `$`,
  lower-cases its output and turns `300/h` into `300//h` (`AppHelpers.AppCleanRateDoubleSlash`).
- The parser reads the cells of a row at fixed positions 0 to 3: nationality, name, time range and
  rate. Cells after the fourth are ignored.
- A row's `natKey` is the stripped nationality cell, lower-cased.
- Every group is sorted by start with a stable sort. A missing start counts as the epoch, which
  sorts before any start on a roster day dated after 1970 (earlier days are under "Left out").
- `stripInlineTagWords` has no "New Zealand" exception, while `normalizeNat` has one
  (`Utils.StripInlineTagWordsNewZealand`, `Utils.NormalizeNatKeepsNewZealand`).
- Two branches of the `src/lib/utils.ts` `parseTimeToDate` can never be taken. The hour-only
  am/pm branch is shadowed by the general am/pm pattern, and the `24`/`24:00` branch is shadowed by
  the bare-hour and `H:MM` branches. In both cases the shadowing branch gives the same values.

## Model

| member | source | states |
|---|---|---|
| `BBCode.StripBB` | src/lib/utils.ts:7-13 | the cleaned cell has no leading or trailing whitespace, every whitespace character is a plain space, and no two are adjacent |
| `BBCode.StripBBNoBracket` | src/lib/utils.ts:7-13 | a cell with no `[` comes back whitespace-collapsed and trimmed, nothing else removed |
| `BBCode.StripBBPassThrough` | src/lib/utils.ts:8-12 | text where neither the link pattern nor the style-tag pattern matches (unrecognised tags included) passes through, only whitespace-collapsed and trimmed |
| `BBCode.StripBBPlainText` | src/lib/utils.ts:7-13 | bracket-free, trimmed, single-spaced text is a fixed point |
| `BBCode.StripBBTag` | src/lib/utils.ts:7-13 | a recognised style tag around bracket-free text, `[N]text[/N]`, is removed, leaving the text whitespace-collapsed and trimmed |
| `BBCode.StripBBLink` | src/lib/utils.ts:9 | a link `[URL=target]caption[/URL]` with a bracket-free caption is replaced by its caption, whitespace-collapsed and trimmed |
| `BBCode.QuotedLinkFrom` | src/lib/utils.ts:16 | the position where the link regex first matches, scanning from the left: a match there and none before it, or the end of the text when there is no match anywhere |
| `BBCode.ExtractURLAndText` | src/lib/utils.ts:15-19 | a target exactly when the link regex matches somewhere; then the label and target are the trimmed captures of the leftmost match, with no `[` in the label and no `"` in the target; otherwise the `stripBB` text and no target |
| `BBCode.ExtractURLAndTextAt` | src/lib/utils.ts:15-19 | a cell whose leftmost match is at a given position is read as that match's trimmed captures |
| `BBCode.QuotedLinkAtOf` | src/lib/utils.ts:16 | `[URL="target"]label[/URL]` written after any prefix matches where it starts, capturing the target and the label exactly |
| `BBCode.NoQuotedLinkInCellHead` | src/lib/utils.ts:16 | no match starts inside `[TD attrs]pre` when neither `attrs` nor `pre` holds a `[` |
| `BBCode.ExtractURLAndTextOfCell` | src/App.tsx:193 | the name cell `[TD attrs]pre[URL="target"]label[/URL]post` gives the trimmed label as the name (and the trimmed target), whatever follows the link |
| `BBCode.ExtractURLAndTextOfLink` | src/App.tsx:74-78 | a link written as `[URL="target"]label[/URL]` is read back as its trimmed label and target (round trip) |
| `Utils.RateSpec` | src/lib/utils.ts:21-30 | the reference reading of a rate is empty exactly when the text has no two adjacent digits |
| `Utils.CleanRateMeetsSpec` | src/lib/utils.ts:21-30 | `cleanRate` equals the reference reading of the stripped token: the first digit pair decides, a preceding `$` is kept, up to four digits and an optional two-digit fraction, then `/H` |
| `Utils.RateSpecShape` | src/lib/utils.ts:27-29 | a rate has no whitespace and no lower-case letter, ends in `/H`, and starts with `$` exactly when a sigil preceded the digits |
| `Utils.CleanRateWithSigil` | src/lib/utils.ts:21-30 | `"$320"` becomes `"$320/H"` |
| `Utils.CleanRatePerHour` | src/lib/utils.ts:21-30 | `"300/hr"` becomes `"300/H"` |
| `Utils.ExtractHeaderTags` | src/lib/utils.ts:33-37 | every hint is non-empty, has no lower-case letter, and holds no comma, whitespace, `\|`, `/` or `)` |
| `Utils.HeaderTagsRoundTrip` | src/lib/utils.ts:33-37 | hint tokens written as `(((A,B,…)))` are read back as the same list |
| `Utils.BuiltinsFrom` | src/lib/utils.ts:49-54 | the fixed labels that match come in the table order NEW, TOP, JAV, VIP, CAME BACK!, SPECIAL |
| `Utils.AddBuiltins` | src/lib/utils.ts:44-54 | the six `add` calls produce the matching fixed labels, without duplicates |
| `Utils.TagsOf` | src/lib/utils.ts:45-61 | the hint loop keeps the fixed labels as a prefix and never duplicates a label; an appended label is a hint that occurs as a whole word, and every such hint ends up in the list |
| `Utils.ExtractTags` | src/lib/utils.ts:39-62 | the same properties, stated over the stripped, upper-cased, space-joined concatenation of both sources |
| `Utils.StripInlineTagWords` | src/lib/utils.ts:65-70 | the result is trimmed and has no two adjacent whitespace characters |
| `Utils.StripInlineTagWordsNone` | src/lib/utils.ts:64-70 | a name containing none of the annotation words comes back only whitespace-normalised, and unchanged when already trimmed without runs |
| `Utils.StripInlineTagWordsNewZealand` | src/lib/utils.ts:67 | with no protection, `"New Zealand"` loses its `New` and becomes `"Zealand"` |
| `Utils.RemoveInlineLeavesNone` | src/lib/utils.ts:67 | once the left-to-right scan of the `gi` replacement stands at a word boundary, the rest of its output holds no whole-word `new`, `vip`, `jav`, `top`, `special` or `premium`, in any case. A dropped word starts and ends with a letter and stands between `\b` boundaries, so no new whole word forms where it was |
| `Utils.RemoveInlineWordsLeavesNone` | src/lib/utils.ts:67 | the replacement's output holds none of those six words as whole words, in any case |
| `Utils.CollapseRunsLeavesNoTag` | src/lib/utils.ts:68 | collapsing whitespace runs to one space creates none of the six words |
| `Utils.TrimEndLeavesNoTag` | src/lib/utils.ts:69 | trimming trailing whitespace creates none of the six words |
| `Utils.StripInlineTagWordsLeavesNone` | src/lib/utils.ts:65-70 | the stripped name holds no whole-word `new`, `vip`, `jav`, `top`, `special` or `premium`, in any case |
| `Utils.NormalizeNat` | src/lib/utils.ts:73-79 | the key is trimmed, single-spaced and has no upper-case letter |
| `Utils.NormalizeNatOfNormal` | src/lib/utils.ts:73-79 | a key already in normal form, with no unprotected whole-word `new`, is a fixed point (idempotence on normal forms) |
| `Utils.NormalizeNatLeavesNoNew` | src/lib/utils.ts:73-79 | the key holds no whole-word `new` that the pattern would remove: every `new` left is part of a longer word or followed by `zealand` |
| `Utils.NormalizeNatIdempotent` | src/lib/utils.ts:73-79 | normalising a key a second time changes nothing |
| `Utils.NormalizeNatKeepsNewZealandWithin` | src/lib/utils.ts:76 | whenever the lower-cased text contains "new zealand", so does the key, wherever it occurs and whatever surrounds it |
| `Utils.NormalizeNatCaseBlind` | src/lib/utils.ts:75 | texts that lower-case alike normalise alike |
| `Utils.NormalizeNatKeepsNewZealand` | src/lib/utils.ts:76 | any spelling of "New Zealand" normalises to `"new zealand"`, keeping its `new` |
| `Utils.NormalizeNatDropsNew` | src/lib/utils.ts:76 | any spelling of "new japanese" loses its whole-word `new` and becomes `"japanese"` |
| `Clock.NormalizeDashes` | src/lib/utils.ts:90 | the result has the input's length and no en or em dash; only dashes change, and they change to hyphens |
| `Clock.NormalizeDashesIdempotent` | src/lib/utils.ts:90 | normalising the dashes twice is the same as once |
| `Clock.NormalizeTimeOfNormal` | src/lib/utils.ts:87-91 | trimmed, lower-case, single-spaced text without en or em dashes is left unchanged by the normalisation |
| `Clock.To24OnDial` | src/lib/utils.ts:103-104 | on the 12-hour dial, am gives `h mod 12` and pm gives `h mod 12 + 12`, so the readings are 0..23 |
| `Clock.HourAmPmShadowed` | src/lib/utils.ts:95-109 | whatever the hour-only am/pm pattern matches, the general am/pm pattern matches first, with the same hour and meridiem and no minutes |
| `Clock.TwentyFourShadowed` | src/lib/utils.ts:110-116 | `24` is read by the bare-hour branch and `24:00` by the `H:MM` branch, both as hour 24, minute 0 |
| `Clock.AmPmAgrees` | src/lib/utils.ts:99-104 | the am/pm branch gives the reference grammar's value |
| `Clock.HhmmAgrees` | src/lib/utils.ts:110-112 | the `H:MM` branch gives the reference grammar's value |
| `Clock.BareHourAgrees` | src/lib/utils.ts:113-114 | the bare-hour branch gives the reference grammar's value |
| `Clock.NoMatchAgrees` | src/lib/utils.ts:117-118 | when no pattern matches, the reference grammar rejects the text too |
| `Clock.MeridiemReading` | src/lib/utils.ts:85-123 | `H am` / `H pm` with a one- or two-digit hour reads as that hour on the 24-hour clock, on the hour |
| `Times.ReadClock` | src/lib/utils.ts:93-123 | the if-chain on normalised text returns exactly the reference grammar's reading: null for an unrecognised shape, otherwise `h*60+m` |
| `Times.ParseTimeToDate` | src/lib/utils.ts:85-124 | null for the empty string; otherwise the reading of the trimmed, lower-cased, dash-normalised, whitespace-collapsed text |
| `Times.FmtHM` | src/lib/utils.ts:126-127 | five characters, two digits, a colon, two digits |
| `Times.FmtHMReadBack` | src/lib/utils.ts:126-127 | a formatted time read back with the clock grammar gives the instant's minute of the day |
| `Times.Present` | src/lib/utils.ts:130-131 | the filtered column holds exactly the instants that are present |
| `Times.MinOf` | src/lib/utils.ts:133 | the minimum is one of the values and no value is below it |
| `Times.MaxOf` | src/lib/utils.ts:134 | the maximum is one of the values and no value is above it |
| `Times.BuildDateNote` | src/lib/utils.ts:129-132 | the note is empty exactly when no row has a start or no row has an end |
| `Times.BuildDateNoteReadBack` | src/lib/utils.ts:133-137 | a note reads back as the earliest start and the latest end as `HH:MM`, separated by `" - "` exactly when they fall on the same day and by `" → next day "` otherwise |
| `AppHelpers.GuessFlag` | src/App.tsx:58-64 | empty exactly when no `FLAG_MAP` key occurs in the trimmed, lower-cased text; otherwise the flag of the first key, in table order, that occurs in it |
| `AppHelpers.FlagFor` | src/App.tsx:223 | the flag stored under exactly that key, or empty when the key is not in the table |
| `AppHelpers.GuessFlagOfKey` | src/App.tsx:12-20 | a text that is exactly a `FLAG_MAP` key gets that key's own flag, the same as the exact lookup (no earlier key occurs inside a later one) |
| `AppHelpers.AppCleanRateMeetsSpec` | src/App.tsx:80-84 | the App `cleanRate` is the part-wise reading of the stripped token: the stripped text when it has no digit; otherwise the digit run, `/` if there was a slash, and `/h`, `hr` or `r` for the unit |
| `AppHelpers.AppRateShape` | src/App.tsx:82-83 | with a digit, the rate starts with a digit and has no whitespace and no upper-case letter; without one it is the stripped text |
| `AppHelpers.AppCleanRateDoubleSlash` | src/App.tsx:82-83 | `"300/h"` becomes `"300//h"` |
| `AppHelpers.AppCleanRateBareHour` | src/App.tsx:82-83 | `"300h"` becomes `"300/h"` |
| `AppHelpers.AppReadClock` | src/App.tsx:29-55 | the App if-chain, without a `24` branch, gives the reference grammar's reading |
| `AppHelpers.AppParseTimeToDate` | src/App.tsx:22-56 | null for the empty string; otherwise the reference grammar's reading of the normalised text, so on every input it returns what the `src/lib/utils.ts` copy returns |
| `AppHelpers.NotionMarkdownLines` | src/App.tsx:86-92 | split on newlines, the markdown is the two fixed header lines, then one `\| flag \| name \| time \| rate \|` line per row in order (a single empty line when there are no rows), then the empty piece after the final newline |
| `Roster.DateAt` | src/App.tsx:168 | a match is a `]`, a `d/m/yyyy` date, then `[` |
| `Roster.DateAtComplete` | src/App.tsx:168 | every `]`, date, `[` text is matched |
| `Roster.PageTitle` | src/App.tsx:166-175 | the fallback title when no date matches; otherwise the title ends with the first date, and is that date alone exactly when no weekday pattern matches; when it matches, the title is the weekday name it captures, a space and the date |
| `Roster.WeekdayCapture` | src/App.tsx:173-174 | the captured weekday is the text just after `[SIZE=4]`, kept as written, and equals the matched weekday name ignoring case |
| `Roster.BlocksAreBlockText` | src/App.tsx:178 | every table match starts with an opening tag and ends with the closing tag |
| `Roster.BodyTable` | src/App.tsx:178-179 | the body table is a whole `[TABLE]` block, or empty |
| `Roster.BodyTableOfTwo` | src/App.tsx:179 | with a date table followed by a content table, the second one is the body table |
| `Roster.BodyTableOfOne` | src/App.tsx:179 | a single table is the body table |
| `Roster.InnerOfWrap` | src/App.tsx:180-181 | the content of a written table is its body |
| `Roster.TableRowsOfTwoTables` | src/App.tsx:178-183 | for a header table followed by a table of written rows, the `[TR]` blocks found are exactly those rows, in order |
| `Roster.TableRowsOfOneTable` | src/App.tsx:178-183 | the same for a roster pasted as one table |
| `Roster.TimeLabel` | src/App.tsx:194 | the label is trimmed, single-spaced and holds no en dash |
| `Roster.ReplaceEnDashesNone` | src/App.tsx:194 | text without an en dash goes through the dash replacement unchanged |
| `Roster.ReplaceEnDashesOfRange` | src/App.tsx:194 | `a – b` becomes `a - b` when `a` and `b` are trimmed and hold no en dash |
| `Roster.TimeLabelWithoutDash` | src/App.tsx:194 | a time cell whose stripped text holds no en dash is labelled with exactly that stripped text |
| `Roster.TimeLabelOfRange` | src/App.tsx:194-197 | the cell `[TD]a – b[/TD]` is labelled `a - b`, and that label splits back into `a` and `b` when neither holds a hyphen |
| `Roster.SplitDashPieces` | src/App.tsx:196 | no piece of the hyphen split holds a hyphen |
| `Roster.SplitDashPair` | src/App.tsx:197 | a label `start - end` splits back into its two times |
| `Roster.LabelTimes` | src/App.tsx:197 | neither half of a label holds a hyphen |
| `Roster.RollOver` | src/App.tsx:200 | the end is present exactly when it parsed; it moves by exactly 24 hours, once, only when the start parsed too and the end is not after it |
| `Roster.RollOverSpan` | src/App.tsx:197-200 | for two clock readings within one day, the rolled-over end is after the start and at most a day later |
| `Roster.ParseHalves` | src/App.tsx:196-198 | the start and end are the readings of the first and second hyphen pieces |
| `Roster.LabelSpan` | src/App.tsx:197-200 | the start is the reading of the first half; the end is the reading of the second half, rolled over against the start |
| `Roster.MeridiemLabelSpan` | src/App.tsx:194-200 | for `H am\|pm - H am\|pm`, the start is the first reading and the end is the second, plus a day exactly when it is not after the start |
| `Roster.OvernightShift` | src/App.tsx:197-200 | the label `11 pm - 6 am` starts at 23:00 and ends 06:00 the next day, seven hours later |
| `Roster.BuildRow` | src/App.tsx:191-210 | the row's key is the lower-cased stripped nationality cell and its flag is guessed from that cell; its name is the link label of the second cell; its label is the cleaned third cell, trimmed, single-spaced and free of en dashes; its start is the reading of the label's first half and its end the reading of the second half rolled over against the start; its rate is the App `cleanRate` of the fourth cell |
| `Roster.MakeRow` | src/App.tsx:191-210 | the loop body builds exactly that row |
| `Roster.RowOf` | src/App.tsx:187-189 | a `[TR]` gives a row exactly when it holds no `[SIZE=3]` (ignoring case) and has at least four `[TD]` cells, and that row is built from its cells |
| `Roster.RowsOf` | src/App.tsx:183-211 | there are never more rows than `[TR]` blocks |
| `Roster.RowsOfAppend` | src/App.tsx:186-189 | the rows of two runs of `[TR]` blocks are the rows of each, one after the other, so skipping a row never affects the rest |
| `Roster.RowOfWritten` | src/App.tsx:186-210 | a written row of written cells, with no header mark, gives the row built from those cells |
| `Roster.BuildRows` | src/App.tsx:185-211 | the loop computes exactly the kept rows, in order |
| `Grouping.KeyOf` | src/App.tsx:217 | a group key is never empty, because an empty `natKey` falls back to `"others"` |
| `Grouping.FirstKeys` | src/App.tsx:214-219 | the keys are distinct, and they are exactly the keys of the rows |
| `Grouping.FirstKeysOrder` | src/App.tsx:214-219 | keys come in first-appearance order: every row of a later group comes after some row of each earlier group |
| `Grouping.WithKey` | src/App.tsx:219 | a group holds exactly the rows carrying its key |
| `Grouping.SortByStart` | src/App.tsx:221 | the sort is a permutation of the group |
| `Grouping.SortByStartSorted` | src/App.tsx:221 | the sorted group is in ascending `StartKey` order, where a missing start has key -1 |
| `Grouping.SortByStartStable` | src/App.tsx:221 | the sort is stable: rows with equal start keys keep their order |
| `Grouping.GroupsOfKeys` | src/App.tsx:214-223 | group keys are distinct and every row's key has a group |
| `Grouping.GroupsOfMember` | src/App.tsx:214-223 | a row is in a group exactly when it is one of the rows and carries that group's key; with the above, every row lands in exactly one group |
| `Grouping.GroupsOfSortedStable` | src/App.tsx:221-223 | each group is sorted by start, stable, and carries the flag stored under its key |
| `Grouping.GroupsOfNonEmpty` | src/App.tsx:223 | the filter on empty groups removes nothing |
| `Grouping.FlattenGroupsOfPermutes` | src/App.tsx:224 | `flat` has the same length and elements as the rows |
| `Grouping.CollectRows` | src/App.tsx:214-219 | after the loop the key list is the keys in first-appearance order, the record holds exactly those keys, and each entry holds the rows with its key, in table order |
| `Grouping.SortGroups` | src/App.tsx:221 | every record entry becomes its rows sorted by start, under the same keys |
| `Grouping.GroupRows` | src/App.tsx:214-224 | the dictionary-and-order-list loop, the in-place sorts, the filter and the `flatMap` compute the grouping and its concatenation |
| `Roster.ParseRoster` | src/App.tsx:164-227 | the parse is its specification function `ParsedOf`, and its flat list is a rearrangement of the parsed rows |

## Left out

- The day of the roster: `dayISO`, `new Date(y, m - 1, d).toISOString()` (src/App.tsx:167-172),
  time zones and daylight saving. Times are minutes after the roster day's midnight, and "same day"
  in `buildDateNote` means the same 1440-minute bucket.
- `toISOString` in the CSV export, `toDateString`, and the `Date` object itself.
- Case mapping is ASCII only. JavaScript `toLowerCase`/`toUpperCase` also map non-ASCII letters.
  This affects `normalizeNat`, `guessFlag`, the row `natKey`, tag detection, hint upper-casing and
  time normalisation.
- Grouping: a nationality cell that lower-cases to `constructor` or `__proto__` makes the code
  throw. `grouped[k]` then finds an inherited `Object.prototype` value, which is truthy, so no
  array is created and `grouped[k].push(r)` (src/App.tsx:219) raises a `TypeError` that ends the
  whole parse. The model's record has no inherited entries and gives such a key an ordinary group.
- StripInlineTagWordsLeavesNone: stated for the six single words only. `came back` can form again,
  because the whitespace collapse runs after the removal: `came new back` and `came\t\tback` both
  come out as `came back`.
- StartKey/SortByStart: roster days dated before 1970 (for instance `]1/1/1960[`, or `]6/9/0025[`,
  which `new Date` reads as 1925) are not modelled. There every start is a negative instant, so
  the code sorts a missing start (key 0) after all present starts, while `StartKey` gives it -1
  and sorts it first.
- `Array.prototype.sort` on each group is modelled as a functional stable insertion sort on `seq`.
  The sorted groups are rebuilt in the record rather than updated in place. A stable sort has only
  one possible result, so the engine's algorithm does not matter.
- The `groupByNationality` switch. It is listed as a dependency of the computation but does not
  change what it returns.
- React state, refs, JSX rendering, `exportPNG` (html2canvas and the DOM), and `copyMarkdown` /
  `copyCSV` (the clipboard). Only the string builder `toNotionMarkdown` is modelled.
- `cn` and `titleize`, which only build class names and display text.
- src/main.tsx and vite.config.ts (bootstrap and build configuration).
- The general regular-expression engine. Each fixed pattern is a dedicated scanner. A header hint
  is tested as a literal whole word, which is what the escaped pattern matches.
- ExtractURLAndTextOfCell: stated for name cells whose `[TD …]` attributes and text before the
  link hold no `[`. When they do hold a `[`, the regex can match earlier. For example, with
  attributes `[URL="a` and a target that starts with `]`, the match runs from inside the
  attributes. That case is covered only by the general leftmost-match contract of
  `ExtractURLAndText`.
