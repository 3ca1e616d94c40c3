# Timepicker, modelled in Dafny

Timepicker binds an hour/minute picker to a text input. The constructor
merges the caller's options into the defaults. The input is made read-only,
and a hidden panel with two `<select>` elements is rendered next to it:
hours 0 to 23 in steps of 1, and minutes 0 to 59 in steps of 5. Each select
opens with a blank `--` option. Clicking the input opens the panel. A click
anywhere outside the `.timepicker` container closes it. Changing either
select writes `HH:MM` into the input, or the empty string while either
select is blank.

This project models that behaviour as pure values and functions:

- `optional.dfy`: the `Option` type, standing for `undefined`, `null` and the empty-string option value.
- `decimal.dfy`: how an integer is written in a template literal (`${n}`), the two-digit padding `n < 10 ? "0" + n : n`, and reading digits back.
- `select_options.dfy`: `#generateSelect` as a list of option records, and the value a freshly rendered select starts with.
- `popover.dfy`: `open` and `close` on the panel's class list.
- `outside_click.dfy`: the ancestor walk of `#checkOutsideClick` over a document given as a parent map.
- `time_format.dfy`: the text `setHours` writes into the input.
- `timepicker.dfy`: the configuration merge and the constructor with `#init`, then the widget's response to clicks and select changes. It also proves the invariant that the input always shows what the selects hold.

## Model

| member | source | states |
|---|---|---|
| Decimal.ReadShow | timepicker.js:139 | The decimal text a template literal gives a non-negative integer reads back as that integer. |
| Decimal.ShowLength | timepicker.js:139 | That text has one digit below 10 and two digits from 10 to 99, with no leading zero. |
| Decimal.Pad2Facts | timepicker.js:139 | The padded text `n < 10 ? "0" + n : n` is all digits and reads back as `n`. It is two characters long exactly when `n < 100`. For `n >= 10` it equals the unpadded text. |
| Decimal.Pad2Injective | timepicker.js:139 | Distinct values never share a padded text. |
| TimeFormat.FormatTime | timepicker.js:96-103 | The input text is empty exactly when the hour or the minute select is blank. Otherwise, for values below 100, it is five characters with a colon in the middle, and the two digit pairs around it read back as the hour and the minute. |
| TimeFormat.FormatReadRoundTrip | timepicker.js:100 | Reading the written text back yields the selected hour and minute, and nothing when either is blank. |
| TimeFormat.FormatInjective | timepicker.js:100 | Two different hour/minute pairs never produce the same text. |
| SelectOptions.GridClosedForm | timepicker.js:138 | After `k` iterations of `i += step` the loop counter is `start + k * step`. |
| SelectOptions.GridIncreasing | timepicker.js:138 | With a positive step the loop counter strictly increases. |
| SelectOptions.Numeric | timepicker.js:138-140 | The loop writes, in order, one option per counter value not above `max`. Each option is marked selected exactly when its value equals `selected`. The next counter value exceeds `max`. |
| SelectOptions.GenerateSelect | timepicker.js:132-145 | The list opens with the blank sentinel, followed by the loop's options. Every numeric option lies at or below `max`, and the first counter value left out lies above it. |
| SelectOptions.GenerateSelectLoop | timepicker.js:132-145 | The imperative loop that appends one option per iteration builds exactly `GenerateSelect`'s list. |
| SelectOptions.ValueAt | timepicker.js:138-139 | Option `k` carries the counter value after `k - 1` steps, and that value is not above `max`. |
| SelectOptions.GenerateSelectValues | timepicker.js:138-139 | Option `k` carries `min + (k - 1) * step`, and that value is at most `max`. |
| SelectOptions.GenerateSelectComplete | timepicker.js:138 | The first value past the last option exceeds `max`, so no grid value in range is missing. |
| SelectOptions.GenerateSelectLabels | timepicker.js:135-139 | The sentinel shows `--`. Every numeric option shows digits that read back as its value, and the label is two characters long exactly when the value is below 100. |
| SelectOptions.GenerateSelectMarks | timepicker.js:139 | Every option after the sentinel has a number, and it is marked selected exactly when that number equals `selected`. |
| SelectOptions.GenerateSelectIncreasing | timepicker.js:138 | The numeric values strictly increase along the list. |
| SelectOptions.OfferedStep | timepicker.js:138-139 | An offered value is the counter after some number of steps, and it is not above `max`. |
| SelectOptions.OffersOnlyGrid | timepicker.js:138-139 | Every offered value `v` satisfies `min <= v <= max` and `(v - min) % step == 0`. |
| SelectOptions.OffersEveryGrid | timepicker.js:138-139 | Every value `v` with `min <= v <= max` and `(v - min) % step == 0` is offered. |
| SelectOptions.OffersIff | timepicker.js:138-139 | A value is offered if and only if it lies on the grid from `min` within `[min, max]`. |
| SelectOptions.AtMostOneSelected | timepicker.js:139 | At most one option is marked selected. |
| SelectOptions.NegativeSelectsNothing | timepicker.js:139 | A negative selection, such as the default `-1`, marks no option. |
| SelectOptions.InitialValue | timepicker.js:139 | A rendered select starts on the value of the last option marked `selected`, or on its first option when none is marked. |
| SelectOptions.LastMarked | timepicker.js:139 | Finds the index of the last marked option before a bound, with no marked option between it and the bound, or reports that none is marked. |
| SelectOptions.InitialValueIsLastMarked | timepicker.js:139 | When option `k` is marked and no later option is, the select starts on option `k`'s value. |
| SelectOptions.InitialValueOfMarked | timepicker.js:135-139 | A list that opens with the sentinel and marks exactly the options equal to `selected` starts on `selected` when it offers it, and on the blank sentinel otherwise. |
| SelectOptions.InitialValueOfGenerated | timepicker.js:132-145 | A generated select starts on `selected` when it offers that value, and on the blank sentinel otherwise. |
| SelectOptions.InitialValueOnGrid | timepicker.js:132-145 | A generated select starts on `selected` exactly when `selected` is on the grid within `[min, max]`, and on blank otherwise. |
| SelectOptions.HourOptions | timepicker.js:119 | The hour select has 25 entries: the sentinel, then the values 0 to 23 in order. |
| SelectOptions.MinuteOptions | timepicker.js:125 | The minute select has 13 entries: the sentinel, then 0, 5, ..., 55 in order, none above 55. |
| Popover.Open | timepicker.js:80-82 | After `classList.add("show")` the panel is open. No other class is added or removed, the existing classes keep their order at the front, and a list without duplicates stays without duplicates. |
| Popover.Close | timepicker.js:84-86 | After `classList.remove("show")` the panel is closed. No other class is added or removed, a closed panel's list is unchanged, and a list without duplicates stays without duplicates. |
| Popover.OpenIdempotent | timepicker.js:80-82 | Opening twice equals opening once. |
| Popover.CloseIdempotent | timepicker.js:84-86 | Closing twice equals closing once. |
| Popover.CloseAfterOpen | timepicker.js:80-86 | Opening then closing leaves the same list as closing alone. |
| Popover.CloseAppendShow | timepicker.js:80-86 | Removing `show` from a list ending in an added `show` equals removing it from the list before. |
| Popover.OpenAfterClose | timepicker.js:80-86 | Closing then opening puts `show` at the end of the closed list. |
| OutsideClick.WalkStaysInside | timepicker.js:65-73 | Once the walk has met the container, its outside flag stays false to the end. |
| OutsideClick.InsideChainStep | timepicker.js:65-73 | For a node that is neither the container nor `HTML`, the container is on its chain exactly when it is on its parent's chain. |
| OutsideClick.WalkIff | timepicker.js:62-74 | The walk from a node reports outside exactly when the container is not on the node's ancestor chain up to and including the first `HTML` element. |
| OutsideClick.ClickOutsideIff | timepicker.js:62-78 | `#checkOutsideClick` decides to close exactly when the container is not among the target's ancestors up to the `HTML` element. |
| OutsideClick.ClickOnContainerIsInside | timepicker.js:66-67 | A click on the container itself never counts as outside. |
| Timepicker.Merge | timepicker.js:15-34 | Each key the caller supplies replaces the default as a whole, and each missing key keeps the default (read-only input, hour and minute `-1`). |
| Timepicker.InitialHour | timepicker.js:119 | The hour select starts on the configured hour when it is 0 to 23, and blank otherwise. |
| Timepicker.InitialMinute | timepicker.js:125 | The minute select starts on the configured minute when it is a multiple of 5 from 0 to 55, and blank otherwise. |
| Timepicker.HourSelectOffers | timepicker.js:119 | The hour select can hold blank or exactly the hours 0 to 23. |
| Timepicker.MinuteSelectOffers | timepicker.js:125 | The minute select can hold blank or exactly the multiples of 5 up to 55. |
| Timepicker.InitialSelection | timepicker.js:119-125 | The pair of start values is the initial value of each rendered select. |
| Timepicker.InitialSelectionValid | timepicker.js:119-125 | The start values are always entries their select offers. |
| Timepicker.Init | timepicker.js:24-60 | The input is read-only per `disabled` and the panel is hidden. The selects start on their initial values, and `setHours` leaves the input showing them. |
| Timepicker.Step | timepicker.js:48-103 | A click never touches the selects or the input. After a click the panel is open exactly when the click was inside the container and either hit the input or found the panel already open. A select change sets that select, leaves the other select and the panel alone, and re-syncs the input. Validity and synchronisation are preserved. |
| Timepicker.Run | timepicker.js:48-56 | A sequence of events never changes the configuration. |
| Timepicker.RunKeepsSynced | timepicker.js:54-103 | Along any sequence of clicks and select changes, the input keeps showing exactly the selects' time, and each select keeps holding one of its own entries. |
| Timepicker.InputShape | timepicker.js:100 | In a reachable state the input is empty exactly when a select is blank. Otherwise it reads back as an hour from 0 to 23 and a minute that is a multiple of 5 up to 55. |
| Timepicker.DefaultInit | timepicker.js:15-22 | Without options the input is read-only, both selects are blank and the input is empty. |
| Timepicker.HourOnlySelectionPicksMinuteZero | timepicker.js:34 | `selected: {hour: h}` replaces the whole default `selected` object. The minute is then `undefined`, the parameter default `selected = 0` applies, and the input starts at `h` hours zero minutes. |
| Timepicker.ChangeMinuteKeepsHour | timepicker.js:96-103 | Picking a minute keeps the chosen hour, and the input then reads back as both. |

## Left out

- DOM plumbing is not modelled: `querySelector`, `closest(".timepicker")`, `insertAdjacentHTML`, `addEventListener` (lines 25, 33, 44-56) and `element()` (lines 105-107). The input and the container are given as node identities, and rendering yields values instead of markup.
- The missing-element path (lines 27-30) is left out. It only logs a warning and builds nothing, so the model starts from an input that exists.
- The HTML text of the panel and the options is not produced, including the closing `'<select>'` written at line 142 where `'</select>'` is meant. Options are records, and labels are derived from their values by `SelectOptions.Label`.
- The language strings (`lang`, lines 8-9, 21, 113-115) are left out. They only label the panel.
- The `el != this` guard at line 65 is left out. A DOM node is never the widget object, so the guard never stops the walk.
- SelectOptions.GenerateSelect: `min` and `max` are naturals and `step` must be positive. A step of 0 or less makes the loop at line 138 run forever, and both call sites pass `0` and a positive step.
- Timepicker.Merge: configured selections are integers or absent. A non-integer selection such as `"7"` or `7.5` is not modelled, because line 139 would compare it with `==` coercion. An absent key and a key present with the value `undefined` or `null` are both `None`, though the spread at line 34 keeps a present key. So `disabled: undefined` would make line 41 set `readOnly` to `undefined`, leaving the input writable, where the model keeps it read-only. And `selected: undefined` or `null` would make line 119 throw a TypeError, where the model uses the defaults `-1`.
- OutsideClick.Walk: the document is a parent map with a depth per node. The depth only serves to show that the walk ends; a real DOM is acyclic by construction.
- Timepicker.Step: two browser behaviours are taken as given. A select starts on its last option marked `selected`, or on its first option when none is marked. A click reaches the input's own listener before it bubbles to the document listener.
- Timepicker.Init: the container is assumed to exist. If `closest(".timepicker")` at line 33 returns `null`, line 44 throws after line 41 has already made the input read-only, so the page keeps a read-only input with no picker.
- Timepicker.Init: each `.timepicker` container is assumed to hold one widget. Lines 45, 89 and 93 take the first match in the container, and line 54 takes every `select` in it. With two widgets in one container, the second widget's `open`, `close`, `getHour` and `setHours` act on the first widget's panel and selects.
- Typing into the input, or other script writes to it, is not modelled. The input is read-only by default, and `setHours` overwrites it on every change.
- `getHour` and `getMinute` (lines 88-94) are not separate members. They return the selects' values, which the widget state holds directly.

## Behaviour worth knowing

These facts about timepicker.js shape the model:

- timepicker.js has no 12-hour AM/PM mode. It does not parse an existing input value back into the selects, and it has no `getFormattedTime` method. The hour select always spans 0 to 23, and the initial selection comes only from the `selected` option.
- The outside-click loop at lines 65-73 stops after the first `HTML` element, once it has checked that element against the container. It does not climb to the document node. `OutsideClick.WalkIff` states this.
- The defaults select nothing by setting both fields to `-1` (lines 17-20). The merge at line 34 is shallow. So a caller's `selected` object that lacks `minute` makes the minute select start on 0 (`Timepicker.HourOnlySelectionPicksMinuteZero`).
