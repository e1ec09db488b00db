# Live temperature dashboard: sampling step and bounded history

This project models the core of a Shiny dashboard that shows live
temperature readings for San Jose. Every three seconds the shared
calculation `reactive_calc_combined` is invalidated. The next time a reader
asks for it, it draws one reading, appends the reading to a deque of
maximum length 5, and returns the tuple `(deque, table, latest reading)`.
Four readers pull that one tuple: the temperature text, the time text, the
data grid and the trend chart. The calculation is memoised, so within one
timer period the readers all see the same tuple and at most one reading is
drawn.

Modules:

- `BoundedQueue` (`bounded_deque.dfy`): the contents of a deque with a
  maximum length after an append (`BoundedAppend`), the closed form "the
  last n items" (`TakeLast`), a stepwise replay of many appends (`Replay`)
  and the lemmas tying them together. It also holds the class
  `BoundedDeque`, whose `Append` updates its contents in place.
- `Telemetry` (`telemetry.dfy`): a reading (temperature in tenths of a
  degree Fahrenheit, plus the formatted timestamp), the table built from
  the history, and the returned tuple (`Snapshot`) with the invariant every
  returned tuple keeps (`Consistent`).
- `Display` (`display.dfy`): how the temperature is printed, with a parser
  as its inverse, and the four readers as functions of the tuple.
- `Dashboard` (`dashboard.dfy`): the class `ReactiveCalc`. It holds the
  deque, a tick counter standing for the timer's invalidations, and the
  memo `(tick last computed, cached tuple)`. `Tick` is the timer firing.
  `Get` is one call of `reactive_calc_combined()`. `RenderPass` is the four
  readers in turn, `ReadRepeatedly` is any number of reads in one period, `Period` is one timer period, and `RunSession` is many
  periods.

The nondeterministic inputs are parameters. The value drawn by
`random.uniform(65, 76)` and rounded to one decimal place is passed in as a
whole number of tenths in [650, 760]. The `datetime.now()` string is passed
in as an opaque string. Every `Get` takes the reading that the calculation
would draw if it ran; a `Get` served from the cache ignores it.

Where the sources disagree, the model follows the code:

- The comment at dashboard/app.py:30 speaks of 45 to 51 °C. The code draws
  from 65 to 76 and shows the unit " F", so the model uses 650..760 tenths
  of a degree Fahrenheit.
- One might expect a read before the first tick to return an empty history
  and no latest reading. In the code the shared calculation starts out
  invalidated, so the first read already draws and appends a reading. The model therefore has no empty tuple: the
  memo starts empty and the first `Get` computes.
- The tuple returned at dashboard/app.py:42-51 holds the live deque, not a
  copy. The model captures the deque's value right after the append.

## Model

| member | source | states |
|---|---|---|
| BoundedQueue.TakeLast | dashboard/app.py:21 | the retained window has length min(\|s\|, n) |
| BoundedQueue.BoundedAppend | dashboard/app.py:39 | appending to a non-full deque adds at the tail and evicts nothing; appending to a full one evicts exactly the head and keeps the rest in order; the length never exceeds the maximum; the new item is last |
| BoundedQueue.TakeLastAppend | dashboard/app.py:21 | trimming to the last n before more appends does not change the last n after them |
| BoundedQueue.BoundedAppendTakeLast | dashboard/app.py:39 | one append to a deque holding the last n items ever appended yields the last n items including the new one |
| BoundedQueue.ReplayKeepsLast | dashboard/app.py:21 | any sequence of appends, replayed one by one, leaves exactly the last n items of old contents plus appended items, oldest first |
| BoundedQueue.ReplayBounded | dashboard/app.py:20-21 | starting empty, after k appends the deque holds min(k, n) items, never more than n |
| BoundedQueue.SixIntoFive | dashboard/app.py:20-21 | with maximum length 5, appending A..F leaves [B, C, D, E, F] |
| BoundedQueue.BoundedDeque.constructor | dashboard/app.py:21 | a new deque is empty and has the given maximum length |
| BoundedQueue.BoundedDeque.Append | dashboard/app.py:39 | `append` changes the contents to the bounded append of the old contents and keeps the length bound |
| Telemetry.ToFrame | dashboard/app.py:45 | the table has one row per reading, in order, each column holding that reading's field; it is empty exactly when the history is |
| Telemetry.AllValidAppend | dashboard/app.py:31-39 | appending an in-range reading keeps every retained temperature in range |
| Telemetry.StepConsistent | dashboard/app.py:36-51 | the tuple a tick builds has a non-empty history of at most 5 readings ending in the new reading, its table, and only in-range temperatures; the table is never empty |
| Display.DecimalRoundTrip | dashboard/app.py:117 | the decimal numeral of a natural number reads back as that number |
| Display.FormatTenths | dashboard/app.py:31 | the printed one-decimal temperature reads back as the same number of tenths; every temperature in 65.0..76.0 prints as four characters |
| Display.DisplayTemp | dashboard/app.py:113-117 | the text ends in " F" and the part before it reads back as the latest temperature, which is the newest row of the table; for a returned tuple it is six characters |
| Display.DisplayTime | dashboard/app.py:128-132 | the text is the newest reading's timestamp, unchanged, which is the last row of the table |
| Display.DisplayTable | dashboard/app.py:143-148 | the grid has one row per retained reading, in order, between one and five rows |
| Display.DisplayPlot | dashboard/app.py:158-169 | a trace is drawn exactly when the table has rows; for a returned tuple it always is, with one point per reading in history order |
| Dashboard.ReactiveCalc.constructor | dashboard/app.py:20-21 | the session starts with an empty deque of maximum length 5 and nothing computed |
| Dashboard.ReactiveCalc.Tick | dashboard/app.py:28 | an invalidation advances the tick and makes the cache stale; it draws nothing and changes no history |
| Dashboard.ReactiveCalc.Get | dashboard/app.py:24-51 | a read in the tick of the cache returns the cached tuple and changes nothing; otherwise it appends the drawn reading once, returns a consistent tuple whose history is the deque after the append and whose latest is that reading, and caches it for this tick |
| Dashboard.ReactiveCalc.RenderPass | dashboard/app.py:113-161 | the four readers see one tuple, and at most one reading is drawn among them, exactly one when the cache was stale; the chart branch `not df.empty` is always taken |
| Dashboard.ReactiveCalc.ReadRepeatedly | dashboard/app.py:24-28 | any number of reads within one tick interval return the same tuple and produce at most one reading, only the first read's and only if the cache was stale |
| Dashboard.ReactiveCalc.Period | dashboard/app.py:24-51 | one timer period draws exactly one reading and appends it; the time text is its timestamp, the temperature text is its temperature followed by " F", the grid is the table of the deque after the append, and the chart trace is drawn |
| Dashboard.ReactiveCalc.RunSession | dashboard/app.py:20-39 | after k periods every reading is drawn exactly once; the deque equals the one-by-one replay of those appends, and holds the last five readings drawn, oldest first |
| Dashboard.SixTicks | dashboard/app.py:20-51 | a new session run for six periods with readings A..F holds [B, C, D, E, F], and a further read returns F as the latest reading and its timestamp as the time |

## Left out

- Page layout, sidebar, links, value boxes, cards, styling and icons (dashboard/app.py:53-111 and the header lines around the readers): presentation only.
- Building the Plotly figure (`px.line`, `add_scatter`, `update_layout`): a foreign charting library. `DisplayPlot` gives only the trace's points, with the timestamps left as strings. The module-level figure that accumulates a trace on every redraw is not modelled.
- pandas `DataFrame` and `render.DataGrid`, and `pd.set_option`: a foreign library. The table is modelled as its two columns.
- `random.uniform`, float `round` and `datetime.now().strftime`: nondeterministic, float-based and external. The reading is a parameter, and a precondition keeps its temperature in range.
- FormatTenths: models Python's printing of a float rounded to one decimal only for such values (integer part, point, tenths digit). Exponent notation is outside the temperature range and is not modelled.
- Shiny's timer and reactive graph (`reactive.invalidate_later`, `reactive.value`): framework machinery, modelled as the explicit `Tick` and `Get` pair. The three-second interval and wall-clock time are not modelled; a tick stands for one interval.
- The chart reader's in-place conversion: `display_plot` replaces the timestamp column of the cached table, which all four readers share, with datetime values (`pd.to_datetime`). A reader that runs after it in the same period would see those values. The model's readers are pure functions of the tuple and run in the order the source declares them (temperature, time, grid, chart), so the grid shows the timestamp strings.
- Concurrent render contexts: all reads are sequential calls.
- Aliasing of the returned deque: the tuple holds the deque's value right after the append, not a live reference that later appends would change.
- A failing data source, capacity and period validation, and stopping the timer: the code has none of these (the generator never fails, the capacity and period are constants, and there is no stop).
