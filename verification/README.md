# Lineage2 AFK key scheduler, modelled in Dafny

The program presses keys on a game client at intervals. It does this by
writing key names, one per line, to a serial-attached micro-controller. Each
of the twelve function keys `F1`–`F12` has an interval setting, `INTERVAL`:

- false (`0` or `None`): the key is disabled;
- a number of seconds: a fixed delay;
- a `(lo, hi)` tuple: a fresh `random.uniform(lo, hi)` delay every time the
  key is armed.

The repository ships two variants of the same scheduler:

- `afk_interfaz.py`, with a status window. It keeps one entry per key of
  `ALL_KEYS`, using `None` for a key that is not armed. It arms every key when
  the port opens, then polls, firing and re-arming each due key in `ALL_KEYS`
  order. The window shows each key's "Activa", "Intervalo" and
  "Cooldown (s)" cells, plus a Stop/Start button.
- `afk_blade_dark_wizard.py`, a console program. Its table holds only the
  keys whose first interval was positive, in `INTERVAL` order. It prints a
  `"F7 en 12s | F10 en 80s"` counter line at most once per second, and it
  fires and re-arms due keys without checking that the new interval is
  positive.

The model is split into modules:

- `Optional`: `Option` and a keep-the-present-values filter.
- `Text`: character search, newline framing, and `" | "` joining and splitting.
- `Numbers`: Python's `int()` on floats, and `str()` of ints and of short float
  literals, each with a parser.
- `Intervals`: the configuration, Python truthiness, `next_interval`,
  `format_interval`, and the shipped `INTERVAL` and `ALL_KEYS`.
- `Press`: `send_key`'s wire frame and log line.
- `Gui`: the status-window variant.
- `Console`: the console variant.

Time is the monotonic clock as a `real`. Randomness is not modelled. A call
that arms a key takes a `Draw(at, sample)`: `at` is the `now()` reading used
for the new due time, and `sample` is what `random.uniform` returned. The
sample is constrained to lie between the two bounds.

`next_interval` and `send_key` are textually identical in the two files:
afk_blade_dark_wizard.py:32-38 matches afk_interfaz.py:42-48, and
afk_blade_dark_wizard.py:40-49 matches afk_interfaz.py:76-85. Each is
modelled once.

Two points about the code that the model follows closely:

- A range delay is `random.uniform(lo, hi)` on the tuple as configured. That
  call may return either bound and accepts `lo > hi` and non-positive
  bounds, so the model admits any sample between the smaller and the larger
  bound, both included.
- The console variant re-arms at afk_blade_dark_wizard.py:86 with no check
  that the new interval is positive. See `Console.RearmAtOnce`.

## Model

| member | source | states |
|---|---|---|
| Intervals.NextInterval | afk_interfaz.py:42-48 | A false value gives 0.0; an enabled fixed value gives its float; a tuple gives a sample between its two bounds. |
| Intervals.DisarmedIffNeverPositive | afk_interfaz.py:42-48 | A value is false, non-positive, or a range with no positive bound exactly when no sample makes the delay positive. |
| Intervals.SteadyIffAlwaysPositive | afk_interfaz.py:42-48 | A positive fixed value, or a range whose lower bound is positive, exactly when every sample makes the delay positive. |
| Intervals.Find | afk_blade_dark_wizard.py:86 | `INTERVAL[key]` finds nothing exactly when no item has that key; otherwise the result is the value of an item with that key. |
| Intervals.FindAt | afk_interfaz.py:17-30 | In a dict with distinct keys, looking up an item's key returns that item's value. |
| Intervals.CfgOf | afk_interfaz.py:98 | `INTERVAL.get(key, 0)` reads a key missing from the dict as `0`, and a present key as the value stored under it. |
| Intervals.FindWellFormed | afk_interfaz.py:230 | In a dict of short-form literals every looked-up value, present or defaulted, is a short-form literal. |
| Intervals.FormatIntervalRoundTrip | afk_interfaz.py:200-205 | For short-form literals, the interval text reads back as the configured value: `-` for every false value, `v` + "s" for a fixed value, `lo` + en dash + `hi` + "s" for a range. |
| Intervals.FormatIntervalInjective | afk_interfaz.py:200-205 | Two enabled keys with short-form literals and the same interval text have the same configuration. |
| Intervals.EnabledText | afk_interfaz.py:189 | The "Activa" cell is "Sí" exactly for a true value and "No" exactly for a false one. |
| Intervals.AllKeysDistinct | afk_interfaz.py:35 | `ALL_KEYS` names each of F1..F12 once. |
| Intervals.ShippedValid | afk_interfaz.py:17-30 | The shipped `INTERVAL` lists exactly `ALL_KEYS`, in order, with distinct keys and well-formed literals. |
| Intervals.ShippedEnabled | afk_interfaz.py:17-30 | In the shipped table exactly F3, F4, F7, F10 and F12 are enabled, and each of them always draws a positive delay. |
| Intervals.ShippedIntervalTexts | afk_interfaz.py:20-29 | The shipped ranges and fixed values are shown as `0.8–2.0s`, `15–20s`, `120s` and `180s`. |
| Numbers.Trunc | afk_interfaz.py:236 | `int(x)` on a float is the integer next to `x` toward zero: within one below a non-negative `x`, within one above a negative `x`. |
| Numbers.TruncMonotonic | afk_interfaz.py:236 | `int()` on floats never decreases as its argument grows. |
| Numbers.NatTextRoundTrip | afk_interfaz.py:237 | `str(n)` of a non-negative int is a digit string that reads back as `n`. |
| Numbers.NumTextRoundTrip | afk_interfaz.py:204-205 | `str()` of a configured int or short float literal reads back as that literal. |
| Text.SplitJoin | afk_blade_dark_wizard.py:59 | Splitting a line joined with the bar separator gives back its entries when no entry contains a bar character. |
| Press.Send | afk_interfaz.py:76-85 | A press writes a frame that a line reader decodes to exactly the key (when the key has no newline), and logs "Acción " followed by the key exactly when the key is in `PRINT_KEYS`. |
| Press.LogAnnounces | afk_interfaz.py:80-81 | A batch of presses prints "Acción " followed by a key exactly when that key was pressed and is in `PRINT_KEYS`. |
| Press.WireDecodes | afk_interfaz.py:77 | The frames written for a sequence of presses, each key followed by one newline, decode line by line to exactly those keys in order. |
| Press.FrameDecodes | afk_blade_dark_wizard.py:41 | One frame decodes to its key. |
| Press.WireAppend | afk_interfaz.py:77 | The frames of two batches of presses concatenate. |
| Gui.Initial | afk_interfaz.py:53-69 | At start-up the state is running, not connected, with last action `-` and a `None` entry for every key of `ALL_KEYS`. |
| Gui.ShippedConfigValid | afk_interfaz.py:17-35 | The shipped `ALL_KEYS` and `INTERVAL` form a valid configuration whose key texts contain no newline and no bar character. |
| Gui.Arm | afk_interfaz.py:99-100 | An arming gives `None` exactly when the drawn interval is not positive, and otherwise a due time that lies that interval after, so strictly after, the arming instant. |
| Gui.ArmAllSpec | afk_interfaz.py:97-100 | The initialisation loop gives each key of `ALL_KEYS` the entry its own draw produces, adds no other key and leaves other entries alone. |
| Gui.Connect | afk_interfaz.py:93-100 | On connection the state is connected, each key of `ALL_KEYS` has one entry, `None` iff its interval is not positive, else the arming instant plus the interval. |
| Gui.MissingKeyNotArmed | afk_interfaz.py:98-100 | A key of `ALL_KEYS` missing from `INTERVAL` is never armed. |
| Gui.ConnectEstablishesInv | afk_interfaz.py:93-100 | After connecting, the schedule has exactly one entry per key of `ALL_KEYS`, and every key that can never draw a positive interval is `None`. |
| Gui.ConnectArmsSteady | afk_interfaz.py:97-100 | After connecting, every key whose every draw is positive has a due time. |
| Gui.DueKeys | afk_interfaz.py:107-114 | The keys fired in a tick are keys of `ALL_KEYS` whose entry is a time no later than the snapshot, and every such key is among them. |
| Gui.WalkFrame | afk_interfaz.py:107-128 | The firing loop neither adds nor removes schedule entries, and leaves every key that is not due, or not visited, unchanged. |
| Gui.WalkFired | afk_interfaz.py:107-116 | The firing loop presses exactly the due keys, in visiting order. |
| Gui.WalkLast | afk_interfaz.py:118-123 | The last key the firing loop presses becomes the last action; with no press the last action is kept. |
| Gui.WalkRearmed | afk_interfaz.py:125-128 | Every key the firing loop presses is re-armed from its own draw. |
| Gui.Tick | afk_interfaz.py:103-130 | One poll tick presses exactly the due keys in `ALL_KEYS` order, re-arms each of them, keeps every other entry and the schedule's domain, sets the last action to the last key pressed, and touches no other field. |
| Gui.TickWire | afk_interfaz.py:107-116 | The frames written during a tick decode to the due keys in `ALL_KEYS` order. |
| Gui.TickAnnounces | afk_interfaz.py:114-116 | A tick prints "Acción " followed by a key exactly when that key of `ALL_KEYS` is due and in `PRINT_KEYS`. |
| Gui.NothingOverdueAfterTick | afk_interfaz.py:114-128 | After a tick whose re-arms read the clock at or after the snapshot, no entry is at or before the snapshot. |
| Gui.TickKeepsInv | afk_interfaz.py:109-128 | A tick keeps one entry per key and `None` for keys that can never draw a positive interval; it never presses such a key. |
| Gui.DisarmedNeverFires | afk_interfaz.py:103-130 | Over any run of ticks from the connected state, a key that can never draw a positive interval is never pressed. |
| Gui.SteadyStaysArmed | afk_interfaz.py:103-130 | Over any run of ticks, a key whose every draw is positive keeps a due time. |
| Gui.Run | afk_interfaz.py:103-130 | The main loop never changes `running`, the connection or the schedule's domain; stopped beforehand it presses nothing; it presses only keys of `ALL_KEYS`. |
| Gui.Cooldown | afk_interfaz.py:232-237 | The cooldown cell is `-` exactly when the key is disabled or not armed; otherwise it is a number `n` with `n <= max(due - t, 0) < n + 1`. |
| Gui.CooldownCountsDown | afk_interfaz.py:236-237 | For a fixed due time, the cooldown shown at a later refresh is never larger. |
| Gui.RowsShowConfig | afk_interfaz.py:228-246 | Each status row carries its key, "Sí" iff the key is enabled, an interval text that reads back as the configuration, and `-` as cooldown iff the key is disabled or not armed. |
| Gui.ToggleRun | afk_interfaz.py:207-210 | The Stop/Start button negates `running` and changes nothing else. |
| Gui.ToggleTwice | afk_interfaz.py:207-215 | Pressing the button twice restores the state and the button text; once always changes the button text. |
| Gui.Close | afk_interfaz.py:250-253 | Closing the window clears `running` and changes nothing else. |
| Gui.SerialError | afk_interfaz.py:132-136 | A serial error marks the state disconnected and keeps `running`, the schedule and the last action. |
| Gui.UnexpectedError | afk_interfaz.py:138-142 | Any other error marks the state disconnected and not running, and keeps the schedule and the last action. |
| Console.Offer | afk_blade_dark_wizard.py:67-70 | An item of `INTERVAL` gives a timer exactly when its drawn interval is positive, for its own key, due that interval after, so strictly after, the arming instant. |
| Console.Init | afk_blade_dark_wizard.py:66-70 | The start-up table holds the timer of every item whose interval came out positive, and only such timers. |
| Console.InitAppends | afk_blade_dark_wizard.py:66-70 | Timers are inserted in `INTERVAL` order: a further item adds its timer, if any, at the end. |
| Console.InitKeys | afk_blade_dark_wizard.py:66-70 | The start-up table names each key at most once, and only keys present in `INTERVAL`. |
| Console.ShippedTable | afk_blade_dark_wizard.py:11-24 | With the shipped `INTERVAL`, only F3, F4, F7, F10 and F12 can enter the table. |
| Console.DueKeys | afk_blade_dark_wizard.py:83-84 | The keys pressed in a pass are exactly the keys of timers with `t >= due`. |
| Console.Fire | afk_blade_dark_wizard.py:83-86 | The firing loop keeps the table's length and keys in order, leaves timers that are not due unchanged, re-arms each due timer to its arming instant plus its new interval, and presses exactly the due keys. |
| Console.FireKeepsKeys | afk_blade_dark_wizard.py:83-86 | Firing never adds or removes a key, so every key still has an `INTERVAL` item. |
| Console.RearmStrictlyLater | afk_blade_dark_wizard.py:84-86 | A re-armed key whose every draw is positive is due strictly after its re-arm instant, and so strictly after the snapshot. |
| Console.RearmAtOnce | afk_blade_dark_wizard.py:86 | A `(0, 2)` range armed with sample 1 and re-armed with sample 0 is due again at the very instant it fired. |
| Console.ShownIff | afk_blade_dark_wizard.py:55-56 | A timer is listed exactly when it is due less than one second in the past or later. |
| Console.ShownSeconds | afk_blade_dark_wizard.py:55-57 | A listed timer that is already due shows 0 seconds; one not yet due shows its whole seconds left. |
| Console.Listed | afk_blade_dark_wizard.py:54-57 | The listed timers are exactly the table's timers with `int(due - current) >= 0`. |
| Console.ListedAppend | afk_blade_dark_wizard.py:54-57 | Timers are listed in table order: a further timer at the end of the table is listed, if at all, after all the others. |
| Console.Counters | afk_blade_dark_wizard.py:54-57 | There is one counter entry per listed timer, in order, made of its key, " en ", its truncated seconds and "s". |
| Console.CounterLine | afk_blade_dark_wizard.py:58-59 | Nothing is printed exactly when no timer is listed. |
| Console.CounterLineSplits | afk_blade_dark_wizard.py:51-59 | The printed counter line splits back on the bar separator into its entries. |
| Console.Step | afk_blade_dark_wizard.py:75-86 | A pass prints the counters of the table as it was before firing, and updates `last_counter_print`, exactly when at least one second has passed since the last print; it then fires. |
| Console.CountersSpaced | afk_blade_dark_wizard.py:78-80 | Over any run, `print_counters` runs at least one second apart, and `last_counter_print` ends at the instant of its last run. |
| Console.Run | afk_blade_dark_wizard.py:75-88 | Any run of passes keeps the table's keys in order, and `print_counters` runs at most once per pass. |
| Console.RunPrintsAtPolls | afk_blade_dark_wizard.py:76-80 | `print_counters` runs only at the `now()` reading of some pass. |
| Console.RunFiresTableKeys | afk_blade_dark_wizard.py:83-86 | Every key pressed during a run is a key of the start-up table. |
| Console.InitKeyArmed | afk_blade_dark_wizard.py:66-70 | A key of the start-up table belongs to an `INTERVAL` item whose first drawn interval was positive. |
| Console.StartFirstPrint | afk_blade_dark_wizard.py:72-80 | Starting from `last_counter_print = 0.0`, `print_counters` first runs no earlier than one second on the clock. |
| Console.StartFiresArmedKeys | afk_blade_dark_wizard.py:66-86 | From start-up, every key ever pressed belongs to an `INTERVAL` item whose first drawn interval was positive. |

## Left out

- Serial I/O is not modelled: opening, writing and closing the port, the two-second settle delay, and the retry loop around them. `Gui.SerialError` and `Gui.UnexpectedError` keep only their effect on the state.
- All sleeps are not modelled: the key-press jitter, the `EXTRA_BLOCK` pause after F10, and the 10 ms poll. Time is a parameter.
- The scheduler thread, the UI thread and `STATE.lock` are not modelled. The state is one value passed in and out, so ticks, refreshes and button presses never interleave inside a tick.
- Tk widgets, the `after` refresh timer and the window title are not modelled.
- Every `print` except the counter line and the "Acción" log line is not modelled.
- `last_pressed_mono` is not modelled, because it is never read.
- `last_pressed_wall`, from `datetime.now()`, is not modelled. A `Gui.Row` leaves out its "Última pulsación" column.
- `random.uniform`'s own arithmetic is not modelled. A sample is any real between the bounds.
- Floating-point rounding is not modelled; clock readings and delays are exact reals.
- `Intervals.NextInterval`: a sample is constrained to lie between the two bounds, both included, as `random.uniform` documents. Its actual distribution is not stated.
- `Intervals.FormatIntervalRoundTrip`: the interval text is modelled and read back only for literals in the short form of `Numbers.NumTextRoundTrip`, since Python's shortest float repr is not modelled.
- `Intervals.FormatIntervalInjective`: stated only for literals in that short form, for the same reason.
- `Gui.Rows`: the status table is defined only for an `INTERVAL` whose literals print in the short form below; scheduling itself accepts every literal.
- `Gui.RowsShowConfig`: states the round trip of the interval text only for that short form, for the same reason.
- `Numbers.NumTextRoundTrip`: `str()` is modelled only for ints and for floats written with one to four decimals and at most eleven integer digits. Python's shortest-repr and exponent forms for other floats are not modelled.
- `Console.RearmStrictlyLater`: requires that every draw of the key's configuration be positive. The console re-arm at afk_blade_dark_wizard.py:86 has no positivity check, so a range reaching down to zero or below can re-arm at or before the instant it fired, as `Console.RearmAtOnce` shows. The shipped configuration satisfies the requirement.
- The `KeyboardInterrupt` handler and the start-up banner of the console variant are not modelled (console output).
