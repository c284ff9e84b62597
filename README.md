# pp7_openrgb — a Dafny model of the keyboard colour bridge

pp7_openrgb lights a keyboard to match the presentation software that is running.
It polls the active presentation of a ProPresenter 7 instance over REST. When the
presentation changes, it works out one colour per keyboard LED from a key-binding
table: a key lights up when a binding for one of the presentation's slide groups
names it, by key label or by LED index. It then pushes that frame to the keyboard
through an OpenRGB server.

This project models three parts of that program in Dafny and proves properties about them:

- `pp7.dfy` (`Pp7`): the decoded REST data (`PP7Id`, `PP7Color`,
  `PresentationGroup`, `Presentation`, `PP7KeyBind`). It also holds the default applied
  to a null group colour while decoding and the two endpoint paths.
- `resolver.dfy` (`ColorResolver`): the colour resolution done inside the keyboard
  task. It covers label stripping, the active-group filter, the key-match filter,
  the first-group lookup whose `unwrap` is proved safe, the `as u8` casts, and the
  whole frame. Lemmas tie the frame to a reference description that has no filters.
- `sync.dfy` (`SyncLoop`): the settings defaults, the tick delay and the change
  detector. A pure `PollStep`/`Run` specification describes them. The class
  `PollLoop` holds `lastUuid` and implements them with `Tick` and `RunTicks`.
- `select.dfy` (`KeyboardSelect`): the scan for the first keyboard controller and
  the start of the poll loop on it.
- `wrappers.dfy` (`Wrappers`): `Option` and the fixed-width integer types `u8`,
  `u32` and `i64`.

Where the code behaves differently from what one might expect, the model follows the code:

- Channels are truncated by `as u8`, not rounded. A null group colour (0.5 gray)
  therefore becomes 127 in every channel, not 128 (`NullColorIsGray127`).
- `LedOn` and `LedDim` are `i64` values cast `as u8`, so only their low eight bits
  count.
- Every `"Key: "` in an LED name is removed, not only a leading one. The removal is
  a single left-to-right pass (`KeyLabelIsSinglePass`).
- A float cast `as u8` saturates. Channel conversion therefore needs no
  precondition, and the documented 0.0..1.0 range appears only as a hypothesis of
  ensures clauses and lemmas, never as a requires.

## Model

| member | source | states |
|---|---|---|
| `Pp7.ParseColorDef` | src/pp7.rs:61-73 | a present colour is kept unchanged; a null one becomes red = green = blue = 0.5 with alpha 1.0; the result stays in the documented 0..1 range whenever the input was |
| `Pp7.ParseGroup` | src/pp7.rs:52-59 | decoding a slide group keeps its name and slides and only defaults a null colour |
| `Pp7.EndpointPaths` | src/pp7.rs:96-112 | the active-presentation path is exactly `/v1/presentation/active` and the group-list path is exactly `/v1/groups` |
| `ColorResolver.Gray` | src/main.rs:164-167 | `Color::new(v, v, v)`: red, green and blue all equal the given byte |
| `ColorResolver.RemoveAll` | src/main.rs:134 | `replace(pat, "")`: the result is never longer than the input; it removes each leftmost match, skips past it and does not rescan, as pinned down by `RemoveAllChangesIffOccurs`, `RemoveAllSplits` and `KeyLabelIsSinglePass` |
| `ColorResolver.RemoveAllChangesIffOccurs` | src/main.rs:134 | removing a pattern shortens a string exactly when the pattern occurs in it, and leaves the string unchanged otherwise |
| `ColorResolver.RemoveAllSplits` | src/main.rs:134 | for a pattern whose first character does not recur in it, an occurrence anywhere in the string is removed and splits the removal into two independent halves |
| `ColorResolver.KeyLabel` | src/main.rs:131-134 | a key's label is its LED name with the prefix removed, so it is never longer than the LED name |
| `ColorResolver.KeyLabelRemovesEveryPrefix` | src/main.rs:134 | a label equals its LED name exactly when the name has no `"Key: "`; a `"Key: "` in the middle is removed as well as a leading one |
| `ColorResolver.KeyLabelIsSinglePass` | src/main.rs:134 | removal does not rescan: `"KeKey: y: A"` gives `"Key: A"` |
| `ColorResolver.GroupNames` | src/main.rs:122 | the snapshot's group names, one per group in snapshot order, each the name of the group at that index |
| `ColorResolver.ActiveBindings` | src/main.rs:121-128 | a binding is kept exactly when it is in the table and its group name is among the snapshot's group names |
| `ColorResolver.BindMatchesKey` | src/main.rs:141 | a binding names a key when its key equals the key's label, when its num equals the LED index, and in no other case |
| `ColorResolver.KeyMatches` | src/main.rs:139-142 | an active binding matches key (label, i) exactly when its key equals the label or its num equals the LED index |
| `ColorResolver.BindNames` | src/main.rs:147-150 | `match_names`: one group name per matched binding, in match order, each the `bind` of the binding at that index |
| `ColorResolver.FindGroup` | src/main.rs:153-156 | the lookup returns nothing exactly when no group's name is among the matched names; otherwise it returns the first group in snapshot order whose name is among them |
| `ColorResolver.FindGroupDependsOnMembership` | src/main.rs:147-156 | the group lookup depends on the matched names only as a set, not on their order or repetition |
| `ColorResolver.UnwrapNeverFails` | src/main.rs:122-156 | whenever a key has a matching active binding, the group lookup succeeds, so the `unwrap` cannot panic |
| `ColorResolver.AsU8` | src/main.rs:164-167 | `as u8` on an `i64` keeps the value modulo 256 and leaves values in 0..255 unchanged |
| `ColorResolver.FloatAsU8` | src/main.rs:158-162 | a float cast `as u8` gives the integer part on 0..256, 0 below 1, and saturates to 255 at 255 and above |
| `ColorResolver.ChannelToByteTruncates` | src/main.rs:158-162 | a channel in 0.0..1.0 becomes floor(channel * 255) with no rounding; 0.0 gives 0 and 1.0 gives 255 |
| `ColorResolver.NullColorIsGray127` | src/main.rs:157-162 | the default gray of a null group colour becomes (127, 127, 127) |
| `ColorResolver.ChannelToByte` | src/main.rs:159-161 | a channel in 0.0..1.0 lands on the byte whose value is at most channel * 255 and within 1 of it; a product below 1 gives 0 and a channel of 1.0 or more gives 255 |
| `ColorResolver.ToRgb` | src/main.rs:157-162 | for a colour in the documented range each of red, green and blue becomes floor(channel * 255); alpha is not used |
| `ColorResolver.KeyColor` | src/main.rs:136-169 | a key that no active binding names gets the dim gray; a named key gets the on gray with `LedColors` false, and otherwise the converted colour of the first group, in snapshot order, whose name is among its matched bindings' names |
| `ColorResolver.ResolveFrame` | src/main.rs:131-170 | the frame has exactly one colour per LED of the controller, in LED index order |
| `ColorResolver.KeyMatchesAreBound` | src/main.rs:122-150 | a key's matches are non-empty exactly when some binding whose group is in the snapshot names the key; a name is among the matched names exactly when such a binding carries it |
| `ColorResolver.UnboundKeyIsDim` | src/main.rs:144-168 | a key that no active binding names gets (LedDim, LedDim, LedDim) cast `as u8`, whatever `LedColors` is |
| `ColorResolver.BoundKeyIsOn` | src/main.rs:144-165 | a bound key with `LedColors` false gets (LedOn, LedOn, LedOn) cast `as u8` |
| `ColorResolver.BoundKeyTakesFirstGroupColor` | src/main.rs:144-162 | a bound key with `LedColors` true gets the converted colour of the first group in snapshot order that one of its bindings names |
| `ColorResolver.FrameIgnoresBindingOrder` | src/main.rs:122-170 | two binding tables with the same rows, in any order and with any repeats, give the same frame |
| `ColorResolver.SingleBindingScenario` | src/main.rs:121-170 | with the binding Verse/A/0, LEDs `Key: A` and `Key: B` and a red Verse group, the frame is [(255,0,0), dim] with colours on and [on, dim] with colours off |
| `SyncLoop.SettingsOrDefaults` | src/main.rs:88-91 | a setting the getter cannot supply (missing or not convertible) defaults to LedColors false, LedOn 255, LedDim 5 or UpdateFrequency 100; a supplied setting is used as given |
| `SyncLoop.DefaultLedLevels` | src/main.rs:88-90 | with default settings, unbound keys get 5 and bound keys 255, with group colours off |
| `SyncLoop.DelayMillis` | src/main.rs:91 | `1000 / UpdateFrequency` divides with truncation toward zero (the quotient bounds hold for both signs), and a zero frequency is a division-by-zero panic |
| `SyncLoop.SleepMillis` | src/main.rs:178 | the delay cast `as u64` keeps non-negative delays and wraps negative ones to 2^64 + delay |
| `SyncLoop.DelayExamples` | src/main.rs:91 | the default frequency 100 gives a 10 ms tick; frequencies above 1000 give 0 ms; a negative frequency of magnitude at most 1000 makes the sleep at least 2^64 - 1000 ms |
| `SyncLoop.PollStep` | src/main.rs:108-173 | one tick keeps the last uuid whenever it pushes nothing; when it pushes, the fetch succeeded with a different uuid, that uuid is stored, and the frame has one colour per LED |
| `SyncLoop.Run` | src/main.rs:108-179 | a run of ticks pushes at most one frame per tick, and a run that pushes nothing leaves the stored uuid unchanged |
| `SyncLoop.LastFetchedUuid` | src/main.rs:111-118 | the uuid of the last successful fetch: the fetched uuid of any successful fetch that no later fetch succeeded after, the starting uuid when every fetch failed, and never a uuid no fetch reported |
| `SyncLoop.PollStepDetectsChange` | src/main.rs:106-172 | a tick pushes exactly when the fetch succeeded with a uuid other than the last one; it then stores that uuid and pushes that presentation's frame, one colour per LED; in every other case the last uuid is unchanged |
| `SyncLoop.RunRemembersLastFetchedUuid` | src/main.rs:106-119 | after any sequence of ticks the stored uuid is the uuid of the last successful fetch, or unchanged if none succeeded; every pushed frame has one colour per LED |
| `SyncLoop.SameUuidPushesAtMostOnce` | src/main.rs:108-119 | while every successful fetch reports the same uuid, at most one frame is pushed, and none if that uuid was already stored |
| `SyncLoop.RepeatedSnapshotPushedOnce` | src/main.rs:108-172 | fetching the same new presentation on n > 0 ticks pushes exactly one frame, its resolution |
| `SyncLoop.PollLoop.constructor` | src/main.rs:105-106 | the loop starts with `lastUuid = ""`, nothing pushed, and the controller, LED names, table, settings and sleep duration it was given |
| `SyncLoop.PollLoop.Tick` | src/main.rs:108-173 | one tick updates `lastUuid` and returns the frame to push, exactly as `PollStep` prescribes; the frame is appended to the push history |
| `SyncLoop.PollLoop.RunTicks` | src/main.rs:108-179 | running ticks over a list of fetch outcomes leaves the state and returns the frames that `Run` prescribes |
| `KeyboardSelect.LedNames` | src/main.rs:131-133 | the LED names are taken from the controller's LEDs in index order |
| `KeyboardSelect.FindKeyboard` | src/main.rs:49-58 | the scan returns the first controller, in index order, whose type is Keyboard, and returns nothing exactly when there is no keyboard |
| `KeyboardSelect.StartKeyboardTask` | src/main.rs:49-91 | with no keyboard the program ends with success and no task runs; otherwise the task runs on the first keyboard only, and a zero `UpdateFrequency` panics in `1000 / UpdateFrequency` before polling starts; in every other case the poll loop starts on that keyboard with its LED names, no uuid seen, nothing pushed, and the sleep `1000 / UpdateFrequency` cast to `u64` |

## Left out

- Connecting to the OpenRGB server, `set_name`, the protocol version, controller enumeration and `update_leds`: these are network I/O. Controllers arrive as a sequence, and a push is the frame a tick returns.
- A failed `update_leds` ends the task with an error. That error path is I/O and is not modelled; `Tick` has already stored the new uuid when it returns the frame, as the program does.
- Fixed-interval connection retries and `time::sleep`: these are timing and async runtime behaviour. Only the sleep duration is modelled.
- The REST client and JSON decoding. The decoded structs are modelled directly; the raw group carries an `Option` colour, where `None` is a JSON `null`, before defaulting.
- A slide group without a `color` key: the field is required (it has a custom deserializer but no serde default), so the whole presentation fails to decode. That tick is skipped and reaches the loop as `FetchFailed`.
- The fetched global group list: the program only prints it.
- Reading the binding table from CSV and loading the configuration file. The table and the optional settings are parameters.
- Exact `f32` arithmetic: channels are `real`, and `c * 255.0` is exact. NaN channels cannot arise.
- The endless polling loop is modelled as `Tick` and as `RunTicks` over a finite list of fetch outcomes.
- Device types other than keyboard are reduced to a few variants; only the Keyboard test matters.
- `PP7KeyBind.num` is a `nat`, not a 64-bit `usize`, and LED indices are unbounded. The controller id is a `nat`, not a `u32`.
- The commented-out LED-test task and the `println!` logging.
