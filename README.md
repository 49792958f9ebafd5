# Greenlights in Dafny

Greenlights drives LIFX bulbs from sensor events in TerraMod. Each rule has:
- a time window (seconds since midnight),
- a colour name,
- a credit: how many runs of the decay script the light stays on for; 0 means off and -1 means "on for ever",
- a set of lights, a set of sensor callbacks and a set of profiles.

When a sensor fires, every rule that is joined to the active profile and to that sensor, and whose window holds the current time, is *resolved*. Resolving sets the rule's colour on its lights and writes its credit into them. Each run of a decay script decrements every positive credit and then turns off every light whose credit is now at most 0, including lights already at 0 and lights at -1.

This project models the core of that behaviour and proves properties of the model.

| file | module | models |
|---|---|---|
| `time_gate.dfy` | `TimeGate` | `is_time?`: the rule window test |
| `colors.dfy` | `Colors` | the colour `case` in `resolve`, including Ruby's `strip` |
| `credits.dfy` | `Credits` | the credit arithmetic of the decay tick |
| `store.dfy` | `Store` | the SQLite tables as a `Database` object updated in place; the bulbs as a command log (`LightPort`) |
| `query.dfy` | `Query` | query results whose row order SQL leaves open |
| `resolution.dfy` | `Resolution` | the per-light credit decision of `resolve` and the fold over a rule's lights, as functions on values |
| `rule_form.dfy` | `RuleForm` | the `add_rule` form checks and the junction rows it derives |
| `greenlights.dfy` | `Greenlights` | `callback`, `resolve` and `add_rule` as methods on the database and the command log |
| `credit_helper.dfy` | `CreditHelper` | the decay tick of `scripts/credit_helper.rb` |

The methods change state as the source does:
- `Greenlights.Resolve`, `Greenlights.Callback` and `CreditHelper.Tick` update `Database` fields and append to `LightPort.sent`.
- `Greenlights.AddRule` updates only `Database` fields; it sends no command.
- Each is proved against a function on values: `ResolveRule`, `RunRules`, `LightRows` and `Decayed`. The properties of the source are lemmas about those functions.

Device failures are inputs. `Faults` says which of `set_color`, `turn_on!` and the retried `set_color` raise for each light of a rule. The set `fails` names the labels whose `turn_off!` raises in the decay script.

A `raised` result means an exception left `resolve` or `callback`. Three things can cause it:
- a missing rule row or light row (`nil[0]`),
- a NULL light id,
- a retried `set_color` that raised.

Once raised, nothing further happens in that callback.

### Behaviour of the source worth knowing

- **Window test.** `is_time?` moves only `start` back one day when `start > finish` (app.rb:188-190). So an overnight window is armed only after midnight, up to `finish`. The part from `start` to midnight is never armed. `TimeGate.IsTimeVersusInWindow` compares it with the symmetric overnight test (`now >= start || now <= finish`) and proves exactly where the two differ.
- **Failed colour retry.** `resolve` retries `set_color` once. If the retry raises, the exception escapes after the `ensure` has written the credit (app.rb:158-165). It is not logged and swallowed.
- **Which lights the decay script turns off.** The script turns off every light whose credit is `<= 0` after the decrement, on every tick (scripts/credit_helper.rb:12). That includes lights that were already at 0 before the run and lights at -1, so every run sends them `turn_off!` again.
- **Failed turn-off in the decay script.** A `turn_off!` that raises is not rescued there: only `SQLite3::Exception` is. So it ends the script.

## Model

| member | source | states |
|---|---|---|
| `TimeGate.NonWrappingWindow` | app.rb:188-191 | with `start <= finish`, a rule is armed exactly when `start <= now <= finish`, both ends inclusive |
| `TimeGate.WrappingWindow` | app.rb:188-191 | with `start > finish` and `now`, `start` times of day, a rule is armed exactly when `now <= finish` |
| `TimeGate.IsTimeVersusInWindow` | app.rb:188-191 | `is_time?` implies the symmetric overnight test, and the two differ exactly for a wrapping window at `now >= start` |
| `TimeGate.OvernightWindowExample` | app.rb:178-192 | the 23:00-06:00 window is armed at midnight, not at noon, and not at 23:00, which the symmetric test arms |
| `Credits.DecayStep` | scripts/credit_helper.rb:11 | one tick never raises a credit, lowers a positive credit by exactly 1 and keeps a non-positive one |
| `Credits.TicksFromPositive` | scripts/credit_helper.rb:11 | a credit `n > 0` after `k` ticks is `n - k` while `k < n`, then 0 for ever |
| `Credits.TicksFixNonPositive` | scripts/credit_helper.rb:11 | 0, -1 and every other non-positive credit are fixed points of any number of ticks |
| `Credits.TicksNeverIncrease` | scripts/credit_helper.rb:11 | credits never increase from one tick to the next |
| `Colors.TrimStartSpec` | app.rb:131 | the result is the suffix of the text left once its leading whitespace is dropped |
| `Colors.TrimEndSpec` | app.rb:131 | the result is the prefix of the text left once its trailing whitespace is dropped |
| `Colors.StripSpec` | app.rb:131 | `strip` leaves no whitespace at either end and never lengthens the text |
| `Colors.TrimStartPadded` | app.rb:131 | dropping leading whitespace from whitespace + word gives the word |
| `Colors.TrimEndPadded` | app.rb:131 | dropping trailing whitespace from word + whitespace gives the word |
| `Colors.StripPadded` | app.rb:131 | `strip` of whitespace + word + whitespace is the word |
| `Colors.ColorNamedHue` | app.rb:131-148 | each of the six hue names selects its hue, and no other name selects that hue |
| `Colors.ColorOfSpec` | app.rb:131-148 | the colour is hue `h` at saturation 0.4 exactly when the stripped text is `h`'s name, and white exactly when it is no hue name |
| `Colors.ColorOfPaddedName` | app.rb:131-148 | a hue name with surrounding whitespace selects that hue at saturation 0.4 |
| `Colors.ColorOfUnknownName` | app.rb:131-148 | a stripped text that is no hue name gives plain white |
| `Colors.ColorOfOtherTexts` | app.rb:142-147 | "White", "", "red" and "PURPLE" all give plain white: the match is exact and case-sensitive |
| `Store.Database.constructor` | app.rb:8-48 | freshly installed tables are empty and the active-profile row holds NULL |
| `Query.ListRows` | app.rb:67-69 | a result set is listed with each row exactly once |
| `Resolution.LightIdsOfSpec` | app.rb:126 | the light ids of a rule are exactly the `light_id`s of its junction rows, NULL included |
| `Resolution.LightStepTarget` | app.rb:157-172 | resolving a light writes `Target(c, s)` into it (`c` if `c >= s`, `c == -1` or `c == 0`, else `s`) and leaves every other light as it was |
| `Resolution.TurnOnBranch` | app.rb:157-165 | when `c >= s` or `c == -1`, the light gets `set_color`, then `turn_on!` unless `set_color` raised, and one `set_color` retry if either raised; its credit becomes `c` whatever the device did; the exception escapes exactly when the retry raised |
| `Resolution.SmallerCreditKeepsBank` | app.rb:157-172 | a rule credit below the stored one, other than -1 and 0, changes nothing and sends nothing |
| `Resolution.OffBranch` | app.rb:166-171 | credit 0 against a positive stored credit writes 0 and sends one `turn_off!`, whose failure is swallowed |
| `Resolution.ZeroOnDarkLightTurnsOn` | app.rb:157-165 | credit 0 against a stored credit `<= 0` takes the turn-on branch: `set_color` is sent and 0 is written |
| `Resolution.MissingLightRaises` | app.rb:151-153 | a NULL or dangling light id raises before any command or write |
| `Resolution.RaisedSticks` | app.rb:150-173 | after an exception escaped, later lights are not processed |
| `Resolution.TargetIdempotent` | app.rb:157-172 | writing the same rule credit twice leaves the credit of writing it once |
| `Resolution.ResolveLightsRows` | app.rb:150-173 | resolving keeps the light ids and every light's label |
| `Resolution.ResolveLightsUntouched` | app.rb:150-173 | a light not joined to the rule keeps its row |
| `Resolution.ResolveLightsBounded` | app.rb:150-173 | every light ends with its old credit or `Target` of it, whatever the device did |
| `Resolution.ResolveLightsExact` | app.rb:150-173 | without an exception, every joined light ends with `Target` of its old credit |
| `Resolution.ResolveLightsFindsEveryLight` | app.rb:150-153 | without an exception, every joined id was non-NULL and named an existing light |
| `Resolution.PositiveCreditNeverLowers` | app.rb:157-172 | a rule with positive credit never lowers any light's credit |
| `Resolution.ResolveTwiceSameLights` | app.rb:150-173 | resolving the same rule again, with no exception in either pass, leaves the credits unchanged |
| `Resolution.UpdateAsWrittenOneLight` | app.rb:164 | for a rule with one light, the UPDATE as bound is the keyed write of that light |
| `Resolution.UpdateAsWrittenTwoLights` | app.rb:164 | for a rule with two lights, the UPDATE as bound fails, where the keyed write stores the rule credit |
| `RuleForm.ValidateReportsFirstBlank` | app.rb:80-93 | the message of check `k` is returned exactly when field `k` is the first empty one, in the order name, sensor, start, end, credits, color, lights |
| `RuleForm.ValidateAccepts` | app.rb:80-93 | a form passes exactly when none of the seven fields is empty |
| `RuleForm.CallbackRows` | app.rb:97-99 | one callback row per sensor |
| `RuleForm.LightRows` | app.rb:100-103 | at most one light row per label, each for the new rule |
| `RuleForm.LightRowsStick` | app.rb:100-106 | after a failing insert, no further light rows are added |
| `RuleForm.LightRowsSpec` | app.rb:100-103 | every row names a light carrying its label, and is NULL exactly when no light does; every label before the failure is carried by at most one light; the inserts fail exactly when some label is carried by several lights, just before the first such label; otherwise there is one row per label |
| `Greenlights.CandidatesSpec` | app.rb:65-68 | a rule is a candidate exactly when the active profile is set, a profile row joins the rule to it, and a callback row joins the rule to the firing uuid |
| `Greenlights.NoActiveProfileNoCandidates` | app.rb:65-68 | with the active profile NULL, as installed at app.rb:48, no rule is a candidate |
| `Greenlights.OtherProfileNeverCandidate` | app.rb:67-68 | a rule joined only to profiles other than the active one is never a candidate |
| `Greenlights.NewRuleCandidacy` | app.rb:97-104 | a newly added rule is a candidate exactly when profile -1 is active and the firing uuid is one of its sensors |
| `Greenlights.ArmedAmongSpec` | app.rb:69-73 | the fired rules are exactly the visited rules that are armed, each once |
| `Greenlights.ResolveLight` | app.rb:151-172 | one iteration updates the lights and the command log as `LightStep` says |
| `Greenlights.Resolve` | app.rb:121-174 | the lights, the command log and the exception end as `ResolveRule` says for the rule's junction rows and colour |
| `Greenlights.VisitNext` | app.rb:69-72 | visiting one more row extends the run over the visited rows by exactly that rule's step, and reports whether it was armed |
| `Greenlights.VisitRule` | app.rb:69-72 | the rule is armed exactly when its row exists and `is_time?` holds, and the state changes as `RuleStep` says |
| `Greenlights.RunRows` | app.rb:69-73 | the rows are visited in order, all of them when nothing raised; when something raised, the last visited rule raised and none before it did; the fired rules are the armed ones among the visited |
| `Greenlights.Callback` | app.rb:64-74 | only candidates are visited, each once, and all of them when nothing raised; when something raised, the visiting stops at the rule that raised it; exactly the visited armed ones fire; the lights and the log end as `RunRules` says |
| `Greenlights.InsertCallbacks` | app.rb:97-99 | the callback junction gains one row per sensor, in order |
| `Greenlights.InsertLights` | app.rb:100-103 | the light junction gains the rows of `LightRows`, and the failure is reported as `LightRows` says |
| `Greenlights.AddRule` | app.rb:76-110 | a form with an empty field is rejected with that check's message and changes nothing; otherwise the rule is stored under a fresh id, then its callback rows, then its light rows, then the profile -1 row unless a light insert failed; the table invariant is kept |
| `CreditHelper.Tick` | scripts/credit_helper.rb:11-18 | the table ends decayed; every light commanded off has credit `<= 0` after the decrement; each is commanded once; all are commanded unless a `turn_off!` raised, which ends the run |
| `CreditHelper.DecayedSpec` | scripts/credit_helper.rb:11 | a tick lowers every positive credit by exactly 1 and keeps every other credit, every id and every label |
| `CreditHelper.OffAfterTick` | scripts/credit_helper.rb:11-12 | after a tick, the lights selected for `turn_off!` are exactly those whose credit was at most 1 before it, and none of them holds a positive credit |
| `CreditHelper.DecayedTimesCredits` | scripts/credit_helper.rb:11 | after `k` ticks every light keeps its label and holds `Ticks` of its credit |
| `CreditHelper.SelectedFromTickN` | scripts/credit_helper.rb:11-12 | a light with credit `n > 0` is selected for `turn_off!` from tick `n` on, and not before |
| `CreditHelper.ForeverLightSwitchedOff` | scripts/credit_helper.rb:12 | a light at -1 ("on for ever") is selected for `turn_off!` by every tick |
| `CreditHelper.IntendedOffAfterTick` | scripts/credit_helper.rb:12 | with the selection `credits=0`, a tick turns off exactly the lights at 1 or 0 before it, and never a -1 light |

The lemmas `Resolution.ResolveLightsNext`, `RuleForm.LightRowsNext`, `Greenlights.ArmedAmongNext` and `Greenlights.RunRulesNext` unfold their functions by one step for the loop proofs and are helpers, not rows of the table.

## Findings

| source | as written | input that shows it | evidently intended | confidence | as-written member | corrected member |
|---|---|---|---|---|---|---|
| app.rb:164 | `UPDATE lights SET credits=? WHERE id=?` is bound to `[credits, light_ids]`, the whole list of the rule's light ids (also at app.rb:167) | a rule joined to two lights: the flattened parameters `[c, a, b]` are one more than the two placeholders, so the statement raises instead of storing `c` | bind the id of the light being processed: `[credits, id]` | medium: depends on the sqlite3 driver flattening the bound arrays; not executed | `Resolution.UpdateAsWrittenTwoLights` | `Resolution.LightStepTarget` |
| scripts/credit_helper.rb:12 | the lights to turn off are selected with `credits<=0` | a light at -1, set by a rule with credit -1 to stay on for ever, is sent `turn_off!` at the next tick | select `credits=0`, so -1 lights stay on; lights already at 0 keep being sent `turn_off!`, as they are now, which leaves them dark, so -1 lights are the only ones whose behaviour changes | high: -1 is written precisely to keep a light on; not executed | `CreditHelper.ForeverLightSwitchedOff` | `CreditHelper.IntendedOffAfterTick` |

How each finding is handled in the model:
- **Credit UPDATE.** The model writes the credit of the light being processed (`LightStep`). `Resolution.UpdateAsWritten` is the statement as bound.
- **Decay selection.** `CreditHelper.Tick` keeps the script's selection as written, because it is the script's observable behaviour. `CreditHelper.IntendedOffIds` is the corrected selection. It changes the script as little as possible: only the -1 lights are treated differently. Selecting only the lights that reached 0 in this run would also stop the repeated `turn_off!` to dark lights, but that is a change of design, not a fix of this bug.

## Left out

**Devices, clock and logging**
- LIFX discovery and device I/O (`LIFX::Client.lan`, `discover!`, `with_label`, `set_color`, `turn_on!`, `turn_off!`): reduced to a command log addressed by label. Which calls raise is an input.
- Colour values:
  - Saturation 0.4 is the symbolic tag `Sat04`, because it is a floating-point device parameter.
  - The `duration: 5` of `set_color` is not modelled.
- The wall clock: `is_time?` reads `Time.now` once per rule; the model takes one `now` for a whole callback. Rules visited across a second boundary could see different times in the source.
- Logging and the script's error handling: `puts`, `p light_ids`, the credit script's `chdir` and log file, and `database.close` are not modelled.
- The stray `SQLite3::Database.open` of a fixed path in `add_rule` (app.rb:78-79, 105) is not modelled. A failure to open that file is not modelled either.

**Storage and other operations**
- Schema creation and teardown, `add_callbacks`, the HTTP routes, `get_rules` and its JSON output are storage plumbing and presentation.
- The profile and light one-liners (`add_profile`, `remove_profile`, `add_light`, `remove_light`, `set_active_profile`, `remove_rule`) are not modelled. `update_profile` refers to an undefined `not_rules`, so it has no defined behaviour to model.
- SQLite specifics:
  - `last_insert_rowid` is modelled by the counter `nextRuleId`.
  - Foreign-key cascades are not modelled.
  - `SELECT light_id` is taken to return junction rows in insertion order.
  - Rows of the INTERSECT query and of the script's SELECT come in an order the model leaves open.
- NULL column values in rule or light rows, such as a NULL credit compared with `>=`, are not modelled. Only NULL light ids in the junction are.
- SQLite errors other than the surplus bind parameter (disk, locking, constraint) are not modelled.

**Form input**
- A missing parameter (`nil`) is not modelled, and neither is a sensor or lights field that is a string rather than a list: the model takes each field as `''` or a value. `nil == ''` is false in the source, so such forms pass the checks. A `nil` or string `sensor` or `lights` field then raises at `callbacks.each` or `lights.each` (app.rb:97, 100), after the rule row is stored; that exception is not an `SQLite3::Exception`, so the rescue at app.rb:106 does not catch it. A `nil` name, start, end, credits or colour raises nothing in `add_rule`: it is stored as NULL along with the callback, light and -1 profile rows. A NULL start, end, credits or colour raises only later, when a callback reaches the rule (`is_time?` at app.rb:188, `resolve` at app.rb:131 and 157); a NULL name never raises in the core.
- Start, end and credits are integers: non-numeric text stored in an INTEGER column is not modelled.

**Text and concurrency**
- Ruby's `strip` is modelled as removing NUL, tab, LF, VT, FF, CR and space at both ends. Ruby versions differ on a leading NUL.
- Concurrency and locking are not modelled: the source runs the callback and the decay script as independent single-threaded programs with no locking.
