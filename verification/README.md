# Habit rule engine

A Dafny model of the rule engine of the Habits_control habit tracker: the
write-time rules a habit record must pass, the check that decides whether a
habit is due today, and the periodic scan that turns due habits into
Telegram reminders. Deleting an award or a habit, which nulls the references
to it, is modelled too.

Everything is a pure function over immutable records:

- `optional.dfy` — `Option` (Python's `None`) and `Result` (a raised validation error).
- `models.dfy` — `User`, `Award`, `Habit`, and stores as maps from primary key to record. Instants are whole UTC seconds.
- `validators.dfy` — the five rules of `habits/validators.py` over `HabitData`, the data a write submits.
- `habit_serializer.dfy` — how the habit serializer composes the rules. First come the field rules: the award key, the related-habit key and its rule, frequency and time to complete. Then come the unique-together rule and the two record rules. It also defines `Admissible`, the data invariants stated directly, and reports `telegram_id`.
- `habit_store.dfy` — stores in which every habit passes the rules, and what writing into them preserves.
- `deletion.dfy` — `on_delete=SET_NULL` for `award` and `related_habit`.
- `schedule.dfy` — `should_execute_today` with `now` as a parameter.
- `decimal.dfy` — `str(int)`, used for the time to complete in the reminder.
- `reminder.dfy` — the reminder text, built as lines joined by newlines, and splitting it back into its lines.
- `tasks.dfy` — the scan: the window query, the due check with its own clock reading, the message and its recipient.

Python's `timedelta.days` and `%` round toward minus infinity. Dafny's `/`
and `%` agree with them for a positive divisor. So `DaysPassed` is
`(now - anchor) / 86400`, the date of an instant is `t / 86400`, and the due
check requires `frequency > 0`.

Some consequences of the code are easy to miss:

- Frequency and time to complete have no lower bound in the rules. Zero and negative values pass. Stored values are non-negative database integers, so zero can be stored, and the scan's query is what excludes frequency 0.
- A scan makes no attempt to isolate a failing send. Nothing catches an exception from the gateway call, so the first raising send ends the scan (`Tasks.Attempted`).
- A daily habit anchored half an hour ahead and checked before its anchor is messaged only when the check's clock reading falls on the anchor's UTC date. Across midnight it is not messaged (`Tasks.HalfHourAheadWithReward`).
- The scan returns no count. `Tasks.RunScan` returns one alongside the messages.

The scan reads the clock more than once. The query uses one reading
(habits/tasks.py:25). Each candidate's due check reads the clock again when
its turn in the loop comes (habits/models.py:50). Earlier sends can delay
that second reading, so the model gives the scan one due-check reading per
candidate.

The window and the day arithmetic together mean something more. A habit is
only ever messaged by scans whose query runs in the two hours up to its
anchor instant. If the due check reads the clock before the anchor, only a
daily habit passes, and only on the anchor's date. If both readings are the
same instant, a longer cycle passes only exactly at the anchor
(`Tasks.SelectedOnlyNearAnchor`). Once a delayed due check reads the clock
after the anchor, every frequency passes within the first day
(`Tasks.SelectedCandidates`, `Tasks.SecondClockReading`). After the anchor
has passed, the query no longer returns the habit, whatever its frequency.

Assumption about the unique-together rule on `(award, is_pleasant)`: its
library implementation is not part of this model. It is modelled as
skipping when the award is null, and as not comparing the habit being
updated with itself. On a create, an omitted `is_pleasant` takes the model
default, false. The pair is checked on every write, including an update that
changes neither field. In a store where every habit passes the rules, such
an update never clashes anyway.

A write may omit `award`, `is_pleasant`, `related_habit` and `is_public`,
even on a full update, because the serializer requires none of them. On a
create, the rules read an omitted reference as null and an omitted flag as
false. On an update, the unique-together rule runs first and fills an
omitted `award` or `is_pleasant` from the stored habit into the data that
the two record rules read next. An omitted `related_habit` is not filled,
so the rules read it as null. The save keeps the stored value of each field
an update omits (`HabitStore.Write`, `HabitStore.RulesSeeSavedExceptRelatedHabit`).

## Model

| member | source | states |
|---|---|---|
| Validators.TimeToCompleteValidator | habits/validators.py:4-16 | rejects exactly when the value exceeds 120; 120 passes |
| Validators.RelatedHabitValidator | habits/validators.py:19-31 | no reference passes; a reference passes exactly when the target habit is pleasant |
| Validators.FrequencyValidator | habits/validators.py:34-46 | rejects exactly when the value exceeds 7; 7 passes |
| Validators.ExcludeAwardAndRelatedHabitValidator | habits/validators.py:49-64 | rejects exactly when both an award and a related habit are present |
| Validators.IsPleasantOrDefault | habits/validators.py:77 | an omitted pleasant flag reads as false |
| Validators.NotAwardOrRelatedHabitValidator | habits/validators.py:67-82 | rejects exactly when the habit is pleasant and has an award or a related habit; an omitted flag never rejects |
| Validators.NumericRulesHaveNoLowerBound | habits/validators.py:14-46 | zero and negative values pass both numeric rules |
| Validators.NumericRuleBoundaries | habits/validators.py:14-46 | 120 and 7 pass, 121 and 8 fail |
| Validators.EitherReferenceAlonePasses | habits/validators.py:59-64 | an award alone or a related habit alone passes the exclusion rule |
| Validators.OmittedPleasantFlagNeverRejects | habits/validators.py:77-82 | a write without a pleasant flag never fails the pleasant-habit rule |
| HabitSerializer.UniqueTogetherValidator | habits/serializers/habit.py:59-63 | never rejects a write without an award |
| HabitSerializer.Validate | habits/serializers/habit.py:36-66 | accepts exactly when every data invariant holds; accepted data is returned unchanged; an accepted record never has both references, and a pleasant one has neither; a rejection carries at least one error |
| HabitSerializer.ValidateReportsViolatedRules | habits/serializers/habit.py:36-66 | a rejected write reports exactly its violated field rules, or, when none, exactly its violated record rules |
| HabitSerializer.DuplicatePairRejected | habits/serializers/habit.py:59-63 | a write whose award and pleasant flag another stored habit holds is rejected |
| HabitSerializer.NoRelatedHabitNeverHurts | habits/serializers/habit.py:39-44 | dropping the related habit from an accepted write keeps it accepted |
| HabitSerializer.FrequencyUpToSevenJudgedAlike | habits/serializers/habit.py:37 | any two frequencies up to 7, zero included, get the same verdict |
| HabitSerializer.GetTelegramId | habits/serializers/habit.py:49-50 | the owner's Telegram id when the owner resolves, and null otherwise |
| HabitStore.RelatedChainsHaveLengthOne | habits/serializers/habit.py:39-65 | in a store where every habit passes the rules, a related habit is pleasant and has neither an award nor a related habit |
| HabitStore.AwardsBackAtMostOneHabit | habits/serializers/habit.py:59-65 | in such a store no two habits share an award |
| HabitStore.Write | habits/serializers/habit.py:36-66 | a write succeeds exactly when the data the rules read is admissible; it then changes only the written habit, which a create stores as submitted and an update stores with each omitted field left as it was |
| HabitStore.RulesSeeSavedExceptRelatedHabit | habits/serializers/habit.py:39-63 | on an update the rules read the saved habit's award, flag, frequency and duration, and its related habit unless that was omitted, when they read null |
| HabitStore.ResaveIsIdentity | habits/serializers/habit.py:36-66 | in a store where every habit passes the rules, saving a stored habit again unchanged is accepted and changes nothing |
| HabitStore.CheckedWrite | habits/validators.py:19-31 | the write with the missing checks: it succeeds exactly when the plain write does, the habit as saved passes the rules, and no reference would point at a habit that is not pleasant |
| HabitStore.CheckedWritePreservesStore | habits/validators.py:19-31 | the checked write keeps every stored habit passing the rules |
| HabitStore.UnpleasantUpdateStrandsReference | habits/validators.py:29-31 | as written, clearing the flag on a referenced pleasant habit, while giving it a fresh award, is accepted and leaves a store that breaks the rules |
| HabitStore.CheckedWriteRefusesUnpleasantUpdate | habits/validators.py:29-31 | the checked write refuses that update |
| HabitStore.OmittedRelatedHabitKeepsReference | habits/serializers/habit.py:39-44 | as written, a full update that adds an award and omits the related habit is accepted and stores a habit with both, which breaks the rules |
| HabitStore.CheckedWriteRefusesOmittedRelatedHabit | habits/validators.py:59-64 | the checked write refuses that update as an award with a related habit |
| HabitStore.OmittedAwardStillExcludesRelatedHabit | habits/validators.py:49-64 | an update that adds a related habit and omits the stored award is refused by the exclusion rule |
| HabitStore.OmittedFlagStillPleasant | habits/validators.py:67-82 | an update that gives a pleasant habit an award and omits its flag is refused by the pleasant-habit rule |
| Deletion.DeleteAward | habits/models.py:34 | the award is gone, no habit holds it any more, and nothing else about any habit changes |
| Deletion.DeleteHabit | habits/models.py:39-40 | the habit is gone, no habit references it any more, and nothing else about the others changes |
| Deletion.DeleteAwardPreservesStore | habits/models.py:34 | deleting an award keeps every habit passing the rules |
| Deletion.DeleteHabitPreservesStore | habits/models.py:39-40 | deleting a habit keeps every habit passing the rules |
| Schedule.DaysPassed | habits/models.py:51 | the whole days between anchor and now, rounded down |
| Schedule.DateOf | habits/models.py:52 | the UTC day that contains the instant |
| Schedule.ShouldExecuteToday | habits/models.py:45-52 | never due before the anchor's date; a daily habit is due exactly from the anchor's date on |
| Schedule.DueOnCycleStartDay | habits/models.py:51-52 | an instant in the first day of any cycle of `frequency` days from the anchor, on or after the anchor's date, is due |
| Schedule.DueOnlyOnCycleStartDay | habits/models.py:51-52 | a due instant lies in the first day of a cycle and on or after the anchor's date |
| Schedule.DueIsPeriodic | habits/models.py:51-52 | from the anchor's date on, moving now by `frequency` days keeps the answer |
| Schedule.DueWithinNextDay | habits/models.py:51-52 | with the anchor up to a day after now, the habit is due exactly when it is daily and the dates agree |
| Schedule.DueAtAnchor | habits/models.py:51-52 | at the anchor instant every positive frequency is due |
| Schedule.DueOnFirstDayAfterAnchor | habits/models.py:51-52 | within a day after the anchor instant every positive frequency is due |
| Schedule.TenDaysAfterAnchor | habits/models.py:51-52 | ten days after the anchor a five-day habit is due and a three-day habit is not |
| Decimal.NatToDecimal | habits/tasks.py:40 | digits only, at least one, no leading zero |
| Decimal.IntToDecimal | habits/tasks.py:40 | digits, with a leading minus sign exactly for negatives |
| Decimal.IntDecimalRoundTrip | habits/tasks.py:40 | the integer is read back from its text |
| Tasks.Candidates | habits/tasks.py:27-31 | exactly the snapshot's habits anchored within two hours from now with a positive frequency |
| Tasks.DueAmong | habits/tasks.py:33-34 | keeps at most the candidates, and only candidates |
| Tasks.DueAmongMembers | habits/tasks.py:33-34 | a candidate is kept exactly when the due check at its own clock reading passes |
| Reminder.ReminderText | habits/tasks.py:35-43 | starts with the header and action; ends in " sec." exactly when there is no reward, and otherwise in the reward line |
| Reminder.ReminderLines | habits/tasks.py:35-43 | split at its newlines, the text is exactly the header, action, time, place and duration lines, then the reward line exactly when there is a reward |
| Reminder.ReminderDurationReadBack | habits/tasks.py:40 | the time to complete is read back as an integer from its line |
| Reminder.LinesOfJoin | habits/tasks.py:35-43 | lines without newlines, joined by newlines, split back into the same lines |
| Tasks.NotificationFor | habits/tasks.py:35-45 | addressed to the owner's Telegram id, the same one the serializer reports; its text is the reminder for the habit's own action, anchor, place, duration and award |
| Tasks.NotificationLines | habits/tasks.py:35-45 | split at its newlines, a habit's message names its action, anchor, place and duration, and its award's reward exactly when it has an award |
| Tasks.NotificationsFor | habits/tasks.py:33-45 | one message per due habit, in order |
| Tasks.RunScan | habits/tasks.py:25-45 | the loop, with a due-check clock reading per candidate, sends exactly the messages of the functional scan, and counts them |
| Tasks.ScanDistributes | habits/tasks.py:25-45 | the scan of a joined snapshot is the join of the scans, so nothing is de-duplicated |
| Tasks.ScanOfOne | habits/tasks.py:27-45 | one habit gets its message exactly when it is a candidate that is due at its check's clock reading |
| Tasks.ScanMessagesExactlySelected | habits/tasks.py:27-45 | a due candidate's message appears in snapshot order between those of its neighbours; any other habit adds nothing |
| Tasks.SelectedOnlyNearAnchor | habits/tasks.py:25-34 | a messaged habit is anchored within two hours after the query's reading; if the check reads the clock before the anchor, the habit is daily and the reading is on the anchor's date; if both readings coincide, the date is today's and a longer cycle is anchored exactly then |
| Tasks.SelectedCandidates | habits/tasks.py:25-34 | a candidate whose check reads the clock within a day after the anchor is messaged; one whose check reads it before the anchor is messaged exactly when daily and on the anchor's date |
| Tasks.SecondClockReading | habits/models.py:50 | a three-day habit anchored a minute ahead fails the check at the query's reading but passes it two minutes later |
| Tasks.NoMessageThreeHoursAhead | habits/tasks.py:27-31 | a habit anchored three hours ahead is no candidate and gets no message |
| Tasks.HalfHourAheadWithReward | habits/tasks.py:27-43 | a daily "ice cream" habit half an hour ahead, checked before its anchor, gets one message ending in the reward line when the check is on the anchor's date, and none across midnight |
| Tasks.ConsecutiveScansBothNotify | habits/tasks.py:25-45 | two scans five minutes apart both message the same daily habit |
| Tasks.Attempted | habits/tasks.py:45 | the attempted sends are a prefix of the messages; all are attempted when none raises, and otherwise the scan stops at the first raising send |

## Findings

| source | as written | input that shows it | evidently intended | confidence | as-written member | corrected member |
|---|---|---|---|---|---|---|
| habits/validators.py:29-31 | a related habit's pleasant flag is checked only when the referencing habit is written | habit 1 references pleasant habit 2; habit 2 is then updated with `is_pleasant` false and the unused award 7 | every stored related habit stays pleasant | medium; not executed | HabitStore.UnpleasantUpdateStrandsReference | HabitStore.CheckedWritePreservesStore |
| habits/serializers/habit.py:39-44 | `related_habit` is optional even on a full update; the record rules then read no reference, but the save keeps the stored one | habit 1 references pleasant habit 2 and has no award; a full update of habit 1 sets award 5 and omits `related_habit` | a saved habit never has both an award and a related habit | medium; not executed | HabitStore.OmittedRelatedHabitKeepsReference | HabitStore.CheckedWritePreservesStore |

## Left out

- The Telegram HTTP call is left out. The scan returns its messages, and `Tasks.Attempted` models a raising send.
- Django, DRF and Celery plumbing is left out: request handling, permissions, pagination, ownership gating, and the scheduler that triggers the scan.
- Partial updates (PATCH) are left out. With PATCH every field may be omitted. The model covers creates and full updates, including full updates that omit the four optional fields.
- DRF's generated field checks are left out: type parsing, required fields, `max_length` of `place`, blank strings. So is the required-field enforcement of the unique-together rule. These are library behaviour, not rules of this code.
- HabitSerializer.UniqueTogetherValidator: the model checks the pair on every write. The library may skip the check on an update that changes neither field. This matters only for a store where some habit already fails the rules. The library implementation is not part of this model.
- Error message texts are left out. A violation is named by its rule.
- Owner deletion (`CASCADE`) and the award serializer are left out. They hold no rule logic.
- Rendering `execution_time` as text is the parameter `render`, because `str(datetime)` and time zones are library behaviour. Instants are whole UTC seconds, and microseconds are not modelled.
- Concurrency is left out: overlapping scans and concurrent writes to the same award. The model is sequential.
- Keys that name no stored record are modelled as field errors of the write. The scan assumes that every owner and award key of a stored habit resolves, as foreign keys do.
