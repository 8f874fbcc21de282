/** A store of habits in which every habit passes the serializer's rules, and
    what writing into such a store preserves. */
module HabitStore {
  import opened Optional
  import opened Models
  import opened Validators
  import opened HabitSerializer

  /** The data a stored habit would submit if written again. */
  function DataOf(h: Habit): HabitData
  {
    HabitData(h.award, h.place, h.executionTime, h.action, Some(h.isPleasant), h.relatedHabit,
              h.frequency, h.timeToComplete, h.isPublic)
  }

  /** Every stored habit passes validation as an update of itself. */
  ghost predicate StoreValid(habits: Habits, awards: Awards)
  {
    forall id :: id in habits ==> Admissible(DataOf(habits[id]), Some(id), habits, awards)
  }

  /** In a valid store a related habit is pleasant and therefore carries
      neither an award nor a related habit of its own: reference chains have
      length at most one. */
  lemma RelatedChainsHaveLengthOne(habits: Habits, awards: Awards, id: HabitId)
    requires StoreValid(habits, awards)
    requires id in habits && habits[id].relatedHabit.Some?
    ensures habits[id].relatedHabit.value in habits
    ensures var t := habits[habits[id].relatedHabit.value];
            t.isPleasant && t.relatedHabit == None && t.award == None
  {
    assert Admissible(DataOf(habits[id]), Some(id), habits, awards);
    var t := habits[id].relatedHabit.value;
    assert Admissible(DataOf(habits[t]), Some(t), habits, awards);
  }

  /** In a valid store no two habits share an award. */
  lemma AwardsBackAtMostOneHabit(habits: Habits, awards: Awards, i: HabitId, j: HabitId)
    requires StoreValid(habits, awards)
    requires i in habits && j in habits && i != j
    requires habits[i].award.Some?
    ensures habits[i].award != habits[j].award
  {
    assert Admissible(DataOf(habits[i]), Some(i), habits, awards);
    if habits[i].award == habits[j].award {
      assert false;
    }
  }

  /** The instance a write of `id` updates, if any. */
  function InstanceOf(id: HabitId, habits: Habits): Option<HabitId>
  {
    if id in habits then Some(id) else None
  }

  /** Which optional fields a write leaves out. Even a full update may omit
      `award`, `is_pleasant`, `related_habit` and `is_public`: the serializer
      requires none of them. */
  datatype Omitted = Omitted(award: bool, isPleasant: bool, relatedHabit: bool, isPublic: bool)

  const NothingOmitted: Omitted := Omitted(false, false, false, false)

  /** In a submitted habit, an omitted field holds its model default. */
  predicate Defaults(h: Habit, omit: Omitted)
  {
    && (omit.award ==> h.award == None)
    && (omit.isPleasant ==> !h.isPleasant)
    && (omit.relatedHabit ==> h.relatedHabit == None)
    && (omit.isPublic ==> !h.isPublic)
  }

  /** The data the rules see. On an update, the unique-together rule, which
      runs first, fills an omitted award or pleasant flag from the stored
      habit into the data every later record rule reads. Otherwise an omitted
      flag is absent and an omitted reference reads as null. */
  function Submitted(h: Habit, omit: Omitted, id: HabitId, habits: Habits): HabitData
  {
    if id !in habits then
      DataOf(h).(isPleasant := if omit.isPleasant then None else Some(h.isPleasant))
    else
      var stored := habits[id];
      DataOf(h).(award := if omit.award then stored.award else h.award,
                 isPleasant := Some(if omit.isPleasant then stored.isPleasant else h.isPleasant))
  }

  /** The habit the save stores: on an update an omitted field keeps its
      stored value; on a create it takes its default. */
  function Saved(h: Habit, omit: Omitted, id: HabitId, habits: Habits): Habit
  {
    if id !in habits then h
    else
      var stored := habits[id];
      h.(award := if omit.award then stored.award else h.award,
         isPleasant := if omit.isPleasant then stored.isPleasant else h.isPleasant,
         relatedHabit := if omit.relatedHabit then stored.relatedHabit else h.relatedHabit,
         isPublic := if omit.isPublic then stored.isPublic else h.isPublic)
  }

  /** A create or full update of habit `id`, as the serializer performs it:
      the submitted data is validated, and the habit is then saved with the
      omitted fields of an update left as stored. */
  function Write(h: Habit, omit: Omitted, id: HabitId, habits: Habits, awards: Awards)
    : (r: Result<Habits, seq<Violation>>)
    requires Defaults(h, omit)
    ensures r.Success? <==> Admissible(Submitted(h, omit, id, habits), InstanceOf(id, habits), habits, awards)
    ensures r.Success? ==> r.value.Keys == habits.Keys + {id}
    ensures r.Success? && id !in habits ==> r.value[id] == h
    ensures r.Success? && id in habits ==>
              var stored, saved := habits[id], r.value[id];
              && saved.(award := h.award, isPleasant := h.isPleasant, relatedHabit := h.relatedHabit,
                        isPublic := h.isPublic) == h
              && saved.award == (if omit.award then stored.award else h.award)
              && saved.isPleasant == (if omit.isPleasant then stored.isPleasant else h.isPleasant)
              && saved.relatedHabit == (if omit.relatedHabit then stored.relatedHabit else h.relatedHabit)
              && saved.isPublic == (if omit.isPublic then stored.isPublic else h.isPublic)
    ensures r.Success? ==> forall k :: k in habits && k != id ==> r.value[k] == habits[k]
  {
    match Validate(Submitted(h, omit, id, habits), InstanceOf(id, habits), habits, awards)
    case Failure(e) => Failure(e)
    case Success(_) => Success(habits[id := Saved(h, omit, id, habits)])
  }

  /** Saving a stored habit again, with nothing omitted, is accepted and
      changes nothing. */
  lemma ResaveIsIdentity(habits: Habits, awards: Awards, id: HabitId)
    requires StoreValid(habits, awards)
    requires id in habits
    ensures Write(habits[id], NothingOmitted, id, habits, awards) == Success(habits)
  {
    var h := habits[id];
    assert Submitted(h, NothingOmitted, id, habits) == DataOf(h);
    assert Admissible(DataOf(h), Some(id), habits, awards);
    assert Saved(h, NothingOmitted, id, habits) == h;
    assert habits[id := h] == habits;
  }

  /** On an update, the rules read every field of the habit as it is saved,
      except an omitted related habit, which they read as null. */
  lemma RulesSeeSavedExceptRelatedHabit(h: Habit, omit: Omitted, id: HabitId, habits: Habits)
    requires Defaults(h, omit)
    requires id in habits
    ensures var d, saved := Submitted(h, omit, id, habits), Saved(h, omit, id, habits);
            && d.award == saved.award
            && d.isPleasant == Some(saved.isPleasant)
            && d.frequency == saved.frequency && d.timeToComplete == saved.timeToComplete
            && d.relatedHabit == (if omit.relatedHabit then None else saved.relatedHabit)
  {
  }

  /** A write of `h` to `id` would leave some stored reference pointing at a
      habit that is not pleasant. */
  predicate StrandsReference(h: Habit, id: HabitId, habits: Habits)
  {
    || h.relatedHabit == Some(id)
    || (!h.isPleasant && exists k :: k in habits && habits[k].relatedHabit == Some(id))
  }

  /** The write with the missing checks added: the habit as it will be saved,
      omitted fields included, must itself pass the rules; a habit that others
      reference cannot stop being pleasant; and no habit may reference itself. */
  function CheckedWrite(h: Habit, omit: Omitted, id: HabitId, habits: Habits, awards: Awards)
    : (r: Result<Habits, seq<Violation>>)
    requires Defaults(h, omit)
    ensures r.Success? <==>
              && Write(h, omit, id, habits, awards).Success?
              && Admissible(DataOf(Saved(h, omit, id, habits)), InstanceOf(id, habits), habits, awards)
              && !StrandsReference(Saved(h, omit, id, habits), id, habits)
    ensures r.Success? ==> r == Write(h, omit, id, habits, awards)
  {
    var w := Write(h, omit, id, habits, awards);
    var saved := Saved(h, omit, id, habits);
    if w.Failure? then w
    else
      match Validate(DataOf(saved), InstanceOf(id, habits), habits, awards)
      case Failure(e) => Failure(e)
      case Success(_) => if StrandsReference(saved, id, habits) then Failure([RelatedHabitNotPleasant]) else w
  }

  /** The checked write keeps a valid store valid. */
  lemma CheckedWritePreservesStore(h: Habit, omit: Omitted, id: HabitId, habits: Habits, awards: Awards)
    requires StoreValid(habits, awards)
    requires Defaults(h, omit)
    requires CheckedWrite(h, omit, id, habits, awards).Success?
    ensures StoreValid(CheckedWrite(h, omit, id, habits, awards).value, awards)
  {
    var saved := Saved(h, omit, id, habits);
    var habits' := habits[id := saved];
    assert CheckedWrite(h, omit, id, habits, awards).value == habits';
    assert Admissible(DataOf(saved), InstanceOf(id, habits), habits, awards);
    forall k | k in habits'
      ensures Admissible(DataOf(habits'[k]), Some(k), habits', awards)
    {
      if k == id {
        AdmissibleAfterOwnWrite(saved, id, habits, awards);
      } else {
        assert Admissible(DataOf(habits[k]), Some(k), habits, awards);
        AdmissibleAfterOtherWrite(saved, id, k, habits, awards);
      }
    }
  }

  lemma AdmissibleAfterOwnWrite(h: Habit, id: HabitId, habits: Habits, awards: Awards)
    requires Admissible(DataOf(h), InstanceOf(id, habits), habits, awards)
    requires !StrandsReference(h, id, habits)
    ensures Admissible(DataOf(h), Some(id), habits[id := h], awards)
  {
    var habits' := habits[id := h];
    if h.award.Some? {
      forall k | k in habits' && Some(k) != Some(id) && habits'[k].award == h.award
        ensures habits'[k].isPleasant != h.isPleasant
      {
        assert k in habits && Some(k) != InstanceOf(id, habits);
      }
    }
  }

  lemma AdmissibleAfterOtherWrite(h: Habit, id: HabitId, k: HabitId, habits: Habits, awards: Awards)
    requires k in habits && k != id
    requires Admissible(DataOf(habits[k]), Some(k), habits, awards)
    requires Admissible(DataOf(h), InstanceOf(id, habits), habits, awards)
    requires !StrandsReference(h, id, habits)
    ensures Admissible(DataOf(habits[k]), Some(k), habits[id := h], awards)
  {
    var habits' := habits[id := h];
    var g := habits[k];
    if g.relatedHabit == Some(id) {
      assert h.isPleasant;
    }
    if g.award.Some? {
      forall j | j in habits' && Some(j) != Some(k) && habits'[j].award == g.award
        ensures habits'[j].isPleasant != g.isPleasant
      {
        if j == id {
          assert false;
        }
      }
    }
  }

  /** A task habit (key 1) that references a pleasant habit (key 2). */
  function TaskReferencingPleasant(): Habits
  {
    map[1 := Habit(1, None, "park", 0, "walk", false, Some(2), 1, 60, false),
        2 := Habit(1, None, "home", 0, "tea", true, None, 1, 60, false)]
  }

  /** Two stored awards, keys 5 and 7. */
  function Rewards(): Awards
  {
    map[5 := Award(1, "ice cream"), 7 := Award(1, "cake")]
  }

  /** Habit 2 rewritten with its pleasant flag cleared and a fresh award, 7. */
  function NoLongerPleasant(): Habit
  {
    Habit(1, Some(7), "home", 0, "tea", false, None, 1, 60, false)
  }

  /** As written, the serializer checks a related habit's flag only when the
      referencing habit is written: clearing the flag on the referenced habit
      passes validation and leaves a store that breaks the invariant. */
  lemma UnpleasantUpdateStrandsReference()
    ensures StoreValid(TaskReferencingPleasant(), Rewards())
    ensures Write(NoLongerPleasant(), NothingOmitted, 2, TaskReferencingPleasant(), Rewards()).Success?
    ensures !StoreValid(Write(NoLongerPleasant(), NothingOmitted, 2, TaskReferencingPleasant(), Rewards()).value, Rewards())
  {
    var habits := TaskReferencingPleasant();
    assert habits.Keys == {1, 2};
    assert Submitted(NoLongerPleasant(), NothingOmitted, 2, TaskReferencingPleasant()) == DataOf(NoLongerPleasant());
    var habits' := habits[2 := NoLongerPleasant()];
    assert !Admissible(DataOf(habits'[1]), Some(1), habits', Rewards());
  }

  /** The checked write refuses that same update. */
  lemma CheckedWriteRefusesUnpleasantUpdate()
    ensures CheckedWrite(NoLongerPleasant(), NothingOmitted, 2, TaskReferencingPleasant(), Rewards())
            == Failure([RelatedHabitNotPleasant])
  {
    assert TaskReferencingPleasant()[1].relatedHabit == Some(2);
    assert Submitted(NoLongerPleasant(), NothingOmitted, 2, TaskReferencingPleasant()) == DataOf(NoLongerPleasant());
  }

  /** Habit 1 resubmitted with award 5 and without its related habit. */
  function AwardWithoutRelated(): Habit
  {
    Habit(1, Some(5), "park", 0, "walk", false, None, 1, 60, false)
  }

  const RelatedOmitted: Omitted := Omitted(false, false, true, false)

  /** As written, a full update that omits `related_habit` is validated as if
      the habit had none, but the save keeps the stored reference: adding an
      award to habit 1 this way passes and stores a habit with both an award
      and a related habit. */
  lemma OmittedRelatedHabitKeepsReference()
    ensures StoreValid(TaskReferencingPleasant(), Rewards())
    ensures Write(AwardWithoutRelated(), RelatedOmitted, 1, TaskReferencingPleasant(), Rewards()).Success?
    ensures var saved := Write(AwardWithoutRelated(), RelatedOmitted, 1, TaskReferencingPleasant(), Rewards())
                         .value[1];
            saved.award == Some(5) && saved.relatedHabit == Some(2)
    ensures !StoreValid(Write(AwardWithoutRelated(), RelatedOmitted, 1, TaskReferencingPleasant(), Rewards())
                        .value, Rewards())
  {
    var habits := TaskReferencingPleasant();
    assert habits.Keys == {1, 2};
    var habits' := habits[1 := Saved(AwardWithoutRelated(), RelatedOmitted, 1, habits)];
    assert !Admissible(DataOf(habits'[1]), Some(1), habits', Rewards());
  }

  /** The checked write refuses that same update. */
  lemma CheckedWriteRefusesOmittedRelatedHabit()
    ensures CheckedWrite(AwardWithoutRelated(), RelatedOmitted, 1, TaskReferencingPleasant(), Rewards())
            == Failure([AwardWithRelatedHabit])
  {
    var habits := TaskReferencingPleasant();
    assert habits.Keys == {1, 2};
    var saved := Saved(AwardWithoutRelated(), RelatedOmitted, 1, habits);
    assert saved.award == Some(5) && saved.relatedHabit == Some(2);
    assert FieldErrors(DataOf(saved), habits, Rewards()) == [];
    assert !PairTaken(DataOf(saved), Some(1), habits);
    assert RecordErrors(DataOf(saved), Some(1), habits) == [AwardWithRelatedHabit];
  }

  /** Habit 1 holding award 5, next to pleasant habit 2. */
  function AwardedTask(): Habits
  {
    map[1 := Habit(1, Some(5), "park", 0, "walk", false, None, 1, 60, false),
        2 := Habit(1, None, "home", 0, "tea", true, None, 1, 60, false)]
  }

  const AwardOmitted: Omitted := Omitted(true, false, false, false)

  /** The rules read an award an update omits from the stored habit: giving
      habit 1 a related habit without resubmitting its award is refused by
      the exclusion rule. */
  lemma OmittedAwardStillExcludesRelatedHabit()
    ensures StoreValid(AwardedTask(), Rewards())
    ensures Write(Habit(1, None, "park", 0, "walk", false, Some(2), 1, 60, false), AwardOmitted, 1,
                  AwardedTask(), Rewards())
            == Failure([AwardWithRelatedHabit])
  {
    var habits := AwardedTask();
    assert habits.Keys == {1, 2};
    var d := Submitted(Habit(1, None, "park", 0, "walk", false, Some(2), 1, 60, false), AwardOmitted, 1, habits);
    assert d.award == Some(5) && d.relatedHabit == Some(2) && d.isPleasant == Some(false);
    assert FieldErrors(d, habits, Rewards()) == [];
    assert !PairTaken(d, Some(1), habits);
    assert RecordErrors(d, Some(1), habits) == [AwardWithRelatedHabit];
  }

  const FlagOmitted: Omitted := Omitted(false, true, false, false)

  /** The rules read a pleasant flag an update omits from the stored habit:
      giving pleasant habit 2 an award without resubmitting its flag is
      refused by the pleasant-habit rule. */
  lemma OmittedFlagStillPleasant()
    ensures StoreValid(AwardedTask(), Rewards())
    ensures Write(Habit(1, Some(7), "home", 0, "tea", false, None, 1, 60, false), FlagOmitted, 2,
                  AwardedTask(), Rewards())
            == Failure([PleasantWithAwardOrRelatedHabit])
  {
    var habits := AwardedTask();
    assert habits.Keys == {1, 2};
    var d := Submitted(Habit(1, Some(7), "home", 0, "tea", false, None, 1, 60, false), FlagOmitted, 2, habits);
    assert d.award == Some(7) && d.relatedHabit == None && d.isPleasant == Some(true);
    assert FieldErrors(d, habits, Rewards()) == [];
    assert !PairTaken(d, Some(2), habits);
    assert RecordErrors(d, Some(2), habits) == [PleasantWithAwardOrRelatedHabit];
  }
}
