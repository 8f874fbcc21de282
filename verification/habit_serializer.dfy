/** The composition of the write-time rules by the habit serializer
    (habits/serializers/habit.py): three field rules, checked first, then the
    unique-together rule and the two record rules, together with the data
    invariants they establish, stated directly, and the `telegram_id` the
    serializer reports. */
module HabitSerializer {
  import opened Optional
  import opened Models
  import opened Validators

  function AsErrors(o: Option<Violation>): seq<Violation>
  {
    if o.Some? then [o.value] else []
  }

  /** The `award` field: a key must name a stored award. */
  function AwardFieldErrors(award: Option<AwardId>, awards: Awards): seq<Violation>
  {
    if award.Some? && award.value !in awards then [UnknownAward] else []
  }

  /** The `related_habit` field: a key must name a stored habit, and the rule
      runs on the habit it names. Null or omitted passes untouched. */
  function RelatedHabitFieldErrors(related: Option<HabitId>, habits: Habits): seq<Violation>
  {
    match related
    case None => []
    case Some(id) =>
      if id in habits then AsErrors(RelatedHabitValidator(Some(habits[id]))) else [UnknownRelatedHabit]
  }

  /** Errors of the field stage, in the serializer's field order. */
  function FieldErrors(d: HabitData, habits: Habits, awards: Awards): seq<Violation>
  {
    AwardFieldErrors(d.award, awards)
    + RelatedHabitFieldErrors(d.relatedHabit, habits)
    + AsErrors(FrequencyValidator(d.frequency))
    + AsErrors(TimeToCompleteValidator(d.timeToComplete))
  }

  /** Another stored habit (not `instance`, the one being updated) already
      holds this write's pair of award and pleasant flag. */
  predicate PairTaken(d: HabitData, instance: Option<HabitId>, habits: Habits)
  {
    exists k :: k in habits && Some(k) != instance
                && habits[k].award == d.award && habits[k].isPleasant == IsPleasantOrDefault(d)
  }

  /** The unique-together rule on (award, is_pleasant). It is skipped when the
      award is null, and the habit being updated is not compared with itself. */
  function UniqueTogetherValidator(d: HabitData, instance: Option<HabitId>, habits: Habits): (r: Option<Violation>)
    ensures r != None ==> r == Some(AwardAndPleasantNotUnique)
    ensures d.award == None ==> r == None
  {
    if d.award.Some? && PairTaken(d, instance, habits) then Some(AwardAndPleasantNotUnique) else None
  }

  /** Errors of the record stage, in the order of the serializer's validators. */
  function RecordErrors(d: HabitData, instance: Option<HabitId>, habits: Habits): seq<Violation>
  {
    AsErrors(UniqueTogetherValidator(d, instance, habits))
    + AsErrors(ExcludeAwardAndRelatedHabitValidator(d))
    + AsErrors(NotAwardOrRelatedHabitValidator(d))
  }

  /** The data invariants a habit write must establish, stated directly. */
  predicate Admissible(d: HabitData, instance: Option<HabitId>, habits: Habits, awards: Awards)
  {
    && (d.award.Some? ==> d.award.value in awards)
    && (d.relatedHabit.Some? ==> d.relatedHabit.value in habits && habits[d.relatedHabit.value].isPleasant)
    && d.frequency <= 7
    && d.timeToComplete <= 120
    && (d.award.None? || d.relatedHabit.None?)
    && (d.isPleasant == Some(true) ==> d.award.None? && d.relatedHabit.None?)
    && (d.award.Some? ==>
          forall k :: k in habits && Some(k) != instance && habits[k].award == d.award ==>
            habits[k].isPleasant != (d.isPleasant == Some(true)))
  }

  /** Whether the write violates rule `v`, stated without the validators. */
  predicate Violated(v: Violation, d: HabitData, instance: Option<HabitId>, habits: Habits, awards: Awards)
  {
    match v
    case UnknownAward => d.award.Some? && d.award.value !in awards
    case UnknownRelatedHabit => d.relatedHabit.Some? && d.relatedHabit.value !in habits
    case RelatedHabitNotPleasant =>
      d.relatedHabit.Some? && d.relatedHabit.value in habits && !habits[d.relatedHabit.value].isPleasant
    case FrequencyTooRare => d.frequency > 7
    case TimeToCompleteTooLong => d.timeToComplete > 120
    case AwardAndPleasantNotUnique =>
      d.award.Some? &&
      exists k :: k in habits && Some(k) != instance && habits[k].award == d.award
                  && habits[k].isPleasant == (d.isPleasant == Some(true))
    case AwardWithRelatedHabit => d.award.Some? && d.relatedHabit.Some?
    case PleasantWithAwardOrRelatedHabit =>
      d.isPleasant == Some(true) && (d.award.Some? || d.relatedHabit.Some?)
  }

  /** The rules checked in the field stage; the others are record rules. */
  predicate IsFieldRule(v: Violation)
  {
    !(v.AwardAndPleasantNotUnique? || v.AwardWithRelatedHabit? || v.PleasantWithAwardOrRelatedHabit?)
  }

  /** Validation of a write. A failing field stage stops validation with its
      errors; otherwise every failing record rule is reported. Accepted data is
      returned unchanged. */
  function Validate(d: HabitData, instance: Option<HabitId>, habits: Habits, awards: Awards)
    : (r: Result<HabitData, seq<Violation>>)
    ensures r.Success? <==> Admissible(d, instance, habits, awards)
    ensures r.Success? ==> r.value == d
    ensures r.Success? ==> d.award == None || d.relatedHabit == None
    ensures r.Success? && d.isPleasant == Some(true) ==> d.award == None && d.relatedHabit == None
    ensures r.Failure? ==> r.error != []
  {
    var fieldErrors := FieldErrors(d, habits, awards);
    if fieldErrors != [] then Failure(fieldErrors)
    else
      var recordErrors := RecordErrors(d, instance, habits);
      if recordErrors != [] then Failure(recordErrors) else Success(d)
  }

  lemma FieldErrorsExact(d: HabitData, habits: Habits, awards: Awards, instance: Option<HabitId>)
    ensures forall v :: v in FieldErrors(d, habits, awards) <==> IsFieldRule(v) && Violated(v, d, instance, habits, awards)
  {
    forall v
      ensures v in FieldErrors(d, habits, awards) <==> IsFieldRule(v) && Violated(v, d, instance, habits, awards)
    {
    }
  }

  lemma RecordErrorsExact(d: HabitData, habits: Habits, awards: Awards, instance: Option<HabitId>)
    ensures forall v :: v in RecordErrors(d, instance, habits) <==> !IsFieldRule(v) && Violated(v, d, instance, habits, awards)
  {
    forall v
      ensures v in RecordErrors(d, instance, habits) <==> !IsFieldRule(v) && Violated(v, d, instance, habits, awards)
    {
      assert PairTaken(d, instance, habits) <==>
        exists k :: k in habits && Some(k) != instance && habits[k].award == d.award
                    && habits[k].isPleasant == (d.isPleasant == Some(true));
    }
  }

  /** A rejected write reports exactly the rules it violates: all violated
      field rules when there is one, else all violated record rules. */
  lemma ValidateReportsViolatedRules(d: HabitData, instance: Option<HabitId>, habits: Habits, awards: Awards)
    ensures Validate(d, instance, habits, awards).Failure? <==> exists v :: Violated(v, d, instance, habits, awards)
    ensures (exists v :: IsFieldRule(v) && Violated(v, d, instance, habits, awards)) ==>
              forall v :: v in Validate(d, instance, habits, awards).error <==> IsFieldRule(v) && Violated(v, d, instance, habits, awards)
    ensures (forall v :: IsFieldRule(v) ==> !Violated(v, d, instance, habits, awards)) ==>
              && (forall v :: Violated(v, d, instance, habits, awards) ==>
                    Validate(d, instance, habits, awards).Failure? && v in Validate(d, instance, habits, awards).error)
              && (Validate(d, instance, habits, awards).Failure? ==>
                    forall v :: v in Validate(d, instance, habits, awards).error ==> Violated(v, d, instance, habits, awards))
  {
    FieldErrorsExact(d, habits, awards, instance);
    RecordErrorsExact(d, habits, awards, instance);
    var r := Validate(d, instance, habits, awards);
    if r.Failure? {
      assert r.error[0] in r.error;
    }
    forall v | Violated(v, d, instance, habits, awards)
      ensures r.Failure?
      ensures (forall w :: IsFieldRule(w) ==> !Violated(w, d, instance, habits, awards)) ==> v in r.error
    {
      if IsFieldRule(v) {
        assert v in FieldErrors(d, habits, awards);
      } else {
        if FieldErrors(d, habits, awards) == [] {
          assert v in RecordErrors(d, instance, habits);
        }
      }
    }
  }

  /** A write whose award and pleasant flag another stored habit already
      holds is rejected. */
  lemma DuplicatePairRejected(d: HabitData, instance: Option<HabitId>, habits: Habits, awards: Awards, k: HabitId)
    requires d.award.Some?
    requires k in habits && Some(k) != instance
    requires habits[k].award == d.award && habits[k].isPleasant == (d.isPleasant == Some(true))
    ensures Validate(d, instance, habits, awards).Failure?
  {
    assert !Admissible(d, instance, habits, awards);
  }

  /** Dropping the related habit never turns an accepted write into a
      rejected one: an omitted or null reference alone causes no rejection. */
  lemma NoRelatedHabitNeverHurts(d: HabitData, instance: Option<HabitId>, habits: Habits, awards: Awards)
    requires Validate(d, instance, habits, awards).Success?
    ensures Validate(d.(relatedHabit := None), instance, habits, awards).Success?
  {
    var d' := d.(relatedHabit := None);
    assert IsPleasantOrDefault(d') == IsPleasantOrDefault(d);
  }

  /** The frequency rule bounds only from above: every frequency up to 7,
      zero and negatives included, is judged alike. */
  lemma FrequencyUpToSevenJudgedAlike(d: HabitData, instance: Option<HabitId>, habits: Habits, awards: Awards, f: int)
    requires d.frequency <= 7 && f <= 7
    ensures Validate(d.(frequency := f), instance, habits, awards).Success? == Validate(d, instance, habits, awards).Success?
    ensures Validate(d, instance, habits, awards).Failure? ==>
              Validate(d.(frequency := f), instance, habits, awards) == Validate(d, instance, habits, awards)
  {
    var d' := d.(frequency := f);
    assert IsPleasantOrDefault(d') == IsPleasantOrDefault(d);
    assert FieldErrors(d', habits, awards) == FieldErrors(d, habits, awards);
    assert RecordErrors(d', instance, habits) == RecordErrors(d, instance, habits);
  }

  /** The `telegram_id` the serializer reports for a habit: the owner's
      address, or null when the habit has no owner to resolve. */
  function GetTelegramId(h: Habit, users: Users): (r: Option<nat>)
    ensures h.owner !in users ==> r == None
    ensures h.owner in users ==> r == users[h.owner].telegramId
  {
    if h.owner in users then users[h.owner].telegramId else None
  }
}
