/** The write-time rules of habits/validators.py. Each rule reads its input
    and either passes (`None`) or names the rule it violates. */
module Validators {
  import opened Optional
  import opened Models

  const MaxTimeToComplete: int := 120
  const MaxFrequency: int := 7

  /** The data a habit write submits, once the relation fields have been
      parsed into primary keys. An omitted or null `award` or `related_habit`
      is `None`; an omitted `is_pleasant` is `None`. The integers are not yet
      constrained to be non-negative. */
  datatype HabitData = HabitData(
    award: Option<AwardId>,
    place: string,
    executionTime: Instant,
    action: string,
    isPleasant: Option<bool>,
    relatedHabit: Option<HabitId>,
    frequency: int,
    timeToComplete: int,
    isPublic: bool)

  /** One violated rule of a habit write. */
  datatype Violation =
    | UnknownAward                     // the award key names no stored award
    | UnknownRelatedHabit              // the related-habit key names no stored habit
    | RelatedHabitNotPleasant
    | FrequencyTooRare
    | TimeToCompleteTooLong
    | AwardAndPleasantNotUnique        // the unique-together rule on (award, is_pleasant)
    | AwardWithRelatedHabit
    | PleasantWithAwardOrRelatedHabit

  function TimeToCompleteValidator(value: int): (r: Option<Violation>)
    ensures r == None <==> value <= 120
    ensures r != None ==> r == Some(TimeToCompleteTooLong)
  {
    if value > MaxTimeToComplete then Some(TimeToCompleteTooLong) else None
  }

  /** `value` is the habit the reference resolved to, or `None` for no reference. */
  function RelatedHabitValidator(value: Option<Habit>): (r: Option<Violation>)
    ensures value == None ==> r == None
    ensures value != None ==> (r == None <==> value.value.isPleasant)
    ensures r != None ==> r == Some(RelatedHabitNotPleasant)
  {
    match value
    case None => None
    case Some(h) => if !h.isPleasant then Some(RelatedHabitNotPleasant) else None
  }

  function FrequencyValidator(value: int): (r: Option<Violation>)
    ensures r == None <==> value <= 7
    ensures r != None ==> r == Some(FrequencyTooRare)
  {
    if value > MaxFrequency then Some(FrequencyTooRare) else None
  }

  function ExcludeAwardAndRelatedHabitValidator(data: HabitData): (r: Option<Violation>)
    ensures r != None <==> data.award != None && data.relatedHabit != None
    ensures r != None ==> r == Some(AwardWithRelatedHabit)
  {
    if data.award.Some? && data.relatedHabit.Some? then Some(AwardWithRelatedHabit) else None
  }

  /** `is_pleasant` as the record rules read it: an omitted flag counts as false. */
  function IsPleasantOrDefault(data: HabitData): (b: bool)
    ensures b <==> data.isPleasant == Some(true)
  {
    match data.isPleasant
    case None => false
    case Some(p) => p
  }

  function NotAwardOrRelatedHabitValidator(data: HabitData): (r: Option<Violation>)
    ensures r != None <==> data.isPleasant == Some(true) && (data.award != None || data.relatedHabit != None)
    ensures r != None ==> r == Some(PleasantWithAwardOrRelatedHabit)
  {
    if IsPleasantOrDefault(data) && (data.award.Some? || data.relatedHabit.Some?)
    then Some(PleasantWithAwardOrRelatedHabit)
    else None
  }

  /** Neither numeric rule has a lower bound: zero and negative values pass. */
  lemma NumericRulesHaveNoLowerBound(value: int)
    requires value <= 0
    ensures TimeToCompleteValidator(value) == None
    ensures FrequencyValidator(value) == None
  {
  }

  /** The bounds themselves are accepted and the next integer up is not. */
  lemma NumericRuleBoundaries()
    ensures TimeToCompleteValidator(120) == None && TimeToCompleteValidator(121) != None
    ensures FrequencyValidator(7) == None && FrequencyValidator(8) != None
  {
  }

  /** Either reference alone passes the exclusion rule. */
  lemma EitherReferenceAlonePasses(data: HabitData)
    requires data.award == None || data.relatedHabit == None
    ensures ExcludeAwardAndRelatedHabitValidator(data) == None
  {
  }

  /** A write that omits `is_pleasant` never fails the pleasant-habit rule. */
  lemma OmittedPleasantFlagNeverRejects(data: HabitData)
    requires data.isPleasant == None
    ensures NotAwardOrRelatedHabitValidator(data) == None
  {
  }
}
