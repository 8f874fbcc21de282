/** Deleting an award or a habit (habits/models.py): the foreign keys that
    referenced it are set to null (`on_delete=SET_NULL`), nothing else changes. */
module Deletion {
  import opened Optional
  import opened Models
  import opened Validators
  import opened HabitSerializer
  import opened HabitStore

  /** Removes award `a`; every habit that held it now holds no award. */
  function DeleteAward(habits: Habits, awards: Awards, a: AwardId): (r: (Habits, Awards))
    ensures r.1.Keys == awards.Keys - {a}
    ensures forall b :: b in r.1 ==> r.1[b] == awards[b]
    ensures r.0.Keys == habits.Keys
    ensures forall id :: id in r.0 ==> r.0[id].award != Some(a)
    ensures forall id :: id in habits && habits[id].award != Some(a) ==> r.0[id] == habits[id]
    ensures forall id :: id in habits ==> r.0[id].(award := habits[id].award) == habits[id]
  {
    var habits' := map id | id in habits ::
      if habits[id].award == Some(a) then habits[id].(award := None) else habits[id];
    (habits', awards - {a})
  }

  /** Removes habit `t`; every habit that referenced it now references none. */
  function DeleteHabit(habits: Habits, t: HabitId): (r: Habits)
    ensures r.Keys == habits.Keys - {t}
    ensures forall id :: id in r ==> r[id].relatedHabit != Some(t)
    ensures forall id :: id in r && habits[id].relatedHabit != Some(t) ==> r[id] == habits[id]
    ensures forall id :: id in r ==> r[id].(relatedHabit := habits[id].relatedHabit) == habits[id]
  {
    map id | id in habits && id != t ::
      if habits[id].relatedHabit == Some(t) then habits[id].(relatedHabit := None) else habits[id]
  }

  /** Deleting an award keeps a valid store valid. */
  lemma DeleteAwardPreservesStore(habits: Habits, awards: Awards, a: AwardId)
    requires StoreValid(habits, awards)
    ensures StoreValid(DeleteAward(habits, awards, a).0, DeleteAward(habits, awards, a).1)
  {
    var (habits', awards') := DeleteAward(habits, awards, a);
    forall k | k in habits'
      ensures Admissible(DataOf(habits'[k]), Some(k), habits', awards')
    {
      assert Admissible(DataOf(habits[k]), Some(k), habits, awards);
      var g := habits'[k];
      if g.relatedHabit.Some? {
        assert habits'[g.relatedHabit.value].isPleasant == habits[g.relatedHabit.value].isPleasant;
      }
      if g.award.Some? {
        forall j | j in habits' && Some(j) != Some(k) && habits'[j].award == g.award
          ensures habits'[j].isPleasant != g.isPleasant
        {
          assert habits[j].award == g.award;
        }
      }
    }
  }

  /** Deleting a habit keeps a valid store valid. */
  lemma DeleteHabitPreservesStore(habits: Habits, awards: Awards, t: HabitId)
    requires StoreValid(habits, awards)
    ensures StoreValid(DeleteHabit(habits, t), awards)
  {
    var habits' := DeleteHabit(habits, t);
    forall k | k in habits'
      ensures Admissible(DataOf(habits'[k]), Some(k), habits', awards)
    {
      assert Admissible(DataOf(habits[k]), Some(k), habits, awards);
      var g := habits'[k];
      if g.relatedHabit.Some? {
        var target := g.relatedHabit.value;
        assert target in habits && target != t;
        assert habits'[target].isPleasant == habits[target].isPleasant;
      }
      if g.award.Some? {
        forall j | j in habits' && Some(j) != Some(k) && habits'[j].award == g.award
          ensures habits'[j].isPleasant != g.isPleasant
        {
          assert habits[j].award == g.award;
        }
      }
    }
  }
}
