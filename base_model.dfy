/** The columns every persisted entity inherits from `BaseModel`
    (utils/models.py): the soft-delete flag and who created and who last
    updated the row. */
module BaseModel {
  import opened Wrappers

  /** `created_on` and `updated_on` come from the database clock and are not
      modelled; the `*ById` fields hold the id of the acting user, or nothing. */
  datatype BaseFields = BaseFields(active: bool, createdById: Option<int>, updatedById: Option<int>)

  /** The column defaults applied when a row is inserted by `actor`
      (the logged-in user's id, or None when nobody is logged in). */
  function OnInsert(actor: Option<int>): (b: BaseFields)
    ensures b.active
    ensures b.createdById == actor && b.updatedById == actor
  {
    BaseFields(true, actor, actor)
  }

  /** The `onupdate` hook applied when a row is updated by `actor`: only the
      updater is re-stamped; the flag and the creator are kept. */
  function OnUpdate(b: BaseFields, actor: Option<int>): (b': BaseFields)
    ensures b'.active == b.active && b'.createdById == b.createdById
    ensures b'.updatedById == actor
  {
    b.(updatedById := actor)
  }

  /** After any run of updates the creator is still the one stamped at insert,
      and the updater is the last actor. */
  lemma {:induction false} CreatorSurvivesUpdates(b: BaseFields, actors: seq<Option<int>>, insertedBy: Option<int>)
    requires b == OnInsert(insertedBy)
    ensures Replay(b, actors).createdById == insertedBy
    ensures Replay(b, actors).active
    ensures Replay(b, actors).updatedById == if |actors| == 0 then insertedBy else actors[|actors| - 1]
  {
    if |actors| > 0 {
      CreatorSurvivesUpdates(b, actors[..|actors| - 1], insertedBy);
    }
  }

  /** The fields after the given actors updated the row in turn. */
  function Replay(b: BaseFields, actors: seq<Option<int>>): BaseFields
  {
    if |actors| == 0 then b else OnUpdate(Replay(b, actors[..|actors| - 1]), actors[|actors| - 1])
  }
}
