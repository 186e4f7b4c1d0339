/** Achievements: the owner's list, the ownership guard, create, update and
    remove. Dates are kept as the text the client sent. */
module Achievements {
  import opened Common
  import opened Db
  import opened Ordering

  const MsgAchievementNotFound := "Achievement not found"

  /** `findOne`: NotFound for a missing achievement, then Forbidden for
      another user's. */
  function FindOne(achievements: map<Id, Achievement>, id: Id, userId: Id): (r: Result<Achievement>)
    ensures r == Err(NotFound(MsgAchievementNotFound)) <==> id !in achievements
    ensures r == Err(Forbidden(MsgAccessDenied)) <==> id in achievements && achievements[id].userId != userId
    ensures r.Ok? <==> id in achievements && achievements[id].userId == userId
    ensures r.Ok? ==> r.value == achievements[id]
  {
    if id !in achievements then Err(NotFound(MsgAchievementNotFound))
    else if achievements[id].userId != userId then Err(Forbidden(MsgAccessDenied))
    else Ok(achievements[id])
  }

  function OfUser(userId: Id): Achievement -> bool {
    (a: Achievement) => a.userId == userId
  }

  /** `findAll`: the caller's achievements, newest first. */
  function FindAll(achievements: map<Id, Achievement>, n: nat, userId: Id): (r: seq<Achievement>)
    requires AchievementsKeyed(achievements, n)
    ensures forall i :: 0 <= i < |r| ==> r[i] in achievements.Values && r[i].userId == userId
    ensures forall k :: k in achievements && achievements[k].userId == userId ==> achievements[k] in r
    ensures forall i, j :: 0 <= i < j < |r| ==> r[i].id > r[j].id
  {
    var ids := IdsDesc(achievements, OfUser(userId), n);
    var r := Rows(achievements, ids);
    assert forall i :: 0 <= i < |r| ==> r[i].id == ids[i];
    assert forall k :: k in achievements && achievements[k].userId == userId ==> achievements[k] in r by {
      forall k | k in achievements && achievements[k].userId == userId ensures achievements[k] in r {
        assert OfUser(userId)(achievements[k]);
        var i :| 0 <= i < |ids| && ids[i] == k;
        assert r[i] == achievements[k];
      }
    }
    r
  }

  /** `date ? new Date(date) : undefined`: only a non-empty date is kept. */
  function KeptDate(date: Option<string>): (r: Option<string>)
    ensures r.Some? <==> Truthy(date)
    ensures r.Some? ==> r == date
  {
    if Truthy(date) then date else None
  }

  /** The fields `create` and `update` accept; on update an absent field is
      left unchanged. */
  datatype AchievementFields = AchievementFields(
    title: Option<string>,
    body: Option<string>,
    date: Option<string>,
    link: Option<string>)

  /** The achievement after `update`: an empty or absent date leaves the
      stored date as it was, the id and owner never change. */
  function Patched(a: Achievement, p: AchievementFields): (u: Achievement)
    ensures u.id == a.id && u.userId == a.userId
    ensures u.title == p.title.GetOr(a.title)
    ensures Truthy(p.date) ==> u.date == p.date
    ensures !Truthy(p.date) ==> u.date == a.date
    ensures u.body == (if p.body.Some? then p.body else a.body)
    ensures u.link == (if p.link.Some? then p.link else a.link)
  {
    a.(title := p.title.GetOr(a.title),
       body := if p.body.Some? then p.body else a.body,
       date := if Truthy(p.date) then p.date else a.date,
       link := if p.link.Some? then p.link else a.link)
  }

  /** Updating twice with the same fields gives what updating once gives. */
  lemma PatchedIdempotent(a: Achievement, p: AchievementFields)
    ensures Patched(Patched(a, p), p) == Patched(a, p)
  {
  }

  class AchievementsService {
    const db: Database

    constructor (db: Database)
      ensures this.db == db
    {
      this.db := db;
    }

    /** `create`: a new achievement owned by the caller. The title is
        required. */
    method Create(userId: Id, title: string, body: Option<string>, date: Option<string>, link: Option<string>)
      returns (r: Result<Achievement>)
      requires db.Valid()
      modifies db`achievements, db`nextId
      ensures db.Valid()
      ensures userId !in db.users ==>
        r == Err(DatabaseError(ForeignKeyViolation)) && unchanged(db`achievements, db`nextId)
      ensures userId in db.users ==>
        var created := Achievement(old(db.nextId), userId, title, body, KeptDate(date), link);
        && r == Ok(created)
        && db.achievements == old(db.achievements)[created.id := created]
        && db.nextId == old(db.nextId) + 1
    {
      if userId !in db.users {
        return Err(DatabaseError(ForeignKeyViolation));
      }
      var created := Achievement(db.nextId, userId, title, body, KeptDate(date), link);
      Db.CounterGrows(db.Snapshot(), db.nextId + 1);
      db.achievements := db.achievements[created.id := created];
      db.nextId := db.nextId + 1;
      r := Ok(created);
    }

    /** `update`: the guard, then the fields. */
    method Update(id: Id, userId: Id, p: AchievementFields) returns (r: Result<Achievement>)
      requires db.Valid()
      modifies db`achievements
      ensures db.Valid()
      ensures var guard := FindOne(old(db.achievements), id, userId);
        && (guard.Err? ==> r == guard && db.achievements == old(db.achievements))
        && (guard.Ok? ==> r == Ok(Patched(guard.value, p)) && db.achievements == old(db.achievements)[id := r.value])
    {
      var guard := FindOne(db.achievements, id, userId);
      if guard.Err? {
        return guard;
      }
      var updated := Patched(guard.value, p);
      db.achievements := db.achievements[id := updated];
      r := Ok(updated);
    }

    /** `remove`: the guard, then the achievement is deleted. */
    method Remove(id: Id, userId: Id) returns (r: Result<Achievement>)
      requires db.Valid()
      modifies db`achievements
      ensures db.Valid()
      ensures var guard := FindOne(old(db.achievements), id, userId);
        && r == guard
        && (guard.Err? ==> db.achievements == old(db.achievements))
        && (guard.Ok? ==> db.achievements == old(db.achievements) - {id})
    {
      r := FindOne(db.achievements, id, userId);
      if r.Err? {
        return;
      }
      db.achievements := db.achievements - {id};
    }
  }
}
