/** Resumes and their versions: the ownership guard, creation with a unique
    slug, update, removal, new versions, publishing, the public view by slug
    and the owner's list. */
module Resumes {
  import opened Common
  import opened Db
  import opened Ordering
  import opened Slugs

  const MsgResumeNotFound := "Resume not found"
  const MsgSlugTaken := "Slug already taken"
  const MsgNoVersions := "Cannot publish resume without versions"

  /** The ownership guard of `findOne`: NotFound for a missing resume, then
      Forbidden for another user's. */
  function Owned(resumes: map<Id, Resume>, id: Id, userId: Id): (r: Result<Resume>)
    ensures r == Err(NotFound(MsgResumeNotFound)) <==> id !in resumes
    ensures r == Err(Forbidden(MsgAccessDenied)) <==> id in resumes && resumes[id].userId != userId
    ensures r.Ok? <==> id in resumes && resumes[id].userId == userId
    ensures r.Ok? ==> r.value == resumes[id]
  {
    if id !in resumes then Err(NotFound(MsgResumeNotFound))
    else if resumes[id].userId != userId then Err(Forbidden(MsgAccessDenied))
    else Ok(resumes[id])
  }

  /** A resume with all its versions, newest first. */
  datatype ResumeDetail = ResumeDetail(resume: Resume, versions: seq<ResumeVersion>)

  /** `findOne` */
  function FindOne(t: Tables, id: Id, userId: Id): (r: Result<ResumeDetail>)
    requires VersionsKeyed(t.versions, t.nextId)
    ensures r.Err? ==> Owned(t.resumes, id, userId) == Err(r.error)
    ensures r.Ok? ==> Owned(t.resumes, id, userId) == Ok(r.value.resume)
    ensures r.Ok? ==> forall k :: k in t.versions && t.versions[k].resumeId == id ==> t.versions[k] in r.value.versions
    ensures r.Ok? ==> forall i :: 0 <= i < |r.value.versions| ==>
      r.value.versions[i] in t.versions.Values && r.value.versions[i].resumeId == id
    ensures r.Ok? ==> forall i, j :: 0 <= i < j < |r.value.versions| ==> r.value.versions[i].id > r.value.versions[j].id
  {
    var resume :- Owned(t.resumes, id, userId);
    Ok(ResumeDetail(resume, VersionsOf(t.versions, t.nextId, id)))
  }

  /** The fields `create` accepts. The title is non-empty. */
  datatype NewResume = NewResume(title: string, slug: Option<string>, description: Option<string>)

  /** The fields `update` accepts; an absent field is left unchanged. */
  datatype ResumePatch = ResumePatch(title: Option<string>, description: Option<string>, isPublished: Option<bool>)

  /** The resume after `update` at time `now`: the patched fields change,
      the id, owner and slug never do. */
  function Patched(r: Resume, p: ResumePatch, now: nat): (u: Resume)
    ensures u.id == r.id && u.userId == r.userId && u.slug == r.slug && u.updatedAt == now
    ensures u.title == p.title.GetOr(r.title) && u.isPublished == p.isPublished.GetOr(r.isPublished)
    ensures u.description == (if p.description.Some? then p.description else r.description)
  {
    r.(title := p.title.GetOr(r.title),
       description := if p.description.Some? then p.description else r.description,
       isPublished := p.isPublished.GetOr(r.isPublished),
       updatedAt := now)
  }

  /** The checks of `publish`: the guard, then at least one version. The
      result is the resume with only its published flag (and the update
      time) changed. */
  function PublishCheck(t: Tables, id: Id, userId: Id, now: nat): (r: Result<Resume>)
    requires VersionsKeyed(t.versions, t.nextId)
    ensures Owned(t.resumes, id, userId).Err? ==> r == Err(Owned(t.resumes, id, userId).error)
    ensures Owned(t.resumes, id, userId).Ok? && (forall k :: k in t.versions ==> t.versions[k].resumeId != id) ==>
      r == Err(Conflict(MsgNoVersions))
    ensures r.Ok? <==> Owned(t.resumes, id, userId).Ok? && exists k :: k in t.versions && t.versions[k].resumeId == id
    ensures r.Ok? ==> r.value == t.resumes[id].(isPublished := true, updatedAt := now)
  {
    var detail :- FindOne(t, id, userId);
    if detail.versions == [] then
      assert forall k :: k in t.versions ==> t.versions[k].resumeId != id;
      Err(Conflict(MsgNoVersions))
    else
      assert t.versions[detail.versions[0].id].resumeId == id;
      Ok(detail.resume.(isPublished := true, updatedAt := now))
  }

  /** The owner fields the public view of a resume carries (no e-mail). */
  datatype Author = Author(id: Id, name: Option<string>, headline: Option<string>, avatarUrl: Option<string>,
                           publicHandle: string)

  datatype SharedResume = SharedResume(resume: Resume, user: Author, versions: seq<ResumeVersion>)

  /** `getPublicResume`: the published resume with that slug, its author's
      public fields and its newest version; NotFound when no resume has the
      slug or it is not published. */
  function GetPublicResume(t: Tables, slug: string): (r: Result<SharedResume>)
    requires t.Valid()
    ensures r.Ok? <==> exists k :: k in t.resumes && t.resumes[k].slug == slug && t.resumes[k].isPublished
    ensures r.Err? ==> r.error == NotFound(MsgResumeNotFound)
    ensures r.Ok? ==> r.value.resume in t.resumes.Values && r.value.resume.slug == slug && r.value.resume.isPublished
    ensures r.Ok? ==> r.value.user.id == r.value.resume.userId && r.value.resume.userId in t.users
    ensures r.Ok? ==> var u := t.users[r.value.resume.userId];
      r.value.user == Author(u.id, u.name, u.headline, u.avatarUrl, u.publicHandle)
    ensures r.Ok? ==> r.value.versions == LatestVersion(t.versions, t.nextId, r.value.resume.id)
  {
    match ResumeBySlug(t.resumes, slug)
    case None => Err(NotFound(MsgResumeNotFound))
    case Some(id) =>
      var resume := t.resumes[id];
      if !resume.isPublished then Err(NotFound(MsgResumeNotFound))
      else
        var u := t.users[resume.userId];
        Ok(SharedResume(resume, Author(u.id, u.name, u.headline, u.avatarUrl, u.publicHandle),
                        LatestVersion(t.versions, t.nextId, id)))
  }

  /** Once `publish` has succeeded, the resume is reachable by its slug
      through the public view, with a version. */
  lemma PublishMakesPublic(t: Tables, id: Id, userId: Id, now: nat)
    requires t.Valid()
    ensures var p := PublishCheck(t, id, userId, now);
      p.Ok? ==>
        var t' := t.(resumes := t.resumes[id := p.value]);
        && t'.Valid()
        && GetPublicResume(t', p.value.slug).Ok?
        && GetPublicResume(t', p.value.slug).value.resume == p.value
        && |GetPublicResume(t', p.value.slug).value.versions| == 1
  {
    var p := PublishCheck(t, id, userId, now);
    if p.Ok? {
      var t' := t.(resumes := t.resumes[id := p.value]);
      ReplaceResumeValid(t, p.value);
      assert t'.resumes[id].slug == p.value.slug;
      var found := ResumeBySlug(t'.resumes, p.value.slug);
      assert found == Some(id);
    }
  }

  /** Replacing a resume by one with the same id, owner and slug keeps the
      table's invariant. */
  lemma ReplaceResumeValid(t: Tables, r: Resume)
    requires t.Valid() && r.id in t.resumes
    requires r.userId == t.resumes[r.id].userId && r.slug == t.resumes[r.id].slug
    ensures t.(resumes := t.resumes[r.id := r]).Valid()
  {
    var resumes := t.resumes[r.id := r];
    assert forall k :: k in resumes ==> resumes[k].slug == t.resumes[k].slug && resumes[k].userId == t.resumes[k].userId;
  }

  /** A resume in the owner's list: the newest version and the number of
      versions. */
  datatype ResumeSummary = ResumeSummary(resume: Resume, versions: seq<ResumeVersion>, versionCount: nat)

  function ResumeUpdatedAt(r: Resume): int {
    r.updatedAt
  }

  function OwnedBy(userId: Id): Resume -> bool {
    (r: Resume) => r.userId == userId
  }

  function Summaries(rs: seq<Resume>, versions: map<Id, ResumeVersion>, n: nat): (r: seq<ResumeSummary>)
    requires VersionsKeyed(versions, n)
    ensures |r| == |rs|
    ensures forall i :: 0 <= i < |r| ==> r[i].resume == rs[i]
    ensures forall i :: 0 <= i < |r| ==> r[i].versions == LatestVersion(versions, n, rs[i].id)
    ensures forall i :: 0 <= i < |r| ==> r[i].versionCount == VersionCount(versions, n, rs[i].id)
  {
    seq(|rs|, i requires 0 <= i < |rs| =>
      ResumeSummary(rs[i], LatestVersion(versions, n, rs[i].id), VersionCount(versions, n, rs[i].id)))
  }

  /** `_count: { select: { versions: true } }`: how many version rows point
      at the resume, which is the length of its version list. */
  function VersionCount(versions: map<Id, ResumeVersion>, n: nat, resumeId: Id): (c: nat)
    requires VersionsKeyed(versions, n)
    ensures c == |VersionsOf(versions, n, resumeId)|
    ensures c == 0 <==> forall k :: k in versions ==> versions[k].resumeId != resumeId
  {
    var ids := set k | k in versions && versions[k].resumeId == resumeId;
    ListedVersionsCounted(versions, n, resumeId);
    assert forall k :: k in versions && versions[k].resumeId == resumeId ==> k in ids;
    |ids|
  }

  /** A resume's version list holds one entry per version row. */
  lemma ListedVersionsCounted(versions: map<Id, ResumeVersion>, n: nat, resumeId: Id)
    requires VersionsKeyed(versions, n)
    ensures |VersionsOf(versions, n, resumeId)| == |set k | k in versions && versions[k].resumeId == resumeId|
  {
    var ofResume := OfResume(resumeId);
    assert |VersionsOf(versions, n, resumeId)| == |SelectNewestFirst(versions, ofResume, n)|;
    SelectedCount(versions, ofResume, n);
    assert MatchingKeys(versions, ofResume, n) == set k | k in versions && versions[k].resumeId == resumeId;
  }

  /** `findMany({ where: { userId }, orderBy: { updatedAt: 'desc' } })`:
      the user's rows, most recently updated first. */
  function OwnedSorted(resumes: map<Id, Resume>, n: nat, userId: Id): (s: seq<Resume>)
    requires ResumesKeyed(resumes, n)
    ensures forall i :: 0 <= i < |s| ==> s[i] in resumes.Values && s[i].userId == userId
    ensures forall i, j :: 0 <= i < j < |s| ==> s[i].updatedAt >= s[j].updatedAt
    ensures forall k :: 0 <= k < n && k in resumes && resumes[k].userId == userId ==> resumes[k] in s
    ensures forall i, j :: 0 <= i < j < |s| ==> s[i] != s[j]
  {
    assert Injective(resumes);
    var s := SelectSorted(resumes, OwnedBy(userId), n, ResumeUpdatedAt);
    assert forall i :: 0 <= i < |s| ==> OwnedBy(userId)(s[i]);
    assert forall i, j :: 0 <= i < j < |s| ==> ResumeUpdatedAt(s[i]) >= ResumeUpdatedAt(s[j]);
    assert forall k :: 0 <= k < n && k in resumes && resumes[k].userId == userId ==> OwnedBy(userId)(resumes[k]);
    s
  }

  /** Summaries made from the owner's sorted resumes list exactly those
      resumes, in the same order. */
  lemma ListedInOrder(resumes: map<Id, Resume>, n: nat, userId: Id, sorted: seq<Resume>, r: seq<ResumeSummary>)
    requires |r| == |sorted| && forall i :: 0 <= i < |r| ==> r[i].resume == sorted[i]
    requires forall i :: 0 <= i < |sorted| ==> sorted[i] in resumes.Values && sorted[i].userId == userId
    requires forall i, j :: 0 <= i < j < |sorted| ==> sorted[i].updatedAt >= sorted[j].updatedAt
    requires forall k :: 0 <= k < n && k in resumes && resumes[k].userId == userId ==> resumes[k] in sorted
    requires forall i, j :: 0 <= i < j < |sorted| ==> sorted[i] != sorted[j]
    ensures forall i :: 0 <= i < |r| ==> r[i].resume in resumes.Values && r[i].resume.userId == userId
    ensures forall i, j :: 0 <= i < j < |r| ==> r[i].resume != r[j].resume
    ensures forall i, j :: 0 <= i < j < |r| ==> r[i].resume.updatedAt >= r[j].resume.updatedAt
    ensures forall k :: 0 <= k < n && k in resumes && resumes[k].userId == userId ==>
      exists i :: 0 <= i < |r| && r[i].resume == resumes[k]
  {
    forall i | 0 <= i < |r| ensures r[i].resume in resumes.Values && r[i].resume.userId == userId {
      assert r[i].resume == sorted[i];
    }
    forall k | 0 <= k < n && k in resumes && resumes[k].userId == userId
      ensures exists i :: 0 <= i < |r| && r[i].resume == resumes[k]
    {
      var i :| 0 <= i < |sorted| && sorted[i] == resumes[k];
      assert r[i].resume == resumes[k];
    }
  }

  /** `findAll`: the caller's resumes, each once, most recently updated
      first, each with its newest version and version count. */
  function FindAll(t: Tables, userId: Id): (r: seq<ResumeSummary>)
    requires ResumesKeyed(t.resumes, t.nextId) && VersionsKeyed(t.versions, t.nextId)
    ensures forall i :: 0 <= i < |r| ==> r[i].resume in t.resumes.Values && r[i].resume.userId == userId
    ensures forall i, j :: 0 <= i < j < |r| ==> r[i].resume.updatedAt >= r[j].resume.updatedAt
    ensures forall k :: 0 <= k < t.nextId && k in t.resumes && t.resumes[k].userId == userId ==>
      exists i :: 0 <= i < |r| && r[i].resume == t.resumes[k]
    ensures forall i, j :: 0 <= i < j < |r| ==> r[i].resume != r[j].resume
    ensures forall i :: 0 <= i < |r| ==>
      && r[i].versions == LatestVersion(t.versions, t.nextId, r[i].resume.id)
      && r[i].versionCount == VersionCount(t.versions, t.nextId, r[i].resume.id)
  {
    var sorted := OwnedSorted(t.resumes, t.nextId, userId);
    var r := Summaries(sorted, t.versions, t.nextId);
    ListedInOrder(t.resumes, t.nextId, userId, sorted, r);
    r
  }

  class ResumesService {
    const db: Database

    constructor (db: Database)
      ensures this.db == db
    {
      this.db := db;
    }

    /** `create`: the supplied slug, or one derived from the title, must be
        free across all users' resumes; the new resume is unpublished. */
    method Create(userId: Id, dto: NewResume, now: nat) returns (r: Result<Resume>)
      requires db.Valid() && |dto.title| >= 1
      modifies db`resumes, db`nextId
      ensures db.Valid()
      ensures var slug := ResolveSlug(dto.slug, dto.title);
        && (slug in old(SlugsOf(db.resumes)) ==>
              r == Err(Conflict(MsgSlugTaken)) && unchanged(db`resumes, db`nextId))
        && (slug !in old(SlugsOf(db.resumes)) && userId !in db.users ==>
              r == Err(DatabaseError(ForeignKeyViolation)) && unchanged(db`resumes, db`nextId))
        && (slug !in old(SlugsOf(db.resumes)) && userId in db.users ==>
              var created := Resume(old(db.nextId), userId, dto.title, slug, dto.description, false, now);
              && r == Ok(created)
              && db.resumes == old(db.resumes)[created.id := created]
              && db.nextId == old(db.nextId) + 1)
    {
      var slug := ResolveSlug(dto.slug, dto.title);
      var existing := ResumeBySlug(db.resumes, slug);
      if existing.Some? {
        return Err(Conflict(MsgSlugTaken));
      }
      if userId !in db.users {
        return Err(DatabaseError(ForeignKeyViolation));
      }
      var created := Resume(db.nextId, userId, dto.title, slug, dto.description, false, now);
      AddResumeValid(db.Snapshot(), created);
      db.resumes := db.resumes[created.id := created];
      db.nextId := db.nextId + 1;
      r := Ok(created);
    }

    /** `update`: the guard, then the patch. */
    method Update(id: Id, userId: Id, p: ResumePatch, now: nat) returns (r: Result<Resume>)
      requires db.Valid()
      modifies db`resumes
      ensures db.Valid()
      ensures var guard := Owned(old(db.resumes), id, userId);
        && (guard.Err? ==> r == Err(guard.error) && db.resumes == old(db.resumes))
        && (guard.Ok? ==> r == Ok(Patched(guard.value, p, now)) && db.resumes == old(db.resumes)[id := r.value])
    {
      var guard := Owned(db.resumes, id, userId);
      if guard.Err? {
        return Err(guard.error);
      }
      var updated := Patched(guard.value, p, now);
      ReplaceResumeValid(db.Snapshot(), updated);
      db.resumes := db.resumes[id := updated];
      r := Ok(updated);
    }

    /** `remove`: the guard, then the resume is deleted. */
    method Remove(id: Id, userId: Id) returns (r: Result<Resume>)
      requires db.Valid()
      modifies db`resumes
      ensures db.Valid()
      ensures var guard := Owned(old(db.resumes), id, userId);
        && (guard.Err? ==> r == Err(guard.error) && db.resumes == old(db.resumes))
        && (guard.Ok? ==> r == guard && db.resumes == old(db.resumes) - {id})
    {
      r := Owned(db.resumes, id, userId);
      if r.Err? {
        return;
      }
      db.resumes := db.resumes - {id};
    }

    /** `createVersion`: the guard, then a new version of the resume. */
    method CreateVersion(id: Id, userId: Id, content: string, versionTag: Option<string>)
      returns (r: Result<ResumeVersion>)
      requires db.Valid()
      modifies db`versions, db`nextId
      ensures db.Valid()
      ensures var guard := Owned(db.resumes, id, userId);
        && (guard.Err? ==> r == Err(guard.error) && unchanged(db`versions, db`nextId))
        && (guard.Ok? ==>
              var created := ResumeVersion(old(db.nextId), id, content, versionTag);
              && r == Ok(created)
              && db.versions == old(db.versions)[created.id := created]
              && db.nextId == old(db.nextId) + 1)
    {
      var guard := Owned(db.resumes, id, userId);
      if guard.Err? {
        return Err(guard.error);
      }
      var created := ResumeVersion(db.nextId, id, content, versionTag);
      Db.CounterGrows(db.Snapshot(), db.nextId + 1);
      db.versions := db.versions[created.id := created];
      db.nextId := db.nextId + 1;
      r := Ok(created);
    }

    /** `publish`: the guard, at least one version, then the published flag. */
    method Publish(id: Id, userId: Id, now: nat) returns (r: Result<Resume>)
      requires db.Valid()
      modifies db`resumes
      ensures db.Valid()
      ensures var check := PublishCheck(old(db.Snapshot()), id, userId, now);
        && (check.Err? ==> r == check && db.resumes == old(db.resumes))
        && (check.Ok? ==> r == check && db.resumes == old(db.resumes)[id := check.value])
    {
      var guard := Owned(db.resumes, id, userId);
      if guard.Err? {
        return Err(guard.error);
      }
      var versions := VersionsOf(db.versions, db.nextId, id);
      if versions == [] {
        return Err(Conflict(MsgNoVersions));
      }
      var published := guard.value.(isPublished := true, updatedAt := now);
      ReplaceResumeValid(db.Snapshot(), published);
      db.resumes := db.resumes[id := published];
      r := Ok(published);
    }
  }

  /** The slugs in use. */
  function SlugsOf(resumes: map<Id, Resume>): set<string> {
    set k | k in resumes :: resumes[k].slug
  }

  /** Adding a resume under the fresh id, with an unused slug and an
      existing owner, keeps the table's invariant. */
  lemma AddResumeValid(t: Tables, r: Resume)
    requires t.Valid() && r.id == t.nextId && r.userId in t.users
    requires forall k :: k in t.resumes ==> t.resumes[k].slug != r.slug
    ensures t.(resumes := t.resumes[r.id := r], nextId := t.nextId + 1).Valid()
  {
    Db.CounterGrows(t, t.nextId + 1);
  }
}
