/** Projects and their media: the ownership guard, creation with a unique
    slug, update, removal, adding and removing media, and the owner's list. */
module Projects {
  import opened Common
  import opened Db
  import opened Ordering
  import opened Slugs

  const MsgProjectNotFound := "Project not found"
  const MsgSlugTaken := "Slug already taken"
  const MsgMediaNotFound := "Media not found"

  /** The ownership guard of `findOne`: NotFound for a missing project, then
      Forbidden for another user's. */
  function Owned(projects: map<Id, Project>, id: Id, userId: Id): (r: Result<Project>)
    ensures r == Err(NotFound(MsgProjectNotFound)) <==> id !in projects
    ensures r == Err(Forbidden(MsgAccessDenied)) <==> id in projects && projects[id].userId != userId
    ensures r.Ok? <==> id in projects && projects[id].userId == userId
    ensures r.Ok? ==> r.value == projects[id]
  {
    if id !in projects then Err(NotFound(MsgProjectNotFound))
    else if projects[id].userId != userId then Err(Forbidden(MsgAccessDenied))
    else Ok(projects[id])
  }

  /** A project with its media. */
  datatype ProjectDetail = ProjectDetail(project: Project, media: seq<ProjectMedia>)

  /** `findOne` */
  function FindOne(t: Tables, id: Id, userId: Id): (r: Result<ProjectDetail>)
    requires MediaKeyed(t.media, t.nextId)
    ensures r.Err? ==> Owned(t.projects, id, userId) == Err(r.error)
    ensures r.Ok? ==> Owned(t.projects, id, userId) == Ok(r.value.project)
    ensures r.Ok? ==> forall k :: k in t.media && t.media[k].projectId == id ==> t.media[k] in r.value.media
    ensures r.Ok? ==> forall i :: 0 <= i < |r.value.media| ==>
      r.value.media[i] in t.media.Values && r.value.media[i].projectId == id
    ensures r.Ok? ==> Distinct(r.value.media)
    ensures r.Ok? ==> r.value.media == MediaOf(t.media, t.nextId, id)
  {
    var project :- Owned(t.projects, id, userId);
    Ok(ProjectDetail(project, MediaOf(t.media, t.nextId, id)))
  }

  /** The fields `create` accepts. The title is non-empty. */
  datatype NewProject = NewProject(
    title: string,
    slug: Option<string>,
    shortDesc: Option<string>,
    description: Option<string>,
    techStack: Option<seq<string>>)

  /** The project `create` stores: the DTO's title and descriptions, the
      resolved slug, the caller as owner, the given tech stack or none, the
      column's default visibility and the creation time. */
  function Created(id: Id, userId: Id, dto: NewProject, visibility: Visibility, now: nat): (p: Project)
    ensures p.id == id && p.userId == userId && p.slug == ResolveSlug(dto.slug, dto.title)
    ensures p.title == dto.title && p.shortDesc == dto.shortDesc && p.description == dto.description
    ensures p.visibility == visibility && p.updatedAt == now
    ensures dto.techStack.Some? ==> p.techStack == dto.techStack.value
    ensures dto.techStack.None? ==> p.techStack == []
  {
    Project(id, userId, dto.title, ResolveSlug(dto.slug, dto.title), dto.shortDesc, dto.description,
            dto.techStack.GetOr([]), visibility, now)
  }

  /** The fields `update` accepts; an absent field is left unchanged. */
  datatype ProjectPatch = ProjectPatch(
    title: Option<string>,
    shortDesc: Option<string>,
    description: Option<string>,
    techStack: Option<seq<string>>,
    visibility: Option<Visibility>)

  /** The project after `update` at time `now`: the patched fields change,
      the id, owner and slug never do. */
  function Patched(p: Project, patch: ProjectPatch, now: nat): (u: Project)
    ensures u.id == p.id && u.userId == p.userId && u.slug == p.slug && u.updatedAt == now
    ensures u.title == patch.title.GetOr(p.title) && u.techStack == patch.techStack.GetOr(p.techStack)
    ensures u.visibility == patch.visibility.GetOr(p.visibility)
    ensures u.shortDesc == (if patch.shortDesc.Some? then patch.shortDesc else p.shortDesc)
    ensures u.description == (if patch.description.Some? then patch.description else p.description)
  {
    p.(title := patch.title.GetOr(p.title),
       shortDesc := if patch.shortDesc.Some? then patch.shortDesc else p.shortDesc,
       description := if patch.description.Some? then patch.description else p.description,
       techStack := patch.techStack.GetOr(p.techStack),
       visibility := patch.visibility.GetOr(p.visibility),
       updatedAt := now)
  }

  /** The checks of `removeMedia`: the project guard, then a media record
      that exists and belongs to that project. */
  function MediaCheck(t: Tables, projectId: Id, mediaId: Id, userId: Id): (r: Result<ProjectMedia>)
    ensures Owned(t.projects, projectId, userId).Err? ==> r == Err(Owned(t.projects, projectId, userId).error)
    ensures Owned(t.projects, projectId, userId).Ok? ==>
      (r.Ok? <==> mediaId in t.media && t.media[mediaId].projectId == projectId)
    ensures Owned(t.projects, projectId, userId).Ok? && r.Err? ==> r.error == NotFound(MsgMediaNotFound)
    ensures r.Ok? ==> r.value == t.media[mediaId]
  {
    var _ :- Owned(t.projects, projectId, userId);
    if mediaId !in t.media || t.media[mediaId].projectId != projectId then Err(NotFound(MsgMediaNotFound))
    else Ok(t.media[mediaId])
  }

  /** A project in the owner's list, with its media and their count. */
  datatype ProjectSummary = ProjectSummary(project: Project, media: seq<ProjectMedia>, mediaCount: nat)

  function ProjectUpdatedAt(p: Project): int {
    p.updatedAt
  }

  function OwnedBy(userId: Id): Project -> bool {
    (p: Project) => p.userId == userId
  }

  function Summaries(ps: seq<Project>, media: map<Id, ProjectMedia>, n: nat): (r: seq<ProjectSummary>)
    requires MediaKeyed(media, n)
    ensures |r| == |ps|
    ensures forall i :: 0 <= i < |r| ==> r[i].project == ps[i]
    ensures forall i :: 0 <= i < |r| ==> r[i].media == MediaOf(media, n, ps[i].id)
    ensures forall i :: 0 <= i < |r| ==> r[i].mediaCount == |r[i].media|
  {
    assert forall i :: 0 <= i < |ps| ==>
      |set k | k in media && media[k].projectId == ps[i].id| == |MediaOf(media, n, ps[i].id)| by {
      forall i | 0 <= i < |ps| {
        MediaCounted(media, n, ps[i].id);
      }
    }
    seq(|ps|, i requires 0 <= i < |ps| =>
      ProjectSummary(ps[i], MediaOf(media, n, ps[i].id), |set k | k in media && media[k].projectId == ps[i].id|))
  }

  /** `_count: { select: { media: true } }` agrees with the media listed. */
  lemma MediaCounted(media: map<Id, ProjectMedia>, n: nat, projectId: Id)
    requires MediaKeyed(media, n)
    ensures |set k | k in media && media[k].projectId == projectId| == |MediaOf(media, n, projectId)|
  {
    var listed := SelectNewestFirst(media, OfProject(projectId), n);
    var rows := set k | k in media && media[k].projectId == projectId;
    var keys := MatchingKeys(media, OfProject(projectId), n);
    SelectedCount(media, OfProject(projectId), n);
    assert |listed| == |keys|;
    assert rows == keys by {
      assert forall k :: k in keys <==> k < n && k in media && OfProject(projectId)(media[k]);
    }
    assert MediaOf(media, n, projectId) == listed;
  }

  /** `findMany({ where: { userId }, orderBy: { updatedAt: 'desc' } })`:
      the user's rows, most recently updated first. */
  function OwnedSorted(projects: map<Id, Project>, n: nat, userId: Id): (s: seq<Project>)
    requires ProjectsKeyed(projects, n)
    ensures forall i :: 0 <= i < |s| ==> s[i] in projects.Values && s[i].userId == userId
    ensures forall i, j :: 0 <= i < j < |s| ==> s[i].updatedAt >= s[j].updatedAt
    ensures forall k :: 0 <= k < n && k in projects && projects[k].userId == userId ==> projects[k] in s
    ensures forall i, j :: 0 <= i < j < |s| ==> s[i] != s[j]
  {
    assert Injective(projects);
    var s := SelectSorted(projects, OwnedBy(userId), n, ProjectUpdatedAt);
    assert forall i :: 0 <= i < |s| ==> OwnedBy(userId)(s[i]);
    assert forall i, j :: 0 <= i < j < |s| ==> ProjectUpdatedAt(s[i]) >= ProjectUpdatedAt(s[j]);
    assert forall k :: 0 <= k < n && k in projects && projects[k].userId == userId ==> OwnedBy(userId)(projects[k]);
    s
  }

  /** Summaries made from the owner's sorted projects list exactly those
      projects, in the same order. */
  lemma ListedInOrder(projects: map<Id, Project>, n: nat, userId: Id, sorted: seq<Project>, r: seq<ProjectSummary>)
    requires |r| == |sorted| && forall i :: 0 <= i < |r| ==> r[i].project == sorted[i]
    requires forall i :: 0 <= i < |sorted| ==> sorted[i] in projects.Values && sorted[i].userId == userId
    requires forall i, j :: 0 <= i < j < |sorted| ==> sorted[i].updatedAt >= sorted[j].updatedAt
    requires forall k :: 0 <= k < n && k in projects && projects[k].userId == userId ==> projects[k] in sorted
    requires forall i, j :: 0 <= i < j < |sorted| ==> sorted[i] != sorted[j]
    ensures forall i :: 0 <= i < |r| ==> r[i].project in projects.Values && r[i].project.userId == userId
    ensures forall i, j :: 0 <= i < j < |r| ==> r[i].project != r[j].project
    ensures forall i, j :: 0 <= i < j < |r| ==> r[i].project.updatedAt >= r[j].project.updatedAt
    ensures forall k :: 0 <= k < n && k in projects && projects[k].userId == userId ==>
      exists i :: 0 <= i < |r| && r[i].project == projects[k]
  {
    forall i | 0 <= i < |r| ensures r[i].project in projects.Values && r[i].project.userId == userId {
      assert r[i].project == sorted[i];
    }
    forall k | 0 <= k < n && k in projects && projects[k].userId == userId
      ensures exists i :: 0 <= i < |r| && r[i].project == projects[k]
    {
      var i :| 0 <= i < |sorted| && sorted[i] == projects[k];
      assert r[i].project == projects[k];
    }
  }

  /** `findAll`: the caller's projects, each once, most recently updated
      first, each with its media and their count. */
  function FindAll(t: Tables, userId: Id): (r: seq<ProjectSummary>)
    requires ProjectsKeyed(t.projects, t.nextId) && MediaKeyed(t.media, t.nextId)
    ensures forall i :: 0 <= i < |r| ==> r[i].project in t.projects.Values && r[i].project.userId == userId
    ensures forall i, j :: 0 <= i < j < |r| ==> r[i].project.updatedAt >= r[j].project.updatedAt
    ensures forall k :: 0 <= k < t.nextId && k in t.projects && t.projects[k].userId == userId ==>
      exists i :: 0 <= i < |r| && r[i].project == t.projects[k]
    ensures forall i, j :: 0 <= i < j < |r| ==> r[i].project != r[j].project
    ensures forall i :: 0 <= i < |r| ==>
      r[i].media == MediaOf(t.media, t.nextId, r[i].project.id) && r[i].mediaCount == |r[i].media|
  {
    var sorted := OwnedSorted(t.projects, t.nextId, userId);
    var r := Summaries(sorted, t.media, t.nextId);
    ListedInOrder(t.projects, t.nextId, userId, sorted, r);
    r
  }

  /** The slugs in use. */
  function SlugsOf(projects: map<Id, Project>): set<string> {
    set k | k in projects :: projects[k].slug
  }

  /** Adding a project under the fresh id, with an unused slug and an
      existing owner, keeps the table's invariant. */
  lemma AddProjectValid(t: Tables, p: Project)
    requires t.Valid() && p.id == t.nextId && p.userId in t.users
    requires forall k :: k in t.projects ==> t.projects[k].slug != p.slug
    ensures t.(projects := t.projects[p.id := p], nextId := t.nextId + 1).Valid()
  {
    Db.CounterGrows(t, t.nextId + 1);
    var projects := t.projects[p.id := p];
    assert ProjectsKeyed(projects, t.nextId + 1);
    assert ProjectSlugsUnique(projects);
    assert OwnersExist(t.users.Keys, t.profiles, t.resumes, projects, t.achievements);
  }

  /** Replacing a project by one with the same id, owner and slug keeps the
      table's invariant. */
  lemma ReplaceProjectValid(t: Tables, p: Project)
    requires t.Valid() && p.id in t.projects
    requires p.userId == t.projects[p.id].userId && p.slug == t.projects[p.id].slug
    ensures t.(projects := t.projects[p.id := p]).Valid()
  {
    var projects := t.projects[p.id := p];
    assert forall k :: k in projects ==> projects[k].slug == t.projects[k].slug && projects[k].userId == t.projects[k].userId;
  }

  class ProjectsService {
    const db: Database

    constructor (db: Database)
      ensures this.db == db
    {
      this.db := db;
    }

    /** `create`: the supplied slug, or one derived from the title, must be
        free across all users' projects. */
    method Create(userId: Id, dto: NewProject, now: nat) returns (r: Result<Project>)
      requires db.Valid() && |dto.title| >= 1
      modifies db`projects, db`nextId
      ensures db.Valid()
      ensures var slug := ResolveSlug(dto.slug, dto.title);
        && (slug in old(SlugsOf(db.projects)) ==>
              r == Err(Conflict(MsgSlugTaken)) && unchanged(db`projects, db`nextId))
        && (slug !in old(SlugsOf(db.projects)) && userId !in db.users ==>
              r == Err(DatabaseError(ForeignKeyViolation)) && unchanged(db`projects, db`nextId))
        && (slug !in old(SlugsOf(db.projects)) && userId in db.users ==>
              var created := Created(old(db.nextId), userId, dto, db.defaults.projectVisibility, now);
              && r == Ok(created)
              && db.projects == old(db.projects)[created.id := created]
              && db.nextId == old(db.nextId) + 1)
    {
      var slug := ResolveSlug(dto.slug, dto.title);
      var existing := ProjectBySlug(db.projects, slug);
      if existing.Some? {
        return Err(Conflict(MsgSlugTaken));
      }
      if userId !in db.users {
        return Err(DatabaseError(ForeignKeyViolation));
      }
      var created := Created(db.nextId, userId, dto, db.defaults.projectVisibility, now);
      AddProjectValid(db.Snapshot(), created);
      db.projects := db.projects[created.id := created];
      db.nextId := db.nextId + 1;
      r := Ok(created);
    }

    /** `update`: the guard, then the patch. */
    method Update(id: Id, userId: Id, patch: ProjectPatch, now: nat) returns (r: Result<Project>)
      requires db.Valid()
      modifies db`projects
      ensures db.Valid()
      ensures var guard := Owned(old(db.projects), id, userId);
        && (guard.Err? ==> r == Err(guard.error) && db.projects == old(db.projects))
        && (guard.Ok? ==> r == Ok(Patched(guard.value, patch, now)) && db.projects == old(db.projects)[id := r.value])
    {
      var guard := Owned(db.projects, id, userId);
      if guard.Err? {
        return Err(guard.error);
      }
      var updated := Patched(guard.value, patch, now);
      ReplaceProjectValid(db.Snapshot(), updated);
      db.projects := db.projects[id := updated];
      r := Ok(updated);
    }

    /** `remove`: the guard, then the project is deleted. */
    method Remove(id: Id, userId: Id) returns (r: Result<Project>)
      requires db.Valid()
      modifies db`projects
      ensures db.Valid()
      ensures var guard := Owned(old(db.projects), id, userId);
        && (guard.Err? ==> r == Err(guard.error) && db.projects == old(db.projects))
        && (guard.Ok? ==> r == guard && db.projects == old(db.projects) - {id})
    {
      r := Owned(db.projects, id, userId);
      if r.Err? {
        return;
      }
      db.projects := db.projects - {id};
    }

    /** `addMedia`: the guard, then a new media record of the project. The
        media type is stored as given; the database's check that it names a
        media type is not modelled. */
    method AddMedia(id: Id, userId: Id, url: string, mediaType: string, altText: Option<string>)
      returns (r: Result<ProjectMedia>)
      requires db.Valid()
      modifies db`media, db`nextId
      ensures db.Valid()
      ensures var guard := Owned(db.projects, id, userId);
        && (guard.Err? ==> r == Err(guard.error) && unchanged(db`media, db`nextId))
        && (guard.Ok? ==>
              var created := ProjectMedia(old(db.nextId), id, url, mediaType, altText);
              && r == Ok(created)
              && db.media == old(db.media)[created.id := created]
              && db.nextId == old(db.nextId) + 1)
    {
      var guard := Owned(db.projects, id, userId);
      if guard.Err? {
        return Err(guard.error);
      }
      var created := ProjectMedia(db.nextId, id, url, mediaType, altText);
      Db.CounterGrows(db.Snapshot(), db.nextId + 1);
      db.media := db.media[created.id := created];
      db.nextId := db.nextId + 1;
      r := Ok(created);
    }

    /** `removeMedia`: the checks of `MediaCheck`, then exactly that media
        record is deleted. */
    method RemoveMedia(projectId: Id, mediaId: Id, userId: Id) returns (r: Result<ProjectMedia>)
      requires db.Valid()
      modifies db`media
      ensures db.Valid()
      ensures var check := MediaCheck(old(db.Snapshot()), projectId, mediaId, userId);
        && r == check
        && (check.Err? ==> db.media == old(db.media))
        && (check.Ok? ==> db.media == old(db.media) - {mediaId})
    {
      var guard := Owned(db.projects, projectId, userId);
      if guard.Err? {
        return Err(guard.error);
      }
      if mediaId !in db.media || db.media[mediaId].projectId != projectId {
        return Err(NotFound(MsgMediaNotFound));
      }
      r := Ok(db.media[mediaId]);
      db.media := db.media - {mediaId};
    }
  }
}
