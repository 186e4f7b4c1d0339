/** The persistent state every service reads and writes: one table per
    record type, held in memory. The unique constraints are the ones the
    services rely on when they look a row up by `email`, `publicHandle`,
    `slug` or `userId`; ids are allocated from a counter, so they are fresh
    and ordered by creation. */
module Db {
  import opened Common
  import opened Ordering

  /** A stored bcrypt hash. The model treats bcrypt as an ideal, collision
      free hash: the image determines the password, and nothing but
      `Auth.VerifyPassword` inspects it. */
  datatype PasswordHash = PasswordHash(image: string)

  datatype User = User(
    id: Id,
    email: string,
    passwordHash: Option<PasswordHash>,
    refreshToken: Option<string>,
    publicHandle: string,
    name: Option<string>,
    headline: Option<string>,
    avatarUrl: Option<string>,
    locale: Option<string>)

  /** A user's profile; the table holds at most one per user, keyed by userId. */
  datatype Profile = Profile(userId: Id, bio: Option<string>, visible: bool)

  datatype Resume = Resume(
    id: Id,
    userId: Id,
    title: string,
    slug: string,
    description: Option<string>,
    isPublished: bool,
    updatedAt: nat)

  datatype ResumeVersion = ResumeVersion(id: Id, resumeId: Id, content: string, versionTag: Option<string>)

  datatype Visibility = Public | Private

  datatype Project = Project(
    id: Id,
    userId: Id,
    title: string,
    slug: string,
    shortDesc: Option<string>,
    description: Option<string>,
    techStack: seq<string>,
    visibility: Visibility,
    updatedAt: nat)

  datatype ProjectMedia = ProjectMedia(id: Id, projectId: Id, url: string, mediaType: string, altText: Option<string>)

  /** `date` is kept as the text the client sent; date parsing is not modelled. */
  datatype Achievement = Achievement(
    id: Id,
    userId: Id,
    title: string,
    body: Option<string>,
    date: Option<string>,
    link: Option<string>)

  /** Column defaults of the schema that the services rely on. */
  datatype Defaults = Defaults(profileVisible: bool, projectVisibility: Visibility)

  /** Foreign-key violation code of the database client. */
  const ForeignKeyViolation := "P2003"

  ghost predicate EmailsUnique(users: map<Id, User>) {
    forall i, j :: i in users && j in users && users[i].email == users[j].email ==> i == j
  }

  ghost predicate HandlesUnique(users: map<Id, User>) {
    forall i, j :: i in users && j in users && users[i].publicHandle == users[j].publicHandle ==> i == j
  }

  ghost predicate ResumeSlugsUnique(resumes: map<Id, Resume>) {
    forall i, j :: i in resumes && j in resumes && resumes[i].slug == resumes[j].slug ==> i == j
  }

  ghost predicate ProjectSlugsUnique(projects: map<Id, Project>) {
    forall i, j :: i in projects && j in projects && projects[i].slug == projects[j].slug ==> i == j
  }

  /** The handles in use. */
  function HandlesOf(users: map<Id, User>): set<string> {
    set id | id in users :: users[id].publicHandle
  }

  /** `user.findUnique({ where: { email } })` */
  function UserByEmail(users: map<Id, User>, email: string): (r: Option<Id>)
    requires EmailsUnique(users)
    ensures r.Some? ==> r.value in users && users[r.value].email == email
    ensures r.None? ==> forall id :: id in users ==> users[id].email != email
  {
    if exists id :: id in users && users[id].email == email then
      var id :| id in users && users[id].email == email; Some(id)
    else None
  }

  /** `user.findUnique({ where: { publicHandle } })` */
  function UserByHandle(users: map<Id, User>, handle: string): (r: Option<Id>)
    requires HandlesUnique(users)
    ensures r.Some? ==> r.value in users && users[r.value].publicHandle == handle
    ensures r.None? <==> handle !in HandlesOf(users)
  {
    if exists id :: id in users && users[id].publicHandle == handle then
      var id :| id in users && users[id].publicHandle == handle; Some(id)
    else None
  }

  /** `resume.findUnique({ where: { slug } })` */
  function ResumeBySlug(resumes: map<Id, Resume>, slug: string): (r: Option<Id>)
    requires ResumeSlugsUnique(resumes)
    ensures r.Some? ==> r.value in resumes && resumes[r.value].slug == slug
    ensures r.None? ==> forall id :: id in resumes ==> resumes[id].slug != slug
  {
    if exists id :: id in resumes && resumes[id].slug == slug then
      var id :| id in resumes && resumes[id].slug == slug; Some(id)
    else None
  }

  /** `project.findUnique({ where: { slug } })` */
  function ProjectBySlug(projects: map<Id, Project>, slug: string): (r: Option<Id>)
    requires ProjectSlugsUnique(projects)
    ensures r.Some? ==> r.value in projects && projects[r.value].slug == slug
    ensures r.None? ==> forall id :: id in projects ==> projects[id].slug != slug
  {
    if exists id :: id in projects && projects[id].slug == slug then
      var id :| id in projects && projects[id].slug == slug; Some(id)
    else None
  }

  /** Every user is stored under its own id, below the id counter. */
  ghost predicate UsersKeyed(users: map<Id, User>, nextId: nat) {
    forall k :: k in users ==> k < nextId && users[k].id == k
  }

  ghost predicate ProfilesKeyed(profiles: map<Id, Profile>) {
    forall k :: k in profiles ==> profiles[k].userId == k
  }

  ghost predicate ResumesKeyed(resumes: map<Id, Resume>, nextId: nat) {
    forall k :: k in resumes ==> k < nextId && resumes[k].id == k
  }

  ghost predicate VersionsKeyed(versions: map<Id, ResumeVersion>, nextId: nat) {
    forall k :: k in versions ==> k < nextId && versions[k].id == k
  }

  ghost predicate ProjectsKeyed(projects: map<Id, Project>, nextId: nat) {
    forall k :: k in projects ==> k < nextId && projects[k].id == k
  }

  ghost predicate MediaKeyed(media: map<Id, ProjectMedia>, nextId: nat) {
    forall k :: k in media ==> k < nextId && media[k].id == k
  }

  ghost predicate AchievementsKeyed(achievements: map<Id, Achievement>, nextId: nat) {
    forall k :: k in achievements ==> k < nextId && achievements[k].id == k
  }

  /** Rows owned by a user point at one of the given user ids. */
  ghost predicate OwnersExist(userIds: set<Id>, profiles: map<Id, Profile>, resumes: map<Id, Resume>,
                              projects: map<Id, Project>, achievements: map<Id, Achievement>) {
    && (forall k :: k in profiles ==> k in userIds)
    && (forall k :: k in resumes ==> resumes[k].userId in userIds)
    && (forall k :: k in projects ==> projects[k].userId in userIds)
    && (forall k :: k in achievements ==> achievements[k].userId in userIds)
  }

  /** The whole database as a value. */
  datatype Tables = Tables(
    users: map<Id, User>,
    profiles: map<Id, Profile>,
    resumes: map<Id, Resume>,
    versions: map<Id, ResumeVersion>,
    projects: map<Id, Project>,
    media: map<Id, ProjectMedia>,
    achievements: map<Id, Achievement>,
    nextId: nat)
  {
    /** Every row is stored under its own id and every id is below the
        counter, so the counter is a fresh id; owners exist; the unique
        columns are unique. */
    ghost predicate Valid() {
      && UsersKeyed(users, nextId)
      && ProfilesKeyed(profiles)
      && ResumesKeyed(resumes, nextId)
      && VersionsKeyed(versions, nextId)
      && ProjectsKeyed(projects, nextId)
      && MediaKeyed(media, nextId)
      && AchievementsKeyed(achievements, nextId)
      && OwnersExist(users.Keys, profiles, resumes, projects, achievements)
      && EmailsUnique(users)
      && HandlesUnique(users)
      && ResumeSlugsUnique(resumes)
      && ProjectSlugsUnique(projects)
    }
  }

  /** Raising the id counter keeps every table's rows below it. */
  lemma CounterGrows(t: Tables, n: nat)
    requires t.Valid() && t.nextId <= n
    ensures UsersKeyed(t.users, n) && ResumesKeyed(t.resumes, n) && VersionsKeyed(t.versions, n)
    ensures ProjectsKeyed(t.projects, n) && MediaKeyed(t.media, n) && AchievementsKeyed(t.achievements, n)
  {
  }

  /** Owners that exist among some users exist among more users. */
  lemma OwnersWiden(a: set<Id>, b: set<Id>, profiles: map<Id, Profile>, resumes: map<Id, Resume>,
                    projects: map<Id, Project>, achievements: map<Id, Achievement>)
    requires OwnersExist(a, profiles, resumes, projects, achievements) && a <= b
    ensures OwnersExist(b, profiles, resumes, projects, achievements)
  {
  }

  /** Rewriting a user's row keeps the database valid when the e-mail is
      kept and no other user holds the new handle. */
  lemma ReplaceUserValid(t: Tables, u: User)
    requires t.Valid() && u.id in t.users && u.email == t.users[u.id].email
    requires forall k :: k in t.users && k != u.id ==> t.users[k].publicHandle != u.publicHandle
    ensures t.(users := t.users[u.id := u]).Valid()
  {
    var users := t.users[u.id := u];
    assert users.Keys == t.users.Keys;
    ReplaceKeepsEmails(t.users, u);
    ReplaceKeepsHandles(t.users, u);
  }

  lemma ReplaceKeepsEmails(users: map<Id, User>, u: User)
    requires EmailsUnique(users) && u.id in users && u.email == users[u.id].email
    ensures EmailsUnique(users[u.id := u])
  {
    var users' := users[u.id := u];
    assert forall k :: k in users' ==> users'[k].email == users[k].email;
  }

  lemma ReplaceKeepsHandles(users: map<Id, User>, u: User)
    requires HandlesUnique(users) && u.id in users
    requires forall k :: k in users && k != u.id ==> users[k].publicHandle != u.publicHandle
    ensures HandlesUnique(users[u.id := u])
  {
  }

  /** Storing a new version of an existing resume under the counter and
      raising the counter keeps the database valid. */
  lemma AddVersionValid(t: Tables, v: ResumeVersion)
    requires t.Valid() && v.id == t.nextId && v.resumeId in t.resumes
    ensures t.(versions := t.versions[v.id := v], nextId := t.nextId + 1).Valid()
  {
    CounterGrows(t, t.nextId + 1);
  }

  /** The version stored last under the counter is the newest of its resume. */
  lemma NewestIsLatest(versions: map<Id, ResumeVersion>, n: nat, v: ResumeVersion)
    requires VersionsKeyed(versions, n) && v.id == n
    ensures LatestVersion(versions[n := v], n + 1, v.resumeId) == [v]
  {
    var latest := LatestVersion(versions[n := v], n + 1, v.resumeId);
    assert latest != [] && latest[0].id >= n;
  }

  /** The profiles of a user as the `profiles` relation lists them: the
      one stored under its id, if any. */
  function ProfilesOf(profiles: map<Id, Profile>, userId: Id): (r: seq<Profile>)
    ensures |r| <= 1
    ensures r == [] <==> userId !in profiles
    ensures r != [] ==> r[0] == profiles[userId]
  {
    if userId in profiles then [profiles[userId]] else []
  }

  function OfResume(resumeId: Id): ResumeVersion -> bool {
    (v: ResumeVersion) => v.resumeId == resumeId
  }

  function OfProject(projectId: Id): ProjectMedia -> bool {
    (m: ProjectMedia) => m.projectId == projectId
  }

  /** `versions: { orderBy: { createdAt: 'desc' } }`: a resume's versions,
      newest first. */
  function VersionsOf(versions: map<Id, ResumeVersion>, n: nat, resumeId: Id): (r: seq<ResumeVersion>)
    requires VersionsKeyed(versions, n)
    ensures forall i :: 0 <= i < |r| ==> r[i] in versions.Values && r[i].resumeId == resumeId
    ensures forall k :: k in versions && versions[k].resumeId == resumeId ==> versions[k] in r
    ensures forall i, j :: 0 <= i < j < |r| ==> r[i].id > r[j].id
  {
    var ids := IdsDesc(versions, OfResume(resumeId), n);
    var r := Rows(versions, ids);
    assert forall i :: 0 <= i < |r| ==> r[i].id == ids[i];
    assert forall k :: k in versions && versions[k].resumeId == resumeId ==> versions[k] in r by {
      forall k | k in versions && versions[k].resumeId == resumeId ensures versions[k] in r {
        var i :| 0 <= i < |ids| && ids[i] == k;
        assert r[i] == versions[k];
      }
    }
    r
  }

  /** `versions: { orderBy: { createdAt: 'desc' }, take: 1 }`: the newest
      version of a resume, as a list of at most one. */
  function LatestVersion(versions: map<Id, ResumeVersion>, n: nat, resumeId: Id): (r: seq<ResumeVersion>)
    requires VersionsKeyed(versions, n)
    ensures |r| <= 1
    ensures r == [] <==> forall k :: k in versions ==> versions[k].resumeId != resumeId
    ensures r != [] ==> r[0] in versions.Values && r[0].resumeId == resumeId
    ensures r != [] ==> forall k :: k in versions && versions[k].resumeId == resumeId ==> k <= r[0].id
  {
    var all := VersionsOf(versions, n, resumeId);
    if all == [] then []
    else
      assert forall k :: k in versions && versions[k].resumeId == resumeId ==> k <= all[0].id by {
        forall k | k in versions && versions[k].resumeId == resumeId ensures k <= all[0].id {
          var i :| 0 <= i < |all| && all[i] == versions[k];
          assert i == 0 || all[0].id > all[i].id;
        }
      }
      [all[0]]
  }

  /** `media: true`: a project's media, each row once. The query asks for
      no order; the model happens to list them newest first. */
  function MediaOf(media: map<Id, ProjectMedia>, n: nat, projectId: Id): (r: seq<ProjectMedia>)
    requires MediaKeyed(media, n)
    ensures forall i :: 0 <= i < |r| ==> r[i] in media.Values && r[i].projectId == projectId
    ensures forall k :: k in media && media[k].projectId == projectId ==> media[k] in r
    ensures Distinct(r)
  {
    assert Injective(media);
    SelectNewestFirst(media, OfProject(projectId), n)
  }

  class Database {
    var users: map<Id, User>
    var profiles: map<Id, Profile>
    var resumes: map<Id, Resume>
    var versions: map<Id, ResumeVersion>
    var projects: map<Id, Project>
    var media: map<Id, ProjectMedia>
    var achievements: map<Id, Achievement>
    var nextId: nat
    const defaults: Defaults

    function Snapshot(): Tables
      reads this
    {
      Tables(users, profiles, resumes, versions, projects, media, achievements, nextId)
    }

    ghost predicate Valid()
      reads this
    {
      Snapshot().Valid()
    }

    constructor (defaults: Defaults)
      ensures Valid() && this.defaults == defaults
      ensures Snapshot() == Tables(map[], map[], map[], map[], map[], map[], map[], 0)
    {
      users, profiles, resumes, versions := map[], map[], map[], map[];
      projects, media, achievements := map[], map[], map[];
      nextId := 0;
      this.defaults := defaults;
    }
  }
}
