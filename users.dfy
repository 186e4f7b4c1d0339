/** The user's own account and public profile: reading and updating the
    account, the public profile looked up by handle, and the profile upsert. */
module Users {
  import opened Common
  import opened Db
  import opened Ordering
  import opened Auth
  import Resumes
  import Projects
  import Achievements

  const MsgUserNotFound := "User not found"
  const MsgHandleTaken := "Public handle already taken"

  datatype Counts = Counts(resumes: nat, projects: nat, achievements: nat)

  /** What `getMe` returns: the account, its profiles and its row counts. */
  datatype Me = Me(account: Account, profiles: seq<Profile>, counts: Counts)

  /** `_count` of the user's resumes, projects and achievements: the
      number of rows of each table that the user owns. */
  function CountsOf(t: Tables, userId: Id): Counts {
    Counts(
      |set k | k in t.resumes && t.resumes[k].userId == userId|,
      |set k | k in t.projects && t.projects[k].userId == userId|,
      |set k | k in t.achievements && t.achievements[k].userId == userId|)
  }

  /** `getMe`: the caller's account without its password hash, with its
      profiles and counts; NotFound when the user does not exist. */
  function GetMe(t: Tables, userId: Id): (r: Result<Me>)
    ensures r.Err? <==> userId !in t.users
    ensures r.Err? ==> r.error == NotFound(MsgUserNotFound)
    ensures r.Ok? ==> r.value.account == WithoutHash(t.users[userId])
    ensures r.Ok? ==> r.value.profiles == ProfilesOf(t.profiles, userId)
    ensures r.Ok? ==> r.value.counts == CountsOf(t, userId)
  {
    if userId !in t.users then Err(NotFound(MsgUserNotFound))
    else Ok(Me(WithoutHash(t.users[userId]), ProfilesOf(t.profiles, userId), CountsOf(t, userId)))
  }

  /** Each count is the length of the listing the matching service returns
      to the same user. */
  lemma CountsMatchListings(t: Tables, userId: Id)
    requires t.Valid()
    ensures CountsOf(t, userId).resumes == |Resumes.OwnedSorted(t.resumes, t.nextId, userId)|
    ensures CountsOf(t, userId).projects == |Projects.OwnedSorted(t.projects, t.nextId, userId)|
    ensures CountsOf(t, userId).achievements == |Achievements.FindAll(t.achievements, t.nextId, userId)|
  {
    ResumesCounted(t.resumes, t.nextId, userId);
    ProjectsCounted(t.projects, t.nextId, userId);
    AchievementsCounted(t.achievements, t.nextId, userId);
  }

  lemma ResumesCounted(resumes: map<Id, Resume>, n: nat, userId: Id)
    requires ResumesKeyed(resumes, n)
    ensures |Resumes.OwnedSorted(resumes, n, userId)| == |set k | k in resumes && resumes[k].userId == userId|
  {
    var owned := Resumes.OwnedBy(userId);
    var listed := Resumes.OwnedSorted(resumes, n, userId);
    assert listed == SelectSorted(resumes, owned, n, Resumes.ResumeUpdatedAt);
    assert |listed| == |multiset(listed)| == |multiset(SelectNewestFirst(resumes, owned, n))|;
    SelectedCount(resumes, owned, n);
    assert MatchingKeys(resumes, owned, n) == set k | k in resumes && resumes[k].userId == userId;
  }

  lemma ProjectsCounted(projects: map<Id, Project>, n: nat, userId: Id)
    requires ProjectsKeyed(projects, n)
    ensures |Projects.OwnedSorted(projects, n, userId)| == |set k | k in projects && projects[k].userId == userId|
  {
    var owned := Projects.OwnedBy(userId);
    var listed := Projects.OwnedSorted(projects, n, userId);
    assert listed == SelectSorted(projects, owned, n, Projects.ProjectUpdatedAt);
    assert |listed| == |multiset(listed)| == |multiset(SelectNewestFirst(projects, owned, n))|;
    SelectedCount(projects, owned, n);
    assert MatchingKeys(projects, owned, n) == set k | k in projects && projects[k].userId == userId;
  }

  lemma AchievementsCounted(achievements: map<Id, Achievement>, n: nat, userId: Id)
    requires AchievementsKeyed(achievements, n)
    ensures |Achievements.FindAll(achievements, n, userId)| == |set k | k in achievements && achievements[k].userId == userId|
  {
    var earned := Achievements.OfUser(userId);
    assert |Achievements.FindAll(achievements, n, userId)| == |SelectNewestFirst(achievements, earned, n)|;
    SelectedCount(achievements, earned, n);
    assert MatchingKeys(achievements, earned, n) == set k | k in achievements && achievements[k].userId == userId;
  }

  /** The password hash does not reach `getMe`'s reply: changing it changes
      nothing in the reply. */
  lemma GetMeHidesHash(t: Tables, userId: Id, hash: Option<PasswordHash>)
    requires userId in t.users
    ensures GetMe(t.(users := t.users[userId := t.users[userId].(passwordHash := hash)]), userId) == GetMe(t, userId)
  {
    var t' := t.(users := t.users[userId := t.users[userId].(passwordHash := hash)]);
    assert CountsOf(t', userId) == CountsOf(t, userId);
  }

  /** The fields `updateMe` accepts; an absent field is left unchanged. */
  datatype UserPatch = UserPatch(
    name: Option<string>,
    headline: Option<string>,
    avatarUrl: Option<string>,
    locale: Option<string>,
    publicHandle: Option<string>)

  function Patched(u: User, p: UserPatch): (r: User)
    ensures r.id == u.id && r.email == u.email && r.passwordHash == u.passwordHash && r.refreshToken == u.refreshToken
    ensures r.publicHandle == p.publicHandle.GetOr(u.publicHandle)
    ensures p.name.Some? ==> r.name == p.name
    ensures p.name.None? ==> r.name == u.name
    ensures p.headline.Some? ==> r.headline == p.headline
    ensures p.headline.None? ==> r.headline == u.headline
    ensures p.avatarUrl.Some? ==> r.avatarUrl == p.avatarUrl
    ensures p.avatarUrl.None? ==> r.avatarUrl == u.avatarUrl
    ensures p.locale.Some? ==> r.locale == p.locale
    ensures p.locale.None? ==> r.locale == u.locale
  {
    u.(name := if p.name.Some? then p.name else u.name,
       headline := if p.headline.Some? then p.headline else u.headline,
       avatarUrl := if p.avatarUrl.Some? then p.avatarUrl else u.avatarUrl,
       locale := if p.locale.Some? then p.locale else u.locale,
       publicHandle := p.publicHandle.GetOr(u.publicHandle))
  }

  /** The user table after `updateMe`, or its error. A non-empty handle held
      by someone else is refused with Conflict before anything is written.
      An empty handle skips that check, so the database's unique constraint
      is what refuses it when another user holds the empty handle. A missing
      user makes the update fail. */
  function UpdateMeOutcome(users: map<Id, User>, userId: Id, p: UserPatch): (r: Result<map<Id, User>>)
    requires HandlesUnique(users)
    ensures (Truthy(p.publicHandle) && p.publicHandle.value in HandlesOf(users)
             && UserByHandle(users, p.publicHandle.value) != Some(userId)) ==> r == Err(Conflict(MsgHandleTaken))
    ensures !(Truthy(p.publicHandle) && p.publicHandle.value in HandlesOf(users)
              && UserByHandle(users, p.publicHandle.value) != Some(userId)) && userId !in users ==>
      r == Err(DatabaseError(RecordNotFound))
    ensures r.Ok? <==>
      userId in users && (p.publicHandle.Some? ==> UserByHandle(users, p.publicHandle.value) in {None, Some(userId)})
    ensures r.Ok? ==> r.value == users[userId := Patched(users[userId], p)]
  {
    if Truthy(p.publicHandle) && UserByHandle(users, p.publicHandle.value).Some?
       && UserByHandle(users, p.publicHandle.value).value != userId then
      Err(Conflict(MsgHandleTaken))
    else if userId !in users then
      Err(DatabaseError(RecordNotFound))
    else if p.publicHandle.Some? && UserByHandle(users, p.publicHandle.value).Some?
            && UserByHandle(users, p.publicHandle.value).value != userId then
      Err(DatabaseError(UniqueViolation))
    else
      Ok(users[userId := Patched(users[userId], p)])
  }

  /** A successful `updateMe` keeps handles unique and e-mails unchanged,
      touches only the caller's row, and its new handle is the requested one
      (or the old one when none was requested). */
  lemma UpdateMeKeepsInvariant(t: Tables, userId: Id, p: UserPatch)
    requires t.Valid()
    ensures var r := UpdateMeOutcome(t.users, userId, p);
      r.Ok? ==>
        && t.(users := r.value).Valid()
        && r.value.Keys == t.users.Keys
        && (forall k :: k in t.users && k != userId ==> r.value[k] == t.users[k])
        && r.value[userId].publicHandle == p.publicHandle.GetOr(t.users[userId].publicHandle)
  {
    var r := UpdateMeOutcome(t.users, userId, p);
    if r.Ok? {
      var u := Patched(t.users[userId], p);
      forall k | k in t.users && k != userId
        ensures t.users[k].publicHandle != u.publicHandle
      {
        if p.publicHandle.Some? {
          assert t.users[k].publicHandle == u.publicHandle ==> u.publicHandle in HandlesOf(t.users);
        }
      }
      ReplaceUserValid(t, u);
    }
  }

  /** Re-submitting one's own handle is accepted. */
  lemma UpdateMeOwnHandle(users: map<Id, User>, userId: Id, p: UserPatch)
    requires HandlesUnique(users) && userId in users && p.publicHandle == Some(users[userId].publicHandle)
    ensures UpdateMeOutcome(users, userId, p) == Ok(users[userId := Patched(users[userId], p)])
  {
    var h := users[userId].publicHandle;
    assert h in HandlesOf(users);
  }

  /** An empty handle bypasses the service's check: when another user holds
      the empty handle the request reaches the database and fails on its
      unique constraint instead of with "Public handle already taken". */
  lemma UpdateMeEmptyHandleSkipsCheck(users: map<Id, User>, userId: Id, other: Id, p: UserPatch)
    requires HandlesUnique(users) && userId in users && other in users && other != userId
    requires users[other].publicHandle == "" && p.publicHandle == Some("")
    ensures UpdateMeOutcome(users, userId, p) == Err(DatabaseError(UniqueViolation))
  {
    assert "" in HandlesOf(users);
  }

  /** The fields `updateProfile` accepts; an absent field is left unchanged
      on update and takes the column default on create. */
  datatype ProfilePatch = ProfilePatch(bio: Option<string>, visible: Option<bool>)

  /** `profile.upsert`: the updated profile, or a new one when the user has
      none. */
  function Upserted(existing: Option<Profile>, userId: Id, p: ProfilePatch, defaultVisible: bool): (r: Profile)
    requires existing.Some? ==> existing.value.userId == userId
    ensures r.userId == userId
    ensures p.bio.Some? ==> r.bio == p.bio
    ensures p.visible.Some? ==> r.visible == p.visible.value
    ensures p.bio.None? ==> r.bio == (if existing.Some? then existing.value.bio else None)
    ensures p.visible.None? ==> r.visible == (if existing.Some? then existing.value.visible else defaultVisible)
  {
    match existing
    case None => Profile(userId, p.bio, p.visible.GetOr(defaultVisible))
    case Some(x) => Profile(userId, if p.bio.Some? then p.bio else x.bio, p.visible.GetOr(x.visible))
  }

  /** Upserting the same fields twice gives what upserting them once gives. */
  lemma UpsertIdempotent(existing: Option<Profile>, userId: Id, p: ProfilePatch, defaultVisible: bool)
    requires existing.Some? ==> existing.value.userId == userId
    ensures var once := Upserted(existing, userId, p, defaultVisible);
      Upserted(Some(once), userId, p, defaultVisible) == once
  {
  }

  /** A published resume as the public profile lists it, with its newest
      version. */
  datatype PublicResume = PublicResume(resume: Resume, versions: seq<ResumeVersion>)

  /** A public project with its media. */
  datatype PublicProject = PublicProject(project: Project, media: seq<ProjectMedia>)

  /** The public profile: the user's public fields and the visible parts of
      their portfolio. It carries neither the e-mail, the password hash nor
      the refresh token. */
  datatype PublicProfile = PublicProfile(
    id: Id,
    publicHandle: string,
    name: Option<string>,
    headline: Option<string>,
    avatarUrl: Option<string>,
    locale: Option<string>,
    profiles: seq<Profile>,
    resumes: seq<PublicResume>,
    projects: seq<PublicProject>,
    achievements: seq<Achievement>)

  function PublishedBy(userId: Id): Resume -> bool {
    (r: Resume) => r.userId == userId && r.isPublished
  }

  function PublicBy(userId: Id): Project -> bool {
    (p: Project) => p.userId == userId && p.visibility == Public
  }

  /** `profiles: { where: { visible: true } }` */
  function VisibleProfiles(profiles: map<Id, Profile>, userId: Id): (r: seq<Profile>)
    ensures forall i :: 0 <= i < |r| ==> userId in profiles && r[i] == profiles[userId] && r[i].visible
    ensures userId in profiles && profiles[userId].visible ==> r == [profiles[userId]]
  {
    if userId in profiles && profiles[userId].visible then [profiles[userId]] else []
  }

  /** Each resume paired with its newest version. */
  function WithLatest(rs: seq<Resume>, versions: map<Id, ResumeVersion>, n: nat): (r: seq<PublicResume>)
    requires VersionsKeyed(versions, n)
    ensures |r| == |rs|
    ensures forall i :: 0 <= i < |r| ==> r[i].resume == rs[i]
    ensures forall i :: 0 <= i < |r| ==> r[i].versions == LatestVersion(versions, n, rs[i].id)
    ensures forall x :: x in rs ==> exists i :: 0 <= i < |r| && r[i].resume == x
  {
    seq(|rs|, i requires 0 <= i < |rs| => PublicResume(rs[i], LatestVersion(versions, n, rs[i].id)))
  }

  /** `resumes: { where: { isPublished: true }, include: { versions: newest, take 1 } }`:
      each published resume once; the query asks for no order. */
  function PublishedResumes(resumes: map<Id, Resume>, versions: map<Id, ResumeVersion>, n: nat, userId: Id)
    : (r: seq<PublicResume>)
    requires ResumesKeyed(resumes, n) && VersionsKeyed(versions, n)
    ensures forall i :: 0 <= i < |r| ==>
      r[i].resume in resumes.Values && r[i].resume.userId == userId && r[i].resume.isPublished
    ensures forall i :: 0 <= i < |r| ==> r[i].versions == LatestVersion(versions, n, r[i].resume.id)
    ensures forall k :: 0 <= k < n && k in resumes && resumes[k].userId == userId && resumes[k].isPublished ==>
      exists i :: 0 <= i < |r| && r[i].resume == resumes[k]
    ensures forall i, j :: 0 <= i < j < |r| ==> r[i].resume != r[j].resume
  {
    var rs := SelectNewestFirst(resumes, PublishedBy(userId), n);
    PublishedSelection(resumes, n, userId);
    assert Injective(resumes);
    WithLatest(rs, versions, n)
  }

  /** The filter of `PublishedResumes` spelled out. */
  lemma PublishedSelection(resumes: map<Id, Resume>, n: nat, userId: Id)
    ensures var rs := SelectNewestFirst(resumes, PublishedBy(userId), n);
      && (forall i :: 0 <= i < |rs| ==> rs[i] in resumes.Values && rs[i].userId == userId && rs[i].isPublished)
      && (forall k :: 0 <= k < n && k in resumes && resumes[k].userId == userId && resumes[k].isPublished ==>
            resumes[k] in rs)
  {
    var rs := SelectNewestFirst(resumes, PublishedBy(userId), n);
    forall i | 0 <= i < |rs| ensures rs[i].userId == userId && rs[i].isPublished {
      assert PublishedBy(userId)(rs[i]);
    }
    forall k | 0 <= k < n && k in resumes && resumes[k].userId == userId && resumes[k].isPublished
      ensures resumes[k] in rs
    {
      assert PublishedBy(userId)(resumes[k]);
    }
  }

  /** Each project paired with its media. */
  function WithMedia(ps: seq<Project>, media: map<Id, ProjectMedia>, n: nat): (r: seq<PublicProject>)
    requires MediaKeyed(media, n)
    ensures |r| == |ps|
    ensures forall i :: 0 <= i < |r| ==> r[i].project == ps[i]
    ensures forall i :: 0 <= i < |r| ==> r[i].media == MediaOf(media, n, ps[i].id)
    ensures forall p :: p in ps ==> exists i :: 0 <= i < |r| && r[i].project == p
  {
    seq(|ps|, i requires 0 <= i < |ps| => PublicProject(ps[i], MediaOf(media, n, ps[i].id)))
  }

  /** `projects: { where: { visibility: 'PUBLIC' }, include: { media }, orderBy: createdAt desc }`:
      each public project once, the most recently created first (ids are
      handed out in creation order). */
  function PublicProjects(projects: map<Id, Project>, media: map<Id, ProjectMedia>, n: nat, userId: Id)
    : (r: seq<PublicProject>)
    requires ProjectsKeyed(projects, n) && MediaKeyed(media, n)
    ensures forall i :: 0 <= i < |r| ==>
      r[i].project in projects.Values && r[i].project.userId == userId && r[i].project.visibility == Public
    ensures forall i :: 0 <= i < |r| ==> r[i].media == MediaOf(media, n, r[i].project.id)
    ensures forall k :: 0 <= k < n && k in projects && projects[k].userId == userId && projects[k].visibility == Public ==>
      exists i :: 0 <= i < |r| && r[i].project == projects[k]
    ensures forall i, j :: 0 <= i < j < |r| ==> r[i].project.id > r[j].project.id
  {
    var ps := SelectNewestFirst(projects, PublicBy(userId), n);
    PublicSelection(projects, n, userId);
    WithMedia(ps, media, n)
  }

  /** The filter of `PublicProjects` spelled out. */
  lemma PublicSelection(projects: map<Id, Project>, n: nat, userId: Id)
    requires ProjectsKeyed(projects, n)
    ensures var ps := SelectNewestFirst(projects, PublicBy(userId), n);
      && (forall i :: 0 <= i < |ps| ==> ps[i] in projects.Values && ps[i].userId == userId && ps[i].visibility == Public)
      && (forall k :: 0 <= k < n && k in projects && projects[k].userId == userId && projects[k].visibility == Public ==>
            projects[k] in ps)
      && (forall i, j :: 0 <= i < j < |ps| ==> ps[i].id > ps[j].id)
  {
    var ps := SelectNewestFirst(projects, PublicBy(userId), n);
    var ids := IdsDesc(projects, PublicBy(userId), n);
    assert forall i :: 0 <= i < |ps| ==> ps[i].id == ids[i];
    forall i | 0 <= i < |ps| ensures ps[i].userId == userId && ps[i].visibility == Public {
      assert PublicBy(userId)(ps[i]);
    }
    forall k | 0 <= k < n && k in projects && projects[k].userId == userId && projects[k].visibility == Public
      ensures projects[k] in ps
    {
      assert PublicBy(userId)(projects[k]);
    }
  }

  /** `getPublicProfile`, with the refresh token stripped as well: the user
      holding the handle, their visible profile, published resumes, public
      projects and achievements; NotFound when no user holds the handle. */
  function GetPublicProfile(t: Tables, handle: string): (r: Result<PublicProfile>)
    requires t.Valid()
    ensures r.Err? <==> handle !in HandlesOf(t.users)
    ensures r.Err? ==> r.error == NotFound(MsgUserNotFound)
    ensures r.Ok? ==> (r.value.publicHandle == handle && r.value.id in t.users
                       && t.users[r.value.id].publicHandle == handle)
    ensures r.Ok? ==> (
      var u, id := t.users[r.value.id], r.value.id;
      && r.value.name == u.name && r.value.headline == u.headline
      && r.value.avatarUrl == u.avatarUrl && r.value.locale == u.locale
      && r.value.profiles == VisibleProfiles(t.profiles, id)
      && r.value.resumes == PublishedResumes(t.resumes, t.versions, t.nextId, id)
      && r.value.projects == PublicProjects(t.projects, t.media, t.nextId, id)
      && r.value.achievements == Achievements.FindAll(t.achievements, t.nextId, id))
  {
    match UserByHandle(t.users, handle)
    case None => Err(NotFound(MsgUserNotFound))
    case Some(id) =>
      var u := t.users[id];
      Ok(PublicProfile(id, u.publicHandle, u.name, u.headline, u.avatarUrl, u.locale,
                       VisibleProfiles(t.profiles, id), PublishedResumes(t.resumes, t.versions, t.nextId, id),
                       PublicProjects(t.projects, t.media, t.nextId, id), Achievements.FindAll(t.achievements, t.nextId, id)))
  }

  /** The public profile only lists what its owner made public: a visible
      profile, published resumes (each with at most its newest version) and
      public projects, all of them the owner's. */
  lemma PublicProfileShowsOnlyPublic(t: Tables, handle: string)
    requires t.Valid()
    ensures var r := GetPublicProfile(t, handle);
      r.Ok? ==>
        && (forall i :: 0 <= i < |r.value.profiles| ==>
              r.value.profiles[i].visible && r.value.profiles[i].userId == r.value.id)
        && (forall i :: 0 <= i < |r.value.resumes| ==>
              && r.value.resumes[i].resume.isPublished
              && r.value.resumes[i].resume.userId == r.value.id
              && |r.value.resumes[i].versions| <= 1)
        && (forall i :: 0 <= i < |r.value.projects| ==>
              r.value.projects[i].project.visibility == Public && r.value.projects[i].project.userId == r.value.id)
        && (forall i :: 0 <= i < |r.value.achievements| ==> r.value.achievements[i].userId == r.value.id)
  {
  }

  /** Two databases whose users differ only in e-mail, password hash and
      refresh token give the same public profile: none of the three reaches
      it. */
  lemma PublicProfileHidesSecrets(t1: Tables, t2: Tables, handle: string)
    requires t1.Valid() && t2.Valid()
    requires t2.users.Keys == t1.users.Keys
    requires forall k :: k in t1.users ==>
      t2.users[k] == t1.users[k].(email := t2.users[k].email, passwordHash := t2.users[k].passwordHash,
                                  refreshToken := t2.users[k].refreshToken)
    requires t2 == t1.(users := t2.users)
    ensures GetPublicProfile(t1, handle) == GetPublicProfile(t2, handle)
  {
    assert HandlesOf(t1.users) == HandlesOf(t2.users) by {
      forall h ensures h in HandlesOf(t1.users) <==> h in HandlesOf(t2.users) {
        if h in HandlesOf(t1.users) {
          var k :| k in t1.users && t1.users[k].publicHandle == h;
          assert t2.users[k].publicHandle == h;
        }
        if h in HandlesOf(t2.users) {
          var k :| k in t2.users && t2.users[k].publicHandle == h;
          assert t1.users[k].publicHandle == h;
        }
      }
    }
    var a, b := UserByHandle(t1.users, handle), UserByHandle(t2.users, handle);
    if a.Some? {
      assert t2.users[a.value].publicHandle == handle;
      assert a == b;
    }
  }

  /** What `getPublicProfile` returns as written: the public profile plus
      the owner's stored refresh token, which the code does not strip. */
  datatype LeakedProfile = LeakedProfile(view: PublicProfile, refreshToken: Option<string>)

  function GetPublicProfileAsWritten(t: Tables, handle: string): (r: Result<LeakedProfile>)
    requires t.Valid()
    ensures r.Ok? ==> GetPublicProfile(t, handle).Ok? && r.value.view == GetPublicProfile(t, handle).value
    ensures r.Ok? ==> r.value.refreshToken == t.users[r.value.view.id].refreshToken
    ensures r.Err? ==> GetPublicProfile(t, handle) == Err(r.error)
  {
    match GetPublicProfile(t, handle)
    case Err(e) => Err(e)
    case Ok(view) => Ok(LeakedProfile(view, t.users[view.id].refreshToken))
  }

  /** Anyone who knows a logged-in user's handle reads their refresh token
      from the public profile, and that token passes every check of
      `refresh` for them: the session can be taken over without a
      password. */
  lemma PublicProfileLeaksSession(t: Tables, id: Id, token: string)
    requires t.Valid() && id in t.users && t.users[id].refreshToken == Some(token) && token != ""
    ensures var r := GetPublicProfileAsWritten(t, t.users[id].publicHandle);
      && r.Ok? && r.value.view.id == id
      && r.value.refreshToken == Some(token)
      && RefreshCheck(t.users, r.value.refreshToken, Verified(id)) == Ok(id)
  {
    var h := t.users[id].publicHandle;
    assert h in HandlesOf(t.users);
  }

  class UsersService {
    const db: Database

    constructor (db: Database)
      ensures this.db == db
    {
      this.db := db;
    }

    /** `updateMe`: applies the patch to the caller's row as
        `UpdateMeOutcome` describes and returns the account without its
        password hash. */
    method UpdateMe(userId: Id, p: UserPatch) returns (r: Result<Account>)
      requires db.Valid()
      modifies db`users
      ensures db.Valid()
      ensures var outcome := UpdateMeOutcome(old(db.users), userId, p);
        && (outcome.Err? ==> r == Err(outcome.error) && db.users == old(db.users))
        && (outcome.Ok? ==> db.users == outcome.value && r == Ok(WithoutHash(db.users[userId])))
    {
      if Truthy(p.publicHandle) {
        var existing := UserByHandle(db.users, p.publicHandle.value);
        if existing.Some? && existing.value != userId {
          return Err(Conflict(MsgHandleTaken));
        }
      }
      if userId !in db.users {
        return Err(DatabaseError(RecordNotFound));
      }
      if p.publicHandle.Some? {
        var holder := UserByHandle(db.users, p.publicHandle.value);
        if holder.Some? && holder.value != userId {
          return Err(DatabaseError(UniqueViolation));
        }
      }
      UpdateMeKeepsInvariant(db.Snapshot(), userId, p);
      db.users := db.users[userId := Patched(db.users[userId], p)];
      r := Ok(WithoutHash(db.users[userId]));
    }

    /** `updateProfile`: creates or updates the caller's profile. Creating a
        profile for a user that does not exist fails on the foreign key. */
    method UpdateProfile(userId: Id, p: ProfilePatch) returns (r: Result<Profile>)
      requires db.Valid()
      modifies db`profiles
      ensures db.Valid()
      ensures userId !in old(db.users) ==>
        r == Err(DatabaseError(ForeignKeyViolation)) && db.profiles == old(db.profiles)
      ensures userId in old(db.users) ==>
        var existing := if userId in old(db.profiles) then Some(old(db.profiles)[userId]) else None;
        var profile := Upserted(existing, userId, p, db.defaults.profileVisible);
        r == Ok(profile) && db.profiles == old(db.profiles)[userId := profile]
    {
      if userId !in db.users {
        return Err(DatabaseError(ForeignKeyViolation));
      }
      var existing := if userId in db.profiles then Some(db.profiles[userId]) else None;
      var profile := Upserted(existing, userId, p, db.defaults.profileVisible);
      db.profiles := db.profiles[userId := profile];
      r := Ok(profile);
    }
  }
}
