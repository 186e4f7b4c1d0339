# projectx-backend services in Dafny

A model of the service layer of the projectx-backend portfolio API (NestJS
with Prisma). It covers:

- the session and credential lifecycle of `AuthService`: sign-up, login,
  refresh-token rotation, logout, credential validation and the public-handle
  allocator;
- the owner-guarded table operations on resumes, resume versions, projects,
  project media and achievements, including slug derivation;
- the account, profile and public-profile views of `UsersService`;
- the `generatePdf` lookups and the markdown-to-HTML conversion of
  `PdfService`;
- object-key, public-URL and request construction in `StorageService`.

The database is the class `Db.Database`. It has one map field per table
(users, profiles, resumes, versions, projects, media, achievements) and an
id counter, and each service method updates those fields in place.
`Db.Tables.Valid` is the invariant every state-changing method keeps:

- ids are keys allocated below the counter;
- e-mails, public handles, resume slugs and project slugs are unique;
- every profile, resume, project and achievement belongs to an existing user.

Read-only operations are functions over `Db.Tables`, a snapshot of the
fields. Ids come from the counter, so "created later" is "higher id", and
`orderBy: { createdAt: 'desc' }` is modelled as "highest id first".
`updatedAt` is a field, and the time of each write is a parameter.

Everything outside the process is either a parameter or ideal:

- bcrypt is an ideal injective hash (`Auth.Hash`, `Auth.VerifyPassword`);
- the tokens a call issues, and the result of verifying a presented JWT
  (`Auth.Verification`), are parameters;
- `NODE_ENV`, the `S3_*` configuration and the uuid of a new object key are
  parameters;
- storage calls are returned as the request (`Storage.Command`) that would
  be signed or sent.

Modules:

| module | models |
|---|---|
| Common | `Option`, `Result`, the exception kinds, JavaScript truthiness |
| Ascii | ASCII lower-casing, `[a-z0-9]` filtering, decimal rendering |
| Ordering | `findMany` with a filter and `orderBy`, over a table |
| Db | records, the unique and ownership invariants, the `Database` class, lookups by unique key |
| Handles | the base handle of an e-mail and the candidates `generateUniqueHandle` probes |
| Slugs | slug derivation of resumes and projects |
| Auth | `AuthService` |
| Users | `UsersService` |
| Resumes | `ResumesService` |
| Projects | `ProjectsService` |
| Achievements | `AchievementsService` |
| Markdown | the body conversion of `convertContentToHtml` |
| Pdf | the `generatePdf` lookups and the page template |
| Storage | `StorageService` |

Three behaviours of the code are modelled as written, although a reader of
the routes might expect otherwise:

- The base handle of `a@b.com` is `a`. `split('@')[0]` keeps only the local
  part (`Handles.BaseHandleExamples`).
- `logout` for a user id that has no row does not succeed. Its
  `user.update` fails with the client's "record not found" error
  (`Auth.AuthService.Logout`).
- `updateMe` with an empty `publicHandle` skips the Conflict check, so an
  empty handle held by another user is refused by the database's unique
  constraint instead (`Users.UpdateMeEmptyHandleSkipsCheck`).

## Model

| member | source | states |
|---|---|---|
| Auth.VerifyPasswordExact | src/auth/auth.service.ts:77 | the stored hash of a password accepts that password and no other |
| Auth.AuthUserOf | src/auth/auth.service.ts:56-63 | the user in an authentication reply carries exactly id, e-mail, name and handle |
| Auth.SetCookies | src/auth/auth.service.ts:198-213 | two cookies, `access_token` with the access token and `refresh_token` with the refresh token; both http-only; secure and same-site strict exactly in production (lax otherwise); they live 15 minutes and 7 days, the second 672 times the first |
| Auth.CookieProperties | src/auth/auth.service.ts:212-215 | clearing removes exactly the two cookies the session set, under the same names and in the same order |
| Auth.WithRefreshToken | src/auth/auth.service.ts:191-196 | storing a token changes only that user's `refreshToken`: same ids, every other row and field unchanged |
| Auth.WithRefreshTokenValid | src/auth/auth.service.ts:191-196 | replacing a refresh token keeps the database invariant |
| Auth.LoginCheck | src/auth/auth.service.ts:69-81 | login passes iff a user with that e-mail has a hash that accepts the password; the passing id has that e-mail; every failure is Unauthorized "Invalid credentials" |
| Auth.WithoutHashForgetsOnlyHash | src/auth/auth.service.ts:106 | two users give the same hash-less account iff they differ at most in the password hash |
| Auth.ValidateUser | src/auth/auth.service.ts:98-111 | a returned account is the hash-less row of a user with that e-mail |
| Auth.ValidateUserAgreesWithLogin | src/auth/auth.service.ts:98-111 | `validateUser` returns an account iff login's checks pass, and then it is that user's account |
| Auth.ForgotPassword | src/auth/auth.service.ts:113-124 | the reply is the same reset message whether or not the e-mail is registered |
| Auth.RefreshTry | src/auth/auth.service.ts:131-142 | inside the try block, refresh passes iff the token verifies to a subject that exists and stores exactly that token; the result is the subject |
| Auth.Rethrow | src/auth/auth.service.ts:157-162 | the catch clause always yields Unauthorized and passes an Unauthorized error through unchanged |
| Auth.RefreshCheck | src/auth/auth.service.ts:126-162 | a missing or empty token gives "Refresh token is missing"; a rejected verification gives its own Unauthorized error or "Invalid or expired refresh token"; an unknown subject or a different stored token gives "Invalid refresh token" |
| Auth.RefreshSucceedsIff | src/auth/auth.service.ts:126-145 | refresh succeeds iff a non-empty token verifies to an existing user whose stored token equals it, and it returns that user |
| Auth.RefreshErrorsAreUnauthorized | src/auth/auth.service.ts:157-162 | every refresh failure reaches the client as Unauthorized |
| Auth.IssuedTokenRefreshes | src/auth/auth.service.ts:131-145 | after a token is stored for a user, presenting it (verified to that user) refreshes |
| Auth.LogoutThenRefreshFails | src/auth/auth.service.ts:165-169 | after logout no presented token refreshes the user who logged out |
| Auth.RotatedTokenRefused | src/auth/auth.service.ts:140-145 | after rotation to a different token, the previous token is refused with "Invalid refresh token" |
| Auth.LogoutIdempotent | src/auth/auth.service.ts:165-169 | clearing the token twice gives the same table as clearing it once |
| Auth.AuthService.GenerateUniqueHandle | src/auth/auth.service.ts:221-241 | the loop returns the first candidate (base, base1, base2, ...) no user holds, so the handle is free; it terminates because only finitely many handles are taken |
| Auth.AuthService.UpdateRefreshToken | src/auth/auth.service.ts:191-196 | on an existing row the table becomes `WithRefreshToken` of the old one; on a missing row it fails and nothing changes |
| Auth.AuthService.Signup | src/auth/auth.service.ts:22-64 | for a password of at least 8 characters (the sign-up form's rule): a registered e-mail gives Conflict and writes nothing; otherwise it adds exactly one user with the hashed password, the first free handle and the issued refresh token, plus one profile for it; the counter advances and the reply carries the four public fields and the session cookies |
| Auth.AuthService.InsertUser | src/auth/auth.service.ts:36-49 | inserts the user row and its default profile under the counter and keeps the invariant |
| Auth.AuthService.Login | src/auth/auth.service.ts:66-96 | on failure the table is unchanged and the error is `LoginCheck`'s; on success only that user's refresh token changes, to the issued one |
| Auth.AuthService.Refresh | src/auth/auth.service.ts:126-163 | on failure the table is unchanged and the error is `RefreshCheck`'s; on success the stored token rotates to the issued one and nothing else changes |
| Auth.AuthService.Logout | src/auth/auth.service.ts:165-169 | clears the user's stored token and both cookies with "Logged out successfully"; a missing user gives the client's not-found error and nothing changes |
| Auth.TokenOnNewUser | src/auth/auth.service.ts:36-52 | storing a token on a user just inserted equals inserting the user with that token |
| Auth.CreateUserValid | src/auth/auth.service.ts:36-49 | adding a user with a fresh id, e-mail and handle, and its profile, keeps the invariant |
| Auth.AddUserValid | src/auth/auth.service.ts:36-43 | adding a user with a fresh id, e-mail and handle keeps the invariant |
| Auth.AddProfileValid | src/auth/auth.service.ts:45-49 | adding the profile of an existing user keeps the invariant |
| Auth.InsertUserUnique | src/auth/auth.service.ts:25-43 | a user with a fresh e-mail and a free handle keeps both columns unique |
| Auth.NewUser | src/auth/auth.service.ts:36-43 | the created row has the given id, e-mail, name and handle, a hash that accepts the password, and no refresh token, headline, avatar or locale |
| Handles.LocalPart | src/auth/auth.service.ts:222-223 | the result is the prefix of the e-mail before its first `@`, or the whole e-mail when it has none |
| Handles.BaseHandle | src/auth/auth.service.ts:222-225 | the base handle has only `[a-z0-9]` characters |
| Handles.BaseHandleIsLocalPart | src/auth/auth.service.ts:222-225 | the base handle is the text before the first `@` (all of it when there is none), lower-cased, with every character outside `[a-z0-9]` removed |
| Handles.CandidateIsLowerAlnum | src/auth/auth.service.ts:238 | every probed candidate stays within `[a-z0-9]` |
| Handles.CandidateInjective | src/auth/auth.service.ts:238 | different counters give different candidates |
| Handles.Probed | src/auth/auth.service.ts:229-240 | the first k candidates are all in the probed set |
| Handles.Candidate | src/auth/auth.service.ts:226-238 | every candidate starts with the base handle, and only candidate 0 is the base handle itself |
| Handles.CandidateSuffix | src/auth/auth.service.ts:238 | after the base, candidate k > 0 is exactly `Decimal(k)`: digits only, spelling k, without a leading zero |
| Handles.ProbedMembers | src/auth/auth.service.ts:229-240 | the probed set holds nothing but the first k candidates |
| Handles.ProbedSize | src/auth/auth.service.ts:229-240 | k probes visit k distinct handles |
| Handles.ProbeCountBound | src/auth/auth.service.ts:229-240 | if the first k candidates are all taken, k is at most the number of taken handles (the loop's termination argument) |
| Handles.FirstFreeUnique | src/auth/auth.service.ts:229-240 | the allocated handle is determined by the taken set and the base |
| Handles.FirstFreeBase | src/auth/auth.service.ts:226-236 | the base handle itself is allocated iff it is free |
| Handles.BaseHandleExamples | src/auth/auth.service.ts:222-225 | `a@b.com` gives `a`; `!!!@x` gives the empty handle |
| Handles.LocalPartBeforeAt | src/auth/auth.service.ts:223 | for a local part without `@`, the local part of `local@domain` is that local part |
| Handles.AliceBase | src/auth/auth.service.ts:222-225 | `alice@x.com` gives `alice` |
| Handles.SecondCandidateFree | src/auth/auth.service.ts:229-240 | with `alice` and `alice1` taken, `alice2` is the first free candidate |
| Handles.OnlySecondCandidate | src/auth/auth.service.ts:229-240 | with `alice` and `alice1` taken, no other handle is allocated |
| Handles.AllocationExample | src/auth/auth.service.ts:221-241 | for `alice@x.com` with `alice` and `alice1` taken, the allocator returns exactly `alice2` |
| Ascii.Lower | src/auth/auth.service.ts:224 | an upper-case ASCII letter maps to the lower-case letter at the same alphabet position; every other character is kept |
| Ascii.LowerString | src/resumes/resumes.service.ts:59 | lower-casing keeps the length and maps each character |
| Ascii.LowerStringFixed | src/resumes/resumes.service.ts:59 | a string without upper-case letters is its own lower case |
| Ascii.KeepLowerAlnum | src/auth/auth.service.ts:225 | the result has only `[a-z0-9]` characters and is no longer than the input |
| Ascii.KeepLowerAlnumCounts | src/auth/auth.service.ts:225 | every `[a-z0-9]` character occurs in the result exactly as often as in the input |
| Ascii.KeepLowerAlnumDrops | src/auth/auth.service.ts:225 | a character outside `[a-z0-9]` is removed and the text on either side is kept in order |
| Ascii.KeepLowerAlnumAppend | src/auth/auth.service.ts:225 | filtering distributes over concatenation |
| Ascii.KeepLowerAlnumFixed | src/auth/auth.service.ts:225 | a string of `[a-z0-9]` characters is kept whole |
| Ascii.Digit | src/auth/auth.service.ts:238 | the character for a digit below ten is the digit whose code lies that far above `0` |
| Ascii.Decimal | src/auth/auth.service.ts:238 | the rendering of a counter is a non-empty string of decimal digits whose value is the counter, with a leading `0` only for zero |
| Ascii.DecimalInjective | src/auth/auth.service.ts:238 | different counters render differently |
| Slugs.DropSeparators | src/resumes/resumes.service.ts:60 | drops a leading run of characters outside `[a-z0-9]` and nothing else |
| Slugs.CollapseSeparators | src/resumes/resumes.service.ts:60 | each maximal run outside `[a-z0-9]` becomes one `-`: the result has no `--` and starts with `-` iff the input starts outside `[a-z0-9]` |
| Slugs.TrimLeadingDashes | src/resumes/resumes.service.ts:61 | removes exactly the leading `-` characters |
| Slugs.TrimTrailingDashes | src/resumes/resumes.service.ts:61 | removes exactly the trailing `-` characters |
| Slugs.TrimDashes | src/resumes/resumes.service.ts:61 | the result neither starts nor ends with `-`; it keeps the `[a-z0-9]` characters in order; it stays free of `--`; a text already free of edge dashes is kept as is |
| Slugs.Slugify | src/resumes/resumes.service.ts:58-61 | the slug is slug-shaped and holds the `[a-z0-9]` characters of the lower-cased title, in order |
| Slugs.ResolveSlug | src/resumes/resumes.service.ts:56-61 | a non-empty supplied slug is used verbatim; otherwise the slug is derived from the title and is slug-shaped |
| Slugs.SliceCollapsed | src/resumes/resumes.service.ts:60 | a slice of a string without `--` has no `--` |
| Slugs.DropSeparatorsKeepsAlnum | src/resumes/resumes.service.ts:60 | dropping separators keeps every letter and digit |
| Slugs.CollapseKeepsAlnum | src/resumes/resumes.service.ts:60 | collapsing runs keeps every letter and digit, in order |
| Slugs.DashesKeepNothing | src/resumes/resumes.service.ts:61 | a run of dashes holds no letter or digit |
| Slugs.TrimLeadingKeepsAlnum | src/resumes/resumes.service.ts:61 | trimming leading dashes keeps every letter and digit |
| Slugs.TrimTrailingKeepsAlnum | src/resumes/resumes.service.ts:61 | trimming trailing dashes keeps every letter and digit |
| Slugs.DropRun | src/resumes/resumes.service.ts:60 | a run outside `[a-z0-9]` before an `[a-z0-9]` character is dropped whole |
| Slugs.DropAppend | src/resumes/resumes.service.ts:60 | dropping the leading run happens in the first part once that part has an `[a-z0-9]` character |
| Slugs.CollapseAppend | src/resumes/resumes.service.ts:60 | after an `[a-z0-9]` character the collapse of a concatenation is the collapse of each part |
| Slugs.CollapseRun | src/resumes/resumes.service.ts:60 | a maximal run outside `[a-z0-9]` at the start becomes a single `-` |
| Slugs.CollapseAround | src/resumes/resumes.service.ts:60 | a maximal run outside `[a-z0-9]` between two parts becomes a single `-` between their collapses |
| Slugs.CollapseFixed | src/resumes/resumes.service.ts:60 | collapsing a string already collapsed changes nothing |
| Slugs.SlugifyFixed | src/resumes/resumes.service.ts:58-61 | a slug-shaped string is its own slug |
| Slugs.SlugifyIdempotent | src/resumes/resumes.service.ts:58-61 | deriving a slug from a derived slug gives it back |
| Slugs.SlugifyExample | src/projects/projects.service.ts:56-59 | `A b!` gives `a-b` |
| Db.UserByEmail | src/auth/auth.service.ts:25-27 | `findUnique({ email })` finds the row with that e-mail, or reports that none has it |
| Db.UserByHandle | src/users/users.service.ts:39-41 | `findUnique({ publicHandle })` finds the row with that handle, and finds none iff the handle is unused |
| Db.ResumeBySlug | src/resumes/resumes.service.ts:63-65 | `findUnique({ slug })` finds the resume with that slug, or reports that none has it |
| Db.ProjectBySlug | src/projects/projects.service.ts:61-63 | `findUnique({ slug })` finds the project with that slug, or reports that none has it |
| Db.CounterGrows | src/resumes/resumes.service.ts:71-77 | raising the id counter keeps every table's keys below it |
| Db.OwnersWiden | src/auth/auth.service.ts:36-43 | adding users keeps every row's owner existing |
| Db.ReplaceUserValid | src/users/users.service.ts:48-51 | replacing a user row with one of the same e-mail and an unshared handle keeps the invariant |
| Db.ReplaceKeepsEmails | src/users/users.service.ts:48-51 | replacing a row without changing its e-mail keeps e-mails unique |
| Db.ReplaceKeepsHandles | src/users/users.service.ts:48-51 | replacing a row with a handle no other row holds keeps handles unique |
| Db.AddVersionValid | src/resumes/resumes.service.ts:103-108 | adding a version of an existing resume under the counter keeps the invariant |
| Db.NewestIsLatest | src/resumes/resumes.service.ts:96-109 | the version just created is the one `take: 1` of the newest-first list returns |
| Db.ProfilesOf | src/users/users.service.ts:17-18 | a user's profiles are empty or exactly their one profile |
| Db.VersionsOf | src/resumes/resumes.service.ts:37-41 | a resume's versions: exactly its versions, newest first |
| Db.LatestVersion | src/resumes/resumes.service.ts:20-23 | at most one version; none iff the resume has none; otherwise the resume's version with the highest id |
| Db.MediaOf | src/projects/projects.service.ts:36-39 | a project's media: only its own, all of them, each once |
| Ordering.IdsDesc | src/achievements/achievements.service.ts:15-18 | the ids of exactly the matching rows, strictly decreasing |
| Ordering.Rows | src/achievements/achievements.service.ts:15-18 | the rows with the given ids, in order |
| Ordering.SelectNewestFirst | src/achievements/achievements.service.ts:15-18 | only matching rows and every matching row, listed in decreasing id order, each once when keys hold distinct rows |
| Ordering.SelectedCount | src/achievements/achievements.service.ts:15-18 | the selection holds one row per matching key |
| Ordering.DecreasingCount | src/achievements/achievements.service.ts:17 | a strictly decreasing list of ids has as many entries as distinct ids |
| Ordering.DistinctOnce | src/resumes/resumes.service.ts:30 | a list without repetitions holds each row at most once |
| Ordering.OnceDistinct | src/resumes/resumes.service.ts:30 | a list holding each row at most once has no repetitions |
| Ordering.PermutationKeepsDistinct | src/resumes/resumes.service.ts:30 | reordering a list without repetitions leaves none |
| Ordering.InsertDesc | src/resumes/resumes.service.ts:30 | inserting into a sorted list keeps it sorted and adds exactly that element |
| Ordering.InsertDescHead | src/resumes/resumes.service.ts:30 | an element with a larger key in front of a sorted list keeps it sorted |
| Ordering.SortDesc | src/resumes/resumes.service.ts:30 | `orderBy: 'desc'` gives a sorted permutation of its input |
| Ordering.SelectSorted | src/resumes/resumes.service.ts:17-31 | `findMany` with a filter and a descending key: a permutation of the matching rows (each once when keys hold distinct rows), sorted by the key |
| Ordering.SameElements | src/resumes/resumes.service.ts:30 | lists with the same multiset hold the same elements |
| Users.GetMe | src/users/users.service.ts:14-35 | NotFound "User not found" iff the user is missing; otherwise the account without its hash, the user's profiles and the user's three row counts |
| Users.GetMeHidesHash | src/users/users.service.ts:33-34 | changing a user's password hash does not change `getMe`'s reply |
| Users.CountsMatchListings | src/users/users.service.ts:19-25 | the resume, project and achievement counts equal the lengths of the lists `findAll` returns to that user |
| Users.ResumesCounted | src/users/users.service.ts:21 | the number of listed resumes is the number of resume rows the user owns |
| Users.ProjectsCounted | src/users/users.service.ts:22 | the number of listed projects is the number of project rows the user owns |
| Users.AchievementsCounted | src/users/users.service.ts:23 | the number of listed achievements is the number of achievement rows the user owns |
| Users.Patched | src/users/users.service.ts:48-51 | a patch never changes id, e-mail, hash or refresh token; each of name, headline, avatar, locale and handle is the supplied value when supplied and the old one otherwise |
| Users.UpdateMeOutcome | src/users/users.service.ts:37-51 | a non-empty handle held by another user gives Conflict; otherwise a missing user gives the not-found error; the update succeeds iff the user exists and no other user holds the requested handle, and then only that row is patched |
| Users.UpdateMeKeepsInvariant | src/users/users.service.ts:37-51 | a successful update keeps the invariant, keeps every other row and sets the requested handle |
| Users.UpdateMeOwnHandle | src/users/users.service.ts:43 | re-submitting one's own handle is accepted |
| Users.UpdateMeEmptyHandleSkipsCheck | src/users/users.service.ts:38 | an empty handle skips the Conflict check; when another user holds it, the database's unique constraint refuses it |
| Users.Upserted | src/users/users.service.ts:98-109 | the profile carries the given fields; absent fields keep the stored value, or the column default on create |
| Users.UpsertIdempotent | src/users/users.service.ts:98-109 | upserting the same fields twice gives what once gives |
| Users.VisibleProfiles | src/users/users.service.ts:61-66 | only a visible profile of the user is listed, and a visible one is listed |
| Users.WithLatest | src/users/users.service.ts:69-74 | each listed resume comes with its newest version, in the order given, and every resume given is listed |
| Users.PublishedResumes | src/users/users.service.ts:67-75 | exactly the user's published resumes, each once, each with its newest version |
| Users.PublishedSelection | src/users/users.service.ts:67-68 | the selection holds only and all of the user's published resumes |
| Users.WithMedia | src/users/users.service.ts:78-81 | each listed project comes with its media, in the order given, and every project given is listed |
| Users.PublicProjects | src/users/users.service.ts:76-83 | exactly the user's PUBLIC projects, each with its media, most recently created first |
| Users.PublicSelection | src/users/users.service.ts:76-77 | the selection holds only and all of the user's PUBLIC projects, the most recently created first |
| Users.GetPublicProfile | src/users/users.service.ts:57-96 | NotFound iff no user holds the handle; otherwise the holder's id, name, headline, avatar and locale with the holder's visible profiles, published resumes, public projects and achievements, and no secrets (corrected) |
| Users.PublicProfileShowsOnlyPublic | src/users/users.service.ts:60-86 | the public profile lists only the owner's visible profile, published resumes with at most one version, PUBLIC projects and own achievements |
| Users.PublicProfileHidesSecrets | src/users/users.service.ts:94-95 | e-mail, password hash and refresh token do not influence the corrected public profile |
| Users.GetPublicProfileAsWritten | src/users/users.service.ts:94-95 | as written, the reply is the public profile plus the owner's stored refresh token |
| Users.PublicProfileLeaksSession | src/users/users.service.ts:94-95 | as written, anyone knowing a logged-in user's handle reads a refresh token that passes every check of `refresh` for that user |
| Users.UsersService.UpdateMe | src/users/users.service.ts:37-55 | the table becomes `UpdateMeOutcome`'s and the reply is the patched account without its hash; on error nothing changes |
| Users.UsersService.UpdateProfile | src/users/users.service.ts:98-109 | for an existing user the stored profile becomes the upserted one; for a missing user the foreign key refuses it and nothing changes |
| Resumes.Owned | src/resumes/resumes.service.ts:34-53 | NotFound iff the resume is missing, Forbidden iff it belongs to someone else (NotFound first), otherwise the stored resume |
| Resumes.FindOne | src/resumes/resumes.service.ts:34-53 | the guard's outcome, with all of the resume's stored versions and only them, newest first (strictly decreasing ids) |
| Resumes.Patched | src/resumes/resumes.service.ts:83-86 | an update keeps id, owner and slug, applies the given fields and stamps `updatedAt` |
| Resumes.PublishCheck | src/resumes/resumes.service.ts:111-122 | the guard's error first; Conflict "Cannot publish resume without versions" when it has none; success exactly when the caller owns the resume and it has a version, and then the resume is published |
| Resumes.GetPublicResume | src/resumes/resumes.service.ts:124-149 | found iff a published resume has that slug; otherwise NotFound; the reply carries the owner's id, name, headline, avatarUrl and publicHandle from the owner's row, and the resume's newest version |
| Resumes.PublishMakesPublic | src/resumes/resumes.service.ts:111-149 | after a successful publish the resume is found by its slug with exactly one version |
| Resumes.ReplaceResumeValid | src/resumes/resumes.service.ts:83-86 | replacing a resume with one of the same owner and slug keeps the invariant |
| Resumes.Summaries | src/resumes/resumes.service.ts:19-29 | each listed resume comes with its newest version and its version count |
| Resumes.VersionCount | src/resumes/resumes.service.ts:24-28 | the count is the number of the resume's versions, and zero iff it has none |
| Resumes.ListedVersionsCounted | src/resumes/resumes.service.ts:24-28 | the versions listed for a resume are as many as the version rows that belong to it |
| Resumes.OwnedSorted | src/resumes/resumes.service.ts:16-31 | only and all of the user's resumes, each once, most recently updated first |
| Resumes.ListedInOrder | src/resumes/resumes.service.ts:16-31 | summaries built from the sorted list keep its contents, its order and its lack of repetitions |
| Resumes.FindAll | src/resumes/resumes.service.ts:16-32 | only and all of the caller's resumes, each once, most recently updated first, each with its newest version and its version count |
| Resumes.ResumesService.Create | src/resumes/resumes.service.ts:55-78 | a taken slug, whoever owns it, gives Conflict "Slug already taken" and writes nothing; a missing owner is refused by the foreign key; otherwise one unpublished resume with the resolved slug is added under the counter |
| Resumes.ResumesService.Update | src/resumes/resumes.service.ts:80-87 | the guard first; on error nothing changes, otherwise only that resume is patched |
| Resumes.ResumesService.Remove | src/resumes/resumes.service.ts:89-94 | the guard first; on error nothing changes, otherwise exactly that resume is deleted |
| Resumes.ResumesService.CreateVersion | src/resumes/resumes.service.ts:96-109 | the guard first; on error nothing changes, otherwise one version is added under the counter |
| Resumes.ResumesService.Publish | src/resumes/resumes.service.ts:111-122 | the table changes exactly as `PublishCheck` says, and not at all on error |
| Resumes.AddResumeValid | src/resumes/resumes.service.ts:71-77 | adding a resume with a fresh id and slug and an existing owner keeps the invariant |
| Projects.Owned | src/projects/projects.service.ts:33-51 | NotFound iff the project is missing, Forbidden iff it belongs to someone else (NotFound first), otherwise the stored project |
| Projects.FindOne | src/projects/projects.service.ts:33-51 | the guard's outcome, with exactly the project's stored media (`MediaOf`): all of them, only them, each once |
| Projects.Created | src/projects/projects.service.ts:69-76 | the new project has the DTO's title, short description and description, the resolved slug, the owner, the given tech stack or an empty one, the column's default visibility and the creation time |
| Projects.Patched | src/projects/projects.service.ts:82-85 | an update keeps id, owner and slug, applies the given fields and stamps `updatedAt` |
| Projects.MediaCheck | src/projects/projects.service.ts:114-123 | the guard's error first; then success iff the media exists and belongs to this project, otherwise NotFound "Media not found" |
| Projects.Summaries | src/projects/projects.service.ts:19-28 | each listed project comes with its media and a media count equal to the number of media listed |
| Projects.MediaCounted | src/projects/projects.service.ts:22-26 | the media listed for a project are as many as the media rows that belong to it |
| Projects.OwnedSorted | src/projects/projects.service.ts:16-30 | only and all of the user's projects, each once, most recently updated first |
| Projects.ListedInOrder | src/projects/projects.service.ts:16-30 | summaries built from the sorted list keep its contents, its order and its lack of repetitions |
| Projects.FindAll | src/projects/projects.service.ts:16-31 | only and all of the caller's projects, each once, most recently updated first, each with its media and media count |
| Projects.AddProjectValid | src/projects/projects.service.ts:69-76 | adding a project with a fresh id and slug and an existing owner keeps the invariant |
| Projects.ReplaceProjectValid | src/projects/projects.service.ts:82-85 | replacing a project with one of the same owner and slug keeps the invariant |
| Projects.ProjectsService.Create | src/projects/projects.service.ts:53-77 | a taken slug gives Conflict and writes nothing; a missing owner is refused by the foreign key; otherwise exactly the created project is added under the counter |
| Projects.ProjectsService.Update | src/projects/projects.service.ts:79-86 | the guard first; on error nothing changes, otherwise only that project is patched |
| Projects.ProjectsService.Remove | src/projects/projects.service.ts:88-93 | the guard first; on error nothing changes, otherwise exactly that project is deleted |
| Projects.ProjectsService.AddMedia | src/projects/projects.service.ts:95-112 | the guard first; on error nothing changes, otherwise one media row for the project is added under the counter |
| Projects.ProjectsService.RemoveMedia | src/projects/projects.service.ts:114-128 | the outcome is `MediaCheck`'s; on error nothing is deleted, otherwise exactly that media row is |
| Achievements.FindOne | src/achievements/achievements.service.ts:21-35 | NotFound iff missing, Forbidden iff another owner's (NotFound first), otherwise the stored achievement |
| Achievements.FindAll | src/achievements/achievements.service.ts:14-19 | only and all of the caller's achievements, newest first |
| Achievements.KeptDate | src/achievements/achievements.service.ts:42-44 | a truthy date is stored as given; a falsy one becomes absent |
| Achievements.Patched | src/achievements/achievements.service.ts:56-64 | an update keeps id and owner and applies the given fields; without a truthy date the stored date stays |
| Achievements.PatchedIdempotent | src/achievements/achievements.service.ts:56-64 | applying the same update twice gives what once gives |
| Achievements.AchievementsService.Create | src/achievements/achievements.service.ts:37-47 | the new achievement carries the caller's id and is added under the counter; a missing user is refused by the foreign key |
| Achievements.AchievementsService.Update | src/achievements/achievements.service.ts:49-65 | the guard first; on error nothing changes, otherwise only that achievement is patched |
| Achievements.AchievementsService.Remove | src/achievements/achievements.service.ts:67-72 | the guard first; on error nothing changes, otherwise exactly that achievement is deleted |
| Markdown.SplitLines | src/resumes/pdf.service.ts:63-70 | the lines of a text: at least one, none holding a line break |
| Markdown.JoinSplit | src/resumes/pdf.service.ts:63-70 | joining the lines with `\n` gives the text back |
| Markdown.SplitLine | src/resumes/pdf.service.ts:63-70 | a text without a break is one line |
| Markdown.ReplaceLines | src/resumes/pdf.service.ts:64-67 | a pass over lines none of which starts with the rule's prefix leaves the text unchanged |
| Markdown.BlockLine | src/resumes/pdf.service.ts:64-67 | a line is rewritten iff it starts with `# `, `## `, `### ` or `* `, and stays on one line |
| Markdown.Blocks | src/resumes/pdf.service.ts:64-67 | the four block passes over the text act line by line |
| Markdown.SplitCons | src/resumes/pdf.service.ts:63-70 | splitting `line \n rest` gives the line, then the lines of the rest |
| Markdown.SplitJoin | src/resumes/pdf.service.ts:63-70 | splitting lines joined with `\n` gives them back |
| Markdown.RewriteLine | src/resumes/pdf.service.ts:64-67 | a block rule keeps a line free of breaks |
| Markdown.RewriteLines | src/resumes/pdf.service.ts:64-67 | a block rule rewrites each line on its own |
| Markdown.ReplaceJoined | src/resumes/pdf.service.ts:64-67 | a line-anchored pass over joined lines is the join of the rewritten lines |
| Markdown.BlockRulesOnLine | src/resumes/pdf.service.ts:64-67 | the `# `, `## `, `### ` and `* ` passes, in that order, applied to one line give its block conversion (the rest of the line wrapped in h1, h2, h3 or li) |
| Markdown.BlockLines | src/resumes/pdf.service.ts:64-67 | the block conversion of each line |
| Markdown.BlockRulesOnLines | src/resumes/pdf.service.ts:64-67 | the four passes over all lines equal the per-line block conversion |
| Markdown.RewriteKeepsLines | src/resumes/pdf.service.ts:64-67 | block passes never create line breaks |
| Markdown.FindClose | src/resumes/pdf.service.ts:68-69 | a place found holds the delimiter and lies at or after the search start |
| Markdown.FindCloseFirst | src/resumes/pdf.service.ts:68-69 | the lazy match: the place found is the first delimiter at or after the start, with no line break before it; when none is found, every later delimiter lies past a line break |
| Markdown.PairAt | src/resumes/pdf.service.ts:68-69 | a match opens with the delimiter and closes at a later delimiter |
| Markdown.PairAtFirst | src/resumes/pdf.service.ts:68-69 | a match closes at the first later delimiter on its line; a text opening with the delimiter has no match only when no later delimiter lies on that line |
| Markdown.ReplacePairs | src/resumes/pdf.service.ts:68-69 | text without the delimiter's first character is unchanged, and a pass over one line stays on one line |
| Markdown.ReplaceBreaks | src/resumes/pdf.service.ts:70 | the converted body contains no line break |
| Markdown.BreakOf | src/resumes/pdf.service.ts:70 | a break becomes `<br>`; every other character is kept |
| Markdown.FindCloseOnLine | src/resumes/pdf.service.ts:68-69 | text after a line break does not change the search within the line |
| Markdown.PairAtOnLine | src/resumes/pdf.service.ts:68-69 | a match at the start of a line is the same with or without the following lines |
| Markdown.ReplacePairsOnLine | src/resumes/pdf.service.ts:68-69 | an inline pass over `line \n rest` is the pass over the line, `\n`, then the pass over the rest |
| Markdown.PairOnLine | src/resumes/pdf.service.ts:68-69 | the same, when the line starts with a match |
| Markdown.CharOnLine | src/resumes/pdf.service.ts:68-69 | the same, when the line does not start with a match |
| Markdown.LinesHtml | src/resumes/pdf.service.ts:63-69 | the conversion of each line |
| Markdown.PairsLines | src/resumes/pdf.service.ts:68-69 | an inline pass on each line |
| Markdown.PairsLinesKeepNoBreak | src/resumes/pdf.service.ts:68-69 | inline passes on lines keep them free of breaks |
| Markdown.ReplacePairsJoined | src/resumes/pdf.service.ts:68-69 | an inline pass over joined lines is the join of the passes over each line |
| Markdown.ReplaceBreaksJoined | src/resumes/pdf.service.ts:70 | replacing breaks turns lines joined with `\n` into lines joined with `<br>` |
| Markdown.ReplaceBreaksLine | src/resumes/pdf.service.ts:70 | a line without breaks is unchanged |
| Markdown.ReplaceBreaksAppend | src/resumes/pdf.service.ts:70 | replacing breaks distributes over concatenation |
| Markdown.InlineLine | src/resumes/pdf.service.ts:68-69 | a line without `*` is unchanged, and a line stays one line |
| Markdown.LineHtml | src/resumes/pdf.service.ts:64-69 | a line without `*` that is not a heading is unchanged, and a line stays one line |
| Markdown.PairAround | src/resumes/pdf.service.ts:68-69 | a delimiter, a text without the delimiter's first character or a line break, and the delimiter again form one match |
| Markdown.LastStarKept | src/resumes/pdf.service.ts:68-69 | text whose only delimiter character is its last one is unchanged by a pass with a delimiter of two characters |
| Markdown.NoStrongPair | src/resumes/pdf.service.ts:68 | `*x*` with no `*` in x holds no `**` match |
| Markdown.StrongPassSkipsStars | src/resumes/pdf.service.ts:68 | the strong pass leaves `*x*` unchanged when x holds no `*` |
| Markdown.StrongPair | src/resumes/pdf.service.ts:68 | for every one-line x without `*`, `**x**` becomes `<strong>x</strong>` |
| Markdown.EmPair | src/resumes/pdf.service.ts:69 | for every one-line x without `*`, `*x*` becomes `<em>x</em>` |
| Markdown.ConvertContent | src/resumes/pdf.service.ts:63-70 | the body has no line break, and it is each line converted on its own, joined with `<br>` |
| Markdown.ConvertPerLine | src/resumes/pdf.service.ts:63-70 | the seven passes over the whole text equal the per-line conversion joined with `<br>` |
| Markdown.LinesHtmlStages | src/resumes/pdf.service.ts:63-69 | the block passes, then strong, then emphasis, line by line, are the per-line conversion |
| Markdown.BlockLinesKeepNoBreak | src/resumes/pdf.service.ts:64-67 | block conversion keeps lines free of breaks |
| Markdown.HeadingExample | src/resumes/pdf.service.ts:66 | `### Hi` becomes `<h3>Hi</h3>` |
| Markdown.ItemExample | src/resumes/pdf.service.ts:67 | `* a` becomes `<li>a</li>` |
| Markdown.NoSpaceExample | src/resumes/pdf.service.ts:64 | `#Hi`, without the space, is not a heading |
| Markdown.StrongExample | src/resumes/pdf.service.ts:68 | `**a**` becomes `<strong>a</strong>` |
| Markdown.EmExample | src/resumes/pdf.service.ts:69 | `*a*` becomes `<em>a</em>` |
| Markdown.StrongPassSkipsEm | src/resumes/pdf.service.ts:68 | the strong pass leaves `*a*` alone |
| Markdown.UnclosedStrong | src/resumes/pdf.service.ts:68 | an unclosed `**` is left by the strong pass |
| Markdown.LoneStrongExample | src/resumes/pdf.service.ts:68-69 | an unclosed `**a` becomes `<em></em>a` by the emphasis pass |
| Markdown.ConvertTwoLines | src/resumes/pdf.service.ts:63-70 | two lines convert each on its own, joined by `<br>` |
| Pdf.AuthorIsSelected | src/resumes/pdf.service.ts:17-23 | two users give the same page author exactly when they agree on name, headline and e-mail (the selected fields), and then the same page |
| Pdf.Title | src/resumes/pdf.service.ts:95 | the heading is the author's name when truthy, otherwise "Resume"; never empty |
| Pdf.Header | src/resumes/pdf.service.ts:95-97 | the header opens with the title in `<h1>`; it shows the headline in bold right after the title when the headline is truthy, and nothing of it otherwise; after the title and the headline paragraph comes exactly the e-mail paragraph when the e-mail is non-empty, and nothing at all otherwise |
| Pdf.PageHead | src/resumes/pdf.service.ts:72-99 | the part of the page before the content ends with the header and the opening of the main part |
| Pdf.Page | src/resumes/pdf.service.ts:72-104 | the page is the head, the converted content verbatim, and the fixed tail |
| Pdf.NewestOwnedVersion | src/resumes/pdf.service.ts:10-34 | "Resume not found or access denied" iff the resume is missing or another user's; "No resume version found" iff it has no version; otherwise its newest version |
| Pdf.PdfHtml | src/resumes/pdf.service.ts:9-36 | the same two errors under the same conditions; otherwise the page for the author with the newest version's content converted |
| Pdf.NewVersionIsRendered | src/resumes/pdf.service.ts:9-36 | after a version is created on an owned resume, the page renders exactly that content |
| Storage.Extension | src/storage/storage.service.ts:53 | the text after the last `.` of the name, or the whole name when it has none; it contains no `.` |
| Storage.FileKey | src/storage/storage.service.ts:53-54 | the key is the folder (default `uploads`), `/`, the uuid and `.`, followed by exactly the extension of the file name, so its own extension is the file name's |
| Storage.ExtensionAfterDot | src/storage/storage.service.ts:53 | the extension of a string ending in `.ext` is `ext` |
| Storage.KeyDeterminesUuid | src/storage/storage.service.ts:53-54 | for the same folder and name, different uuids give different keys |
| Storage.FirstDotSplits | src/storage/storage.service.ts:54 | behind a common prefix, the text before the next `.` is determined by the key |
| Storage.DotAfter | src/storage/storage.service.ts:54 | searching a key for `.` from anywhere within the uuid finds the dot right after the uuid |
| Storage.PublicUrl | src/storage/storage.service.ts:114-124 | the bucket address plus the key when endpoint and bucket name are both truthy; the key alone otherwise |
| Storage.PublicUrlEndsWithKey | src/storage/storage.service.ts:114-124 | every public URL ends with its key |
| Storage.StorageService.constructor | src/storage/storage.service.ts:16-42 | a client exists iff both credentials are truthy; the bucket is the configured name or "portfoliox-media" |
| Storage.StorageService.PresignedUpload | src/storage/storage.service.ts:44-70 | "S3 client not configured" iff there is no client, and success iff there is one; then a put request for the key built from folder, uuid and the name's extension, valid for 3600 seconds |
| Storage.StorageService.PresignedDownload | src/storage/storage.service.ts:72-86 | "S3 client not configured" iff there is no client, and success iff there is one; then a get request for the key, valid for the given time or 3600 seconds |
| Storage.StorageService.UploadFile | src/storage/storage.service.ts:88-112 | "S3 client not configured" iff there is no client, and success iff there is one; then the key, its public URL and the put request that carries the file |
| Storage.UploadedFileFindable | src/storage/storage.service.ts:96-111 | an uploaded file's URL ends with its key, the key keeps the file's extension, and the request stores it under that key |
| Storage.ExtensionOfDotless | src/storage/storage.service.ts:53 | a name without `.` is its own extension |
| Storage.LastDotExample | src/storage/storage.service.ts:53 | `archive.tar.gz` has extension `gz` |
| Storage.TrailingDotExample | src/storage/storage.service.ts:53 | `name.` has the empty extension |

## Left out

- Database I/O is modelled as in-memory maps. Each write is one step, with no transactions: sign-up's user and profile inserts are separate writes, and the handle and slug checks are check-then-insert.
- Concurrency is not modelled. Concurrent refreshes and concurrent handle or slug allocation can race in the code.
- bcrypt cost, salting and timing are not modelled. The hash is ideal.
- JWT signing, secrets and expiry are not modelled. Issued tokens and the verification result are parameters, and nothing assumes a new token differs from the previous one except `Auth.RotatedTokenRefused`, which states that as a premise.
- Cookie options other than name, value, `httpOnly`, `secure`, `sameSite` and `maxAge` are left out, and so is the Express response object.
- The `loginLocal` route, which calls `login` with an empty password, is not modelled. Its outcome depends only on bcrypt. src/auth/dto/login.dto.ts is not part of this model.
- `forgotPassword` sends no e-mail in the code; the model has nothing to send either.
- Puppeteer rendering to PDF is not modelled. `Pdf.PdfHtml` stops at the HTML that would be rendered.
- The page template's `<style>` block, indentation and whitespace are omitted: `Pdf.PageHead` and `Pdf.PageTail` keep only the tags around the header, the content and the tail, so the model's page is not character-for-character the template.
- The `i` flag of the markdown patterns has no effect on these patterns and is not modelled. Line terminators other than `\n` (`\r`, U+2028, U+2029, which the `m` flag and `.` also treat as line ends) are not modelled.
- S3 URL signing and the upload itself are not modelled. The model returns the request, so with a client configured every call succeeds: errors raised by the S3 SDK or the network are not an outcome of the model. uuid generation is a parameter, and the `console.warn` when credentials are missing is left out.
- `new Date(...)` parsing of achievement dates is not modelled. The date is the text the client sent.
- Link tables (`links` on profiles and projects) and the `_count` of links are not modelled.
- Referential actions on delete are not modelled. Removing a resume or project does not remove its versions or media in the model.
- Validation of the media `type` against the schema's enum is not modelled. The type is stored as given.
- Lower-casing is ASCII only. Unicode case mapping of `toLowerCase` is not modelled.
- `createdAt` is the id order. Timestamps as values and `orderBy` ties on equal `updatedAt` are not modelled beyond "sorted".
- "A published resume has a version" is not an invariant. `update` can set `isPublished` directly, so the model does not claim it.
- `src/ai` (OpenAI calls) is outside the modelled core.
- Resumes.FindAll: the order among resumes with equal `updatedAt` is not stated (the database does not define it).
- Projects.FindAll: the order among projects with equal `updatedAt` is not stated (the database does not define it).

## Findings

| source | as written | input that shows it | evidently intended | confidence | as-written member | corrected member |
|---|---|---|---|---|---|---|
| src/users/users.service.ts:94-95 | `getPublicProfile` strips `passwordHash` and `email` but returns every other column of the user row, including the stored `refreshToken` | a logged-in user with handle `alice` and stored refresh token T; an anonymous `GET` of the public profile for `alice` returns T, and presenting T to `refresh` succeeds for that user | the public profile also omits the refresh token, so no secret of the user reaches it | not executed | Users.GetPublicProfileAsWritten, Users.PublicProfileLeaksSession | Users.GetPublicProfile, Users.PublicProfileHidesSecrets |
