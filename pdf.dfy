/** `PdfService.generatePdf` up to the point where the page is handed to the
    headless browser: the guards on the resume, the choice of the newest
    version, and the HTML page built from it and from its author. */
module Pdf {
  import opened Common
  import opened Db
  import Markdown

  const MsgNotFoundOrDenied := "Resume not found or access denied"
  const MsgNoVersion := "No resume version found"

  /** The author fields the page shows. */
  datatype Author = Author(name: Option<string>, headline: Option<string>, email: string)

  function AuthorOf(u: User): Author {
    Author(u.name, u.headline, u.email)
  }

  /** The page sees the three selected fields of its author and nothing else
      of the user row: two users give the same author exactly when they agree
      on name, headline and e-mail, and then the same page. */
  lemma AuthorIsSelected(u: User, v: User, body: string)
    ensures AuthorOf(u) == AuthorOf(v) <==> u.name == v.name && u.headline == v.headline && u.email == v.email
    ensures u.name == v.name && u.headline == v.headline && u.email == v.email ==>
      Page(AuthorOf(u), body) == Page(AuthorOf(v), body)
  {
  }

  /** `user.name || 'Resume'` */
  function Title(a: Author): (r: string)
    ensures Truthy(a.name) ==> r == a.name.value
    ensures !Truthy(a.name) ==> r == "Resume"
    ensures r != ""
  {
    if Truthy(a.name) then a.name.value else "Resume"
  }

  /** The header: the title in `<h1>`, then the headline in bold if it is
      truthy, then the e-mail address if it is non-empty, and nothing else. */
  function Header(a: Author): (r: string)
    ensures var t := "<h1>" + Title(a) + "</h1>";
      |t| <= |r| && r[..|t|] == t
    ensures !Truthy(a.headline) && a.email == "" ==> r == "<h1>" + Title(a) + "</h1>"
    ensures Truthy(a.headline) ==>
      var start, h := |"<h1>" + Title(a) + "</h1>"|, "<p><strong>" + a.headline.value + "</strong></p>";
      start + |h| <= |r| && r[start..start + |h|] == h
    ensures !Truthy(a.headline) ==>
      r[|"<h1>" + Title(a) + "</h1>"|..] == (if a.email != "" then "<p>" + a.email + "</p>" else "")
    ensures Truthy(a.headline) ==>
      var start, h := |"<h1>" + Title(a) + "</h1>"|, "<p><strong>" + a.headline.value + "</strong></p>";
      start + |h| <= |r| && r[start + |h|..] == (if a.email != "" then "<p>" + a.email + "</p>" else "")
    ensures a.email != "" ==>
      var p := "<p>" + a.email + "</p>";
      |p| <= |r| && r[|r| - |p|..] == p
  {
    var t := "<h1>" + Title(a) + "</h1>";
    var h := if Truthy(a.headline) then "<p><strong>" + a.headline.value + "</strong></p>" else "";
    var e := if a.email != "" then "<p>" + a.email + "</p>" else "";
    var r := t + h + e;
    assert r[..|t|] == t;
    assert r[|t|..|t| + |h|] == h;
    assert r[|r| - |e|..] == e;
    assert r[|t| + |h|..] == e;
    r
  }

  /** Everything of the page before the converted content: it closes with
      the author's header and opens the main part. */
  function PageHead(a: Author): (r: string)
    ensures var h := Header(a) + "</header><main>";
      |h| <= |r| && r[|r| - |h|..] == h
  {
    var h := Header(a) + "</header><main>";
    var r := "<!DOCTYPE html><html><head><meta charset=\"UTF-8\"></head><body><header>" + h;
    assert r[|r| - |h|..] == h;
    r
  }

  const PageTail := "</main></body></html>"

  /** The page handed to the browser: a head that depends on the author
      alone, the converted content verbatim, then the fixed tail. */
  function Page(a: Author, body: string): (p: string)
    ensures |p| == |PageHead(a)| + |body| + |PageTail|
    ensures p[..|PageHead(a)|] == PageHead(a)
    ensures p[|PageHead(a)|..|PageHead(a)| + |body|] == body
    ensures p[|PageHead(a)| + |body|..] == PageTail
  {
    PageHead(a) + body + PageTail
  }

  /** The lookups of `generatePdf`: the resume with its owner check, then
      its newest version. */
  function NewestOwnedVersion(t: Tables, resumeId: Id, userId: Id): (r: Result<ResumeVersion>)
    requires t.Valid()
    ensures r == Err(Failure(MsgNotFoundOrDenied))
      <==> resumeId !in t.resumes || t.resumes[resumeId].userId != userId
    ensures r == Err(Failure(MsgNoVersion))
      <==> (&& resumeId in t.resumes && t.resumes[resumeId].userId == userId
            && forall k :: k in t.versions ==> t.versions[k].resumeId != resumeId)
    ensures r.Err? ==> r.error in {Failure(MsgNotFoundOrDenied), Failure(MsgNoVersion)}
    ensures r.Ok? ==>
      && r.value.id in t.versions && t.versions[r.value.id] == r.value && r.value.resumeId == resumeId
      && (forall j :: j in t.versions && t.versions[j].resumeId == resumeId ==> j <= r.value.id)
      && userId in t.users
  {
    if resumeId !in t.resumes || t.resumes[resumeId].userId != userId then
      Err(Failure(MsgNotFoundOrDenied))
    else
      var latest := LatestVersion(t.versions, t.nextId, resumeId);
      if latest == [] then Err(Failure(MsgNoVersion))
      else Ok(latest[0])
  }

  /** `generatePdf`'s HTML: Failure when the resume does not exist or has
      another owner, Failure when it has no version, and otherwise the page
      for its newest version and its author. */
  function PdfHtml(t: Tables, resumeId: Id, userId: Id): (r: Result<string>)
    requires t.Valid()
    ensures r == Err(Failure(MsgNotFoundOrDenied))
      <==> resumeId !in t.resumes || t.resumes[resumeId].userId != userId
    ensures r == Err(Failure(MsgNoVersion))
      <==> (&& resumeId in t.resumes && t.resumes[resumeId].userId == userId
            && forall k :: k in t.versions ==> t.versions[k].resumeId != resumeId)
    ensures r.Err? ==> r.error in {Failure(MsgNotFoundOrDenied), Failure(MsgNoVersion)}
    ensures r.Ok? ==>
      && userId in t.users
      && (exists k ::
            && k in t.versions && t.versions[k].resumeId == resumeId
            && (forall j :: j in t.versions && t.versions[j].resumeId == resumeId ==> j <= k)
            && r.value == Page(AuthorOf(t.users[userId]), Markdown.ConvertContent(t.versions[k].content)))
  {
    var found := NewestOwnedVersion(t, resumeId, userId);
    if found.Err? then Err(found.error)
    else
      var k := found.value.id;
      Ok(Page(AuthorOf(t.users[userId]), Markdown.ConvertContent(t.versions[k].content)))
  }

  /** After `createVersion` on an owned resume, the page renders the
      content just stored, whatever versions came before. */
  lemma NewVersionIsRendered(t: Tables, resumeId: Id, userId: Id, content: string, tag: Option<string>)
    requires t.Valid() && resumeId in t.resumes && t.resumes[resumeId].userId == userId
    ensures var v := ResumeVersion(t.nextId, resumeId, content, tag);
      var t' := t.(versions := t.versions[t.nextId := v], nextId := t.nextId + 1);
      && t'.Valid()
      && PdfHtml(t', resumeId, userId) == Ok(Page(AuthorOf(t.users[userId]), Markdown.ConvertContent(content)))
  {
    var v := ResumeVersion(t.nextId, resumeId, content, tag);
    AddVersionValid(t, v);
    NewestIsLatest(t.versions, t.nextId, v);
    var t' := t.(versions := t.versions[t.nextId := v], nextId := t.nextId + 1);
    assert LatestVersion(t'.versions, t'.nextId, resumeId) == [v];
    assert t'.resumes == t.resumes && t'.users == t.users;
  }
}
