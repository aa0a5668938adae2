/**
 * Site-root inference: an explicit site root is kept; otherwise the first
 * `url = …` line of `<path>/.git/config` is classified as a GitHub SSH or
 * HTTPS remote and rewritten, and every failure gives the sentinel
 * "Unknown".
 */
module SiteRoot {
  import opened Wrappers
  import opened JsString

  /** What the action finds under `<path>/.git`: nothing, a config it cannot read, or the config text. */
  datatype GitDir = NoGitDir | ReadFailed | ConfigText(text: string)

  /** Why inference gave up; each has its own warning line. */
  datatype Failure =
    | UnrecognizedUrlFormat  // a url line that is neither form
    | UrlNotFound            // no `url = ` line in the config
    | ConfigUnreadable       // reading the config threw
    | NotInferable           // no `.git` directory

  /** How the site root was settled. */
  datatype Resolution =
    | Given(root: string)     // the siteRoot argument
    | Inferred(root: string)  // rewritten from the Git remote
    | Unknown(reason: Failure)

  const UrlKey := "url = "
  const SshPrefix := "git@github.com:"
  const HttpsPrefix := "https://github.com/"
  const Sentinel := "Unknown"

  /** `!siteRoot` is false: the argument is there and is not the empty string. */
  predicate Provided(siteRoot: Option<string>) {
    siteRoot.Some? && siteRoot.value != ""
  }

  /**
   * The unanchored regular expression /url = (.+)/ matches at index `i`:
   * the key, then at least one character that `.` accepts.
   */
  predicate MatchesAt(text: string, i: nat) {
    OccursAt(text, UrlKey, i) && i + |UrlKey| < |text| && !IsLineTerminator(text[i + |UrlKey|])
  }

  /** What greedy `.+` captures from `k`: the longest run without a line terminator. */
  function LineFrom(text: string, k: nat): (r: string)
    requires k <= |text|
    ensures k + |r| <= |text| && r == text[k..k + |r|]
    ensures forall j :: 0 <= j < |r| ==> !IsLineTerminator(r[j])
    ensures k + |r| == |text| || IsLineTerminator(text[k + |r|])
    decreases |text| - k
  {
    if k == |text| || IsLineTerminator(text[k]) then "" else [text[k]] + LineFrom(text, k + 1)
  }

  /** Where the regular expression matches first, searching from `from`. */
  function FirstMatchFrom(text: string, from: nat): (r: Option<nat>)
    ensures r.Some? ==> from <= r.value && MatchesAt(text, r.value)
    ensures forall j: nat :: from <= j && (r.None? || j < r.value) ==> !MatchesAt(text, j)
    decreases |text| - from
  {
    if from + |UrlKey| >= |text| then None
    else if MatchesAt(text, from) then Some(from)
    else FirstMatchFrom(text, from + 1)
  }

  /** urlMatch[1] of gitConfig.match(/url = (.+)/), `None` when there is no match. */
  function MatchUrl(text: string): (r: Option<string>)
  {
    match FirstMatchFrom(text, 0)
    case None => None
    case Some(i) => Some(LineFrom(text, i + |UrlKey|))
  }

  /**
   * Only the first match counts: the capture is the rest of the line after
   * the earliest `url = ` that has a character after it (also the one inside
   * `pushurl = `); without such a place there is no capture.
   */
  lemma MatchUrlIsFirst(text: string, i: nat)
    requires MatchesAt(text, i)
    requires forall j: nat :: j < i ==> !MatchesAt(text, j)
    ensures MatchUrl(text) == Some(LineFrom(text, i + |UrlKey|))
    ensures |MatchUrl(text).value| > 0
  {
  }

  /** The capture is exactly a run that ends at a line terminator or at the end of the text. */
  lemma LineFromIs(text: string, k: nat, v: string)
    requires k + |v| <= |text| && text[k..k + |v|] == v
    requires forall j :: 0 <= j < |v| ==> !IsLineTerminator(v[j])
    requires k + |v| == |text| || IsLineTerminator(text[k + |v|])
    ensures LineFrom(text, k) == v
  {
  }

  /**
   * The search is unanchored, so a `pushurl = ` line placed first is the one
   * whose value is captured, up to the end of its line.
   */
  lemma PushUrlIsMatched(v: string, more: string)
    requires v != [] && forall j :: 0 <= j < |v| ==> !IsLineTerminator(v[j])
    ensures MatchUrl("pushurl = " + v + "\n" + more) == Some(v)
  {
    var text := "pushurl = " + v + "\n" + more;
    assert text[4..10] == UrlKey;
    assert text[10..10 + |v|] == v;
    assert text[10 + |v|] == '\n';
    assert MatchesAt(text, 4) by {
      assert text[10] == v[0];
    }
    forall j: nat | j < 4
      ensures !MatchesAt(text, j)
    {
      assert text[j..j + 6][0] == text[j];
      assert text[j..j + 6][1] == text[j + 1];
    }
    MatchUrlIsFirst(text, 4);
    LineFromIs(text, 10, v);
  }

  lemma MatchUrlNone(text: string)
    ensures MatchUrl(text).None? <==> forall j: nat :: !MatchesAt(text, j)
  {
  }

  /** The rewrite of a trimmed remote URL (the two GitHub forms, or a failure). */
  function FromGitUrl(gitUrl: string): (r: Resolution)
    ensures !r.Given?
    ensures r.Inferred? ==> StartsWith(r.root, "https://")
    ensures r.Unknown? <==> !StartsWith(gitUrl, SshPrefix) && !StartsWith(gitUrl, HttpsPrefix)
    ensures r.Unknown? ==> r.reason == UnrecognizedUrlFormat
  {
    if StartsWith(gitUrl, SshPrefix) then
      StartsWithOccurs(gitUrl, SshPrefix);
      var repoPath := ReplaceFirst(Split(gitUrl, SshPrefix)[1], ".git", "");
      Inferred("https://" + ReplaceFirst(repoPath, ":", "/"))
    else if StartsWith(gitUrl, HttpsPrefix) then
      StartsWithOccurs(gitUrl, HttpsPrefix);
      var repoPath := ReplaceFirst(Split(gitUrl, HttpsPrefix)[1], ".git", "");
      var pieces := Split(repoPath, "/");
      var user := pieces[0];
      var repo := if |pieces| > 1 then pieces[1] else "undefined";
      Inferred("https://" + user + ".github.io/" + repo)
    else
      Unknown(UnrecognizedUrlFormat)
  }

  /** Inference from the `.git` directory alone. */
  function Infer(git: GitDir): (r: Resolution)
    ensures !r.Given?
    ensures r == Unknown(NotInferable) <==> git.NoGitDir?
    ensures r == Unknown(ConfigUnreadable) <==> git.ReadFailed?
    ensures r == Unknown(UrlNotFound) <==> git.ConfigText? && forall j: nat :: !MatchesAt(git.text, j)
    ensures r == Unknown(UnrecognizedUrlFormat) <==>
              git.ConfigText? && MatchUrl(git.text).Some?
              && var gitUrl := Trim(MatchUrl(git.text).value);
                 !StartsWith(gitUrl, SshPrefix) && !StartsWith(gitUrl, HttpsPrefix)
  {
    match git
    case NoGitDir => Unknown(NotInferable)
    case ReadFailed => Unknown(ConfigUnreadable)
    case ConfigText(text) =>
      MatchUrlNone(text);
      match MatchUrl(text)
      case None => Unknown(UrlNotFound)
      case Some(captured) => FromGitUrl(Trim(captured))
  }

  /**
   * On a match the remote URL is the first capture with its surrounding
   * white space trimmed, and the site root is the rewrite of that URL.
   */
  lemma InferFromFirstMatch(text: string, i: nat, w1: string, u: string, w2: string)
    requires MatchesAt(text, i)
    requires forall j: nat :: j < i ==> !MatchesAt(text, j)
    requires LineFrom(text, i + |UrlKey|) == w1 + u + w2
    requires AllWhiteSpace(w1) && AllWhiteSpace(w2) && IsTrimmed(u)
    ensures Infer(ConfigText(text)) == FromGitUrl(u)
  {
    MatchUrlIsFirst(text, i);
    TrimIsCore(w1, u, w2);
  }

  /** The site root decision: a provided argument wins and no inference runs. */
  function Resolve(siteRoot: Option<string>, git: GitDir): (r: Resolution)
    ensures r.Given? <==> Provided(siteRoot)
    ensures r.Given? ==> r.root == siteRoot.value
    ensures !Provided(siteRoot) ==> r == Infer(git)
  {
    if Provided(siteRoot) then Given(siteRoot.value) else Infer(git)
  }

  /** The value `siteRoot` holds once inference is over. */
  function SiteRootText(r: Resolution): string {
    match r
    case Given(root) => root
    case Inferred(root) => root
    case Unknown(_) => Sentinel
  }

  /**
   * Without a provided argument the site root is "Unknown" exactly when
   * inference failed: no rewritten remote can be mistaken for the sentinel.
   * The settled site root is never empty.
   */
  lemma SentinelMeansFailure(siteRoot: Option<string>, git: GitDir)
    ensures !Provided(siteRoot) ==>
              (SiteRootText(Resolve(siteRoot, git)) == Sentinel <==> Resolve(siteRoot, git).Unknown?)
    ensures SiteRootText(Resolve(siteRoot, git)) != ""
  {
    var r := Resolve(siteRoot, git);
    if r.Inferred? {
      assert r.root[0] == 'h';
    }
  }

  /**
   * SSH remote: "https://" and the text after `git@github.com:` (up to a
   * second occurrence of that prefix), with its first ".git" removed and
   * then its first ":" turned into "/".
   */
  lemma SshRewrite(rest: string)
    ensures var after := match IndexOf(rest, SshPrefix)
                         case None => rest
                         case Some(k) => rest[..k];
            FromGitUrl(SshPrefix + rest)
            == Inferred("https://" + ReplaceFirst(ReplaceFirst(after, ".git", ""), ":", "/"))
  {
    var gitUrl := SshPrefix + rest;
    assert StartsWith(gitUrl, SshPrefix) by {
      assert gitUrl[..|SshPrefix|] == SshPrefix;
    }
    SplitAtStart(gitUrl, SshPrefix);
    assert gitUrl[|SshPrefix|..] == rest;
    var pieces := Split(rest, SshPrefix);
    assert Split(gitUrl, SshPrefix)[1] == pieces[0];
  }

  /** A URL that starts with the HTTPS prefix does not start with the SSH one. */
  lemma HttpsIsNotSsh(gitUrl: string)
    requires StartsWith(gitUrl, HttpsPrefix)
    ensures !StartsWith(gitUrl, SshPrefix)
  {
    assert gitUrl[..|HttpsPrefix|][0] == 'h';
  }

  /**
   * The HTTPS branch: the text after `https://github.com/` (up to a second
   * occurrence of that prefix), its first ".git" removed, then its first two
   * "/"-pieces, with `undefined` for a missing second one.
   */
  lemma HttpsBranch(rest: string)
    ensures var after := match IndexOf(rest, HttpsPrefix)
                         case None => rest
                         case Some(k) => rest[..k];
            var pieces := Split(ReplaceFirst(after, ".git", ""), "/");
            FromGitUrl(HttpsPrefix + rest)
            == Inferred("https://" + pieces[0] + ".github.io/"
                        + (if |pieces| > 1 then pieces[1] else "undefined"))
  {
    var gitUrl := HttpsPrefix + rest;
    assert gitUrl[..|HttpsPrefix|] == HttpsPrefix;
    HttpsIsNotSsh(gitUrl);
    SplitAtStart(gitUrl, HttpsPrefix);
    assert gitUrl[|HttpsPrefix|..] == rest;
    assert Split(gitUrl, HttpsPrefix)[1] == Split(rest, HttpsPrefix)[0];
  }

  /** `user/repo` followed by nothing or by a "/": the first two pieces are `user` and `repo`. */
  lemma UserThenRepo(user: string, repo: string, tail: string)
    requires !Contains(user, "/") && !Contains(repo, "/")
    requires tail == "" || tail[0] == '/'
    ensures var pieces := Split(user + "/" + repo + tail, "/");
            |pieces| > 1 && pieces[0] == user && pieces[1] == repo
  {
    forall j | 0 <= j < |user|
      ensures user[j] != '/'
    {
      OccursAtChar(user, '/', j);
    }
    forall j | 0 <= j < |repo|
      ensures repo[j] != '/'
    {
      OccursAtChar(repo, '/', j);
    }
    assert user + "/" + repo + tail == user + ['/'] + (repo + tail);
    SplitAtChar(user, '/', repo + tail);
    if tail == "" {
      assert repo + tail == repo;
      IndexOfCharAbsent(repo, '/');
    } else {
      assert repo + tail == repo + ['/'] + tail[1..];
      SplitAtChar(repo, '/', tail[1..]);
    }
  }

  /**
   * HTTPS remote whose remainder, after its first ".git" is removed, reads
   * `user/repo` or `user/repo/…`: the site root is https://user.github.io/repo.
   */
  lemma HttpsRewrite(rest: string, user: string, repo: string, tail: string)
    requires !Contains(rest, HttpsPrefix)
    requires ReplaceFirst(rest, ".git", "") == user + "/" + repo + tail
    requires !Contains(user, "/") && !Contains(repo, "/")
    requires tail == "" || tail[0] == '/'
    ensures FromGitUrl(HttpsPrefix + rest) == Inferred("https://" + user + ".github.io/" + repo)
  {
    HttpsBranch(rest);
    UserThenRepo(user, repo, tail);
  }

  /** An HTTPS remainder without any "/" renders JavaScript's `undefined` as the repository. */
  lemma HttpsWithoutRepo(rest: string)
    requires !Contains(rest, HttpsPrefix)
    requires !Contains(ReplaceFirst(rest, ".git", ""), "/")
    ensures FromGitUrl(HttpsPrefix + rest)
            == Inferred("https://" + ReplaceFirst(rest, ".git", "") + ".github.io/" + "undefined")
  {
    var repoPath := ReplaceFirst(rest, ".git", "");
    SplitAbsent(repoPath, "/");
    var pieces := Split(repoPath, "/");
    assert |pieces| == 1 && pieces[0] == repoPath;
    HttpsBranch(rest);
  }

  /** A name like "alice" or "blog": no ".", ":", "@" or "/". */
  predicate PlainName(s: string) {
    forall j :: 0 <= j < |s| ==> s[j] != '.' && s[j] != ':' && s[j] != '@' && s[j] != '/'
  }

  /** The first ".git" is removed wherever it stands: "alice.github.io.git" gives "alicehub.io.git". */
  lemma GitRemovedFromGithubIo(name: string)
    requires forall j :: 0 <= j < |name| ==> name[j] != '.'
    ensures ReplaceFirst(name + ".github.io.git", ".git", "") == name + "hub.io.git"
  {
    var s := name + ".github.io.git";
    assert s[|name|..|name| + 4] == ".git";
    IndexOfByFirstChar(s, ".git", |name|);
    assert s[|name| + 4..] == "hub.io.git";
  }

  /** Text without an "@" holds no SSH prefix. */
  lemma AtInSshPrefix(rest: string, k: nat)
    requires OccursAt(rest, SshPrefix, k)
    ensures rest[k + 3] == '@'
  {
    assert rest[k..k + |SshPrefix|][3] == '@';
  }

  lemma NoSshPrefixWithoutAt(rest: string)
    requires forall j :: 0 <= j < |rest| ==> rest[j] != '@'
    ensures !Contains(rest, SshPrefix)
  {
    forall k: nat | OccursAt(rest, SshPrefix, k)
      ensures false
    {
      AtInSshPrefix(rest, k);
    }
  }

  /** A ".git" at the end of text without any "." is the first one, so only it goes. */
  lemma StripLastGit(body: string)
    requires forall j :: 0 <= j < |body| ==> body[j] != '.'
    ensures ReplaceFirst(body + ".git", ".git", "") == body
  {
    var rest := body + ".git";
    assert rest[|body|..|body| + 4] == ".git";
    IndexOfByFirstChar(rest, ".git", |body|);
    assert rest[..|body|] == body;
  }

  /** Two plain names joined by "/" hold no ".", ":" or "@". */
  lemma JoinedPlain(owner: string, repo: string)
    requires PlainName(owner) && PlainName(repo)
    ensures var body := owner + "/" + repo;
            forall j :: 0 <= j < |body| ==> body[j] != '.' && body[j] != ':' && body[j] != '@'
  {
    var body := owner + "/" + repo;
    forall j | 0 <= j < |body|
      ensures body[j] != '.' && body[j] != ':' && body[j] != '@'
    {
      if j > |owner| {
        assert body[j] == repo[j - |owner| - 1];
      }
    }
  }

  /** The SSH rewrite when neither a second prefix nor a ":" interferes. */
  lemma SshPlainRewrite(rest: string, body: string)
    requires !Contains(rest, SshPrefix)
    requires ReplaceFirst(rest, ".git", "") == body
    requires forall j :: 0 <= j < |body| ==> body[j] != ':'
    ensures FromGitUrl(SshPrefix + rest) == Inferred("https://" + body)
  {
    assert IndexOf(rest, SshPrefix).None?;
    SshRewrite(rest);
    IndexOfCharAbsent(body, ':');
  }

  /**
   * An SSH remote `git@github.com:owner/repo.git` yields "https://owner/repo",
   * not a github.io address.
   */
  lemma SshRemoteGivesOwnerHost(owner: string, repo: string)
    requires PlainName(owner) && PlainName(repo)
    ensures FromGitUrl(SshPrefix + owner + "/" + repo + ".git")
            == Inferred("https://" + owner + "/" + repo)
  {
    var body := owner + "/" + repo;
    var rest := body + ".git";
    assert SshPrefix + owner + "/" + repo + ".git" == SshPrefix + rest;
    assert "https://" + owner + "/" + repo == "https://" + body;
    JoinedPlain(owner, repo);
    assert forall j :: 0 <= j < |rest| ==> rest[j] != '@' by {
      forall j | 0 <= j < |rest| ensures rest[j] != '@' {
        if j < |body| {
          assert rest[j] == body[j];
        }
      }
    }
    NoSshPrefixWithoutAt(rest);
    StripLastGit(body);
    SshPlainRewrite(rest, body);
  }

  /** Text without a ":" holds no HTTPS prefix. */
  lemma ColonInHttpsPrefix(rest: string, k: nat)
    requires OccursAt(rest, HttpsPrefix, k)
    ensures rest[k + 5] == ':'
  {
    assert rest[k..k + |HttpsPrefix|][5] == ':';
  }

  lemma NoHttpsPrefixWithoutColon(rest: string)
    requires forall j :: 0 <= j < |rest| ==> rest[j] != ':'
    ensures !Contains(rest, HttpsPrefix)
  {
    forall k: nat | OccursAt(rest, HttpsPrefix, k)
      ensures false
    {
      ColonInHttpsPrefix(rest, k);
    }
  }

  /** A plain name has no "/" in the sense of `Contains`. */
  lemma PlainHasNoSlash(s: string)
    requires forall j :: 0 <= j < |s| ==> s[j] != '/'
    ensures !Contains(s, "/")
  {
    IndexOfCharAbsent(s, '/');
  }

  /**
   * An HTTPS remote of a personal site `owner/owner.github.io.git` keeps a
   * path segment, and its first ".git" is the one inside ".github":
   * the result is https://owner.github.io/ownerhub.io.git.
   */
  lemma HttpsPersonalSite(owner: string)
    requires PlainName(owner)
    ensures FromGitUrl(HttpsPrefix + owner + "/" + owner + ".github.io.git")
            == Inferred("https://" + owner + ".github.io/" + owner + "hub.io.git")
  {
    var body := owner + "/" + owner;
    var rest := body + ".github.io.git";
    var repo := owner + "hub.io.git";
    assert HttpsPrefix + owner + "/" + owner + ".github.io.git" == HttpsPrefix + rest;
    assert body + "hub.io.git" == owner + "/" + repo + "";
    assert "https://" + owner + ".github.io/" + owner + "hub.io.git"
           == "https://" + owner + ".github.io/" + repo;
    JoinedPlain(owner, owner);
    assert forall j :: 0 <= j < |rest| ==> rest[j] != ':' by {
      forall j | 0 <= j < |rest| ensures rest[j] != ':' {
        if j < |body| {
          assert rest[j] == body[j];
        } else {
          assert rest[j] == ".github.io.git"[j - |body|];
        }
      }
    }
    NoHttpsPrefixWithoutColon(rest);
    GitRemovedFromGithubIo(body);
    PlainHasNoSlash(owner);
    forall j | 0 <= j < |repo|
      ensures repo[j] != '/'
    {
      if j >= |owner| {
        assert repo[j] == "hub.io.git"[j - |owner|];
      }
    }
    PlainHasNoSlash(repo);
    HttpsRewrite(rest, owner, repo, "");
  }

  /**
   * The two remote forms of one repository give different site roots:
   * the SSH form loses the github.io host that the HTTPS form has.
   */
  lemma SshAndHttpsDisagree(owner: string, repo: string)
    requires PlainName(owner) && PlainName(repo)
    ensures FromGitUrl(SshPrefix + owner + "/" + repo + ".git")
            == Inferred("https://" + owner + "/" + repo)
    ensures FromGitUrl(HttpsPrefix + owner + "/" + repo + ".git")
            == Inferred("https://" + owner + ".github.io/" + repo)
    ensures FromGitUrl(SshPrefix + owner + "/" + repo + ".git")
            != FromGitUrl(HttpsPrefix + owner + "/" + repo + ".git")
  {
    var body := owner + "/" + repo;
    var rest := body + ".git";
    assert HttpsPrefix + owner + "/" + repo + ".git" == HttpsPrefix + rest;
    assert body + "" == owner + "/" + repo + "";
    SshRemoteGivesOwnerHost(owner, repo);
    JoinedPlain(owner, repo);
    assert forall j :: 0 <= j < |rest| ==> rest[j] != ':' by {
      forall j | 0 <= j < |rest| ensures rest[j] != ':' {
        if j < |body| {
          assert rest[j] == body[j];
        }
      }
    }
    NoHttpsPrefixWithoutColon(rest);
    StripLastGit(body);
    PlainHasNoSlash(owner);
    PlainHasNoSlash(repo);
    HttpsRewrite(rest, owner, repo, "");
    assert |"https://" + owner + "/" + repo| < |"https://" + owner + ".github.io/" + repo|;
  }
}
