/**
 * The `init <path> [siteRoot]` action: validate the root name, settle the
 * site root, create the six directories of a Semantic Flow root repository
 * in order, and report. The filesystem is a set of directory paths in which
 * `ensureDir` inserts; the console is a list of abstract messages.
 */
module Scaffold {
  import opened Wrappers
  import opened JsString
  import opened RootName
  import opened SiteRoot

  /** A console line of the action, by meaning rather than by text and colour. */
  datatype Message =
    | InvalidPath              // "Error: Invalid path provided."
    | Warning(reason: Failure) // the warning printed when inference gives up
    | Initialized(path: string)
    | SiteRootLine(root: string)

  /** What one run does: the `ensureDir` calls in order, the console lines in order, the exit code. */
  datatype Outcome = Outcome(created: seq<string>, messages: seq<Message>, exitCode: nat)

  /** The directories the action ensures, in the order it ensures them. */
  function DirectoryPlan(path: string, name: string): seq<string> {
    var docsDir := path + "/docs";
    [path, docsDir, docsDir + "/" + name, docsDir + "/_assets", path + "/src", path + "/templates"]
  }

  /** The warning line, if inference gave up. */
  function Warnings(r: Resolution): seq<Message> {
    if r.Unknown? then [Warning(r.reason)] else []
  }

  /** The closing lines: success, then the site root unless it is the sentinel. */
  function Report(path: string, root: string): seq<Message> {
    [Initialized(path)] + (if root != Sentinel then [SiteRootLine(root)] else [])
  }

  /** One run of the action, as a value. */
  function Action(path: string, siteRoot: Option<string>, git: GitDir): Outcome {
    match RootRepoName(path)
    case None => Outcome([], [InvalidPath], 1)
    case Some(name) =>
      var r := Resolve(siteRoot, git);
      Outcome(DirectoryPlan(path, name), Warnings(r) + Report(path, SiteRootText(r)), 0)
  }

  /** `c` is a direct subdirectory of `p`: `p`, a slash, and one slash-free name. */
  predicate IsChildOf(c: string, p: string) {
    |p| + 1 < |c| && c[..|p| + 1] == p + "/" && forall k :: |p| + 1 <= k < |c| ==> c[k] != '/'
  }

  /** Every planned directory is `path` itself or lies below it. */
  lemma PlanUnderPath(path: string, name: string)
    ensures var plan := DirectoryPlan(path, name);
            |plan| == 6 && plan[0] == path
            && forall i :: 1 <= i < |plan| ==> StartsWith(plan[i], path + "/")
  {
    var plan := DirectoryPlan(path, name);
    forall i | 1 <= i < |plan|
      ensures StartsWith(plan[i], path + "/")
    {
      assert plan[i][..|path| + 1] == path + "/";
    }
  }

  /** A slash-free leaf makes a child directory. */
  lemma ChildOf(p: string, leaf: string)
    requires leaf != "" && forall k :: 0 <= k < |leaf| ==> leaf[k] != '/'
    ensures IsChildOf(p + "/" + leaf, p)
  {
    var c := p + "/" + leaf;
    assert c[..|p| + 1] == p + "/";
    forall k | |p| + 1 <= k < |c|
      ensures c[k] != '/'
    {
      assert c[k] == leaf[k - |p| - 1];
    }
  }

  /**
   * With a valid root name, each directory after the first is a direct
   * child of one ensured before it.
   */
  lemma PlanParentsFirst(path: string, name: string)
    requires name != "" && !Contains(name, "/")
    ensures var plan := DirectoryPlan(path, name);
            forall i :: 1 <= i < |plan| ==> exists j :: 0 <= j < i && IsChildOf(plan[i], plan[j])
  {
    var plan := DirectoryPlan(path, name);
    var docsDir := path + "/docs";
    forall k | 0 <= k < |name|
      ensures name[k] != '/'
    {
      OccursAtChar(name, '/', k);
    }
    ChildOf(path, "docs");
    ChildOf(docsDir, name);
    ChildOf(docsDir, "_assets");
    ChildOf(path, "src");
    ChildOf(path, "templates");
    assert IsChildOf(plan[1], plan[0]);
    assert IsChildOf(plan[2], plan[1]);
    assert IsChildOf(plan[3], plan[1]);
    assert IsChildOf(plan[4], plan[0]);
    assert IsChildOf(plan[5], plan[0]);
  }

  /** Equal paths below the same directory have equal leaves. */
  lemma SameLeaf(dir: string, a: string, b: string)
    requires dir + "/" + a == dir + "/" + b
    ensures a == b
  {
    assert (dir + "/" + a)[|dir| + 1..] == a;
    assert (dir + "/" + b)[|dir| + 1..] == b;
  }

  lemma CharAfterSlash(path: string, leaf: string)
    requires leaf != ""
    ensures (path + "/" + leaf)[|path| + 1] == leaf[0]
  {
  }

  /** The names differ at index |path| + 1 ("docs", "src", "templates") or in length. */
  lemma PlanDistinctHelper(path: string, name: string, i: nat, j: nat)
    requires i < j < 6
    requires !(i == 2 && j == 3)
    ensures DirectoryPlan(path, name)[i] != DirectoryPlan(path, name)[j]
  {
    var plan := DirectoryPlan(path, name);
    var n := |path|;
    assert plan[1] == path + "/" + "docs";
    assert plan[2] == path + "/" + ("docs/" + name);
    assert plan[3] == path + "/" + "docs/_assets";
    assert plan[4] == path + "/" + "src";
    assert plan[5] == path + "/" + "templates";
    CharAfterSlash(path, "docs");
    CharAfterSlash(path, "docs/" + name);
    assert ("docs/" + name)[0] == 'd';
    assert plan[1][n + 1] == 'd' && plan[2][n + 1] == 'd' && plan[3][n + 1] == 'd';
    assert plan[4][n + 1] == 's' && plan[5][n + 1] == 't';
    CharAfterSlash(path, "docs/_assets");
    CharAfterSlash(path, "src");
    CharAfterSlash(path, "templates");
    if i == 0 || (i == 1 && j < 4) {
      assert |plan[i]| < |plan[j]|;
    }
  }

  /** The six directories are six different paths unless the root name is "_assets". */
  lemma PlanDistinct(path: string, name: string)
    ensures var plan := DirectoryPlan(path, name);
            (forall i, j :: 0 <= i < j < |plan| ==> plan[i] != plan[j]) <==> name != "_assets"
  {
    var plan := DirectoryPlan(path, name);
    var docsDir := path + "/docs";
    if name != "_assets" {
      forall i, j | 0 <= i < j < |plan|
        ensures plan[i] != plan[j]
      {
        if i == 2 && j == 3 {
          if plan[2] == plan[3] {
            SameLeaf(docsDir, name, "_assets");
          }
        } else {
          PlanDistinctHelper(path, name, i, j);
        }
      }
    } else {
      assert plan[2] == plan[3];
    }
  }

  /**
   * The command aborts with exit code 1, creating nothing, exactly when the
   * path has no non-empty segment; otherwise it ensures the six planned
   * directories under the path's last segment and exits normally.
   */
  lemma AbortsIffNoSegment(path: string, siteRoot: Option<string>, git: GitDir)
    ensures var o := Action(path, siteRoot, git);
            (o.exitCode == 1 <==> AllSlashes(path))
            && (o.exitCode == 1 ==> o.created == [] && o.messages == [InvalidPath])
            && (o.exitCode != 1 ==>
                  o.exitCode == 0 && |o.created| == 6 && o.created[0] == path
                  && forall i :: 1 <= i < 6 ==> StartsWith(o.created[i], path + "/"))
  {
    RootRepoNameIsLastSegment(path);
    if RootRepoName(path).Some? {
      PlanUnderPath(path, RootRepoName(path).value);
    }
  }

  /**
   * A run that does not abort ensures exactly the plan for the path's last
   * non-empty segment.
   */
  lemma CreatesPlanOfLastSegment(path: string, siteRoot: Option<string>, git: GitDir)
    requires !AllSlashes(path)
    ensures var o := Action(path, siteRoot, git);
            exists name: string, start: nat ::
              IsLastSegmentAt(path, name, start) && name != "" && !Contains(name, "/")
              && o.created == DirectoryPlan(path, name)
  {
    RootRepoNameIsLastSegment(path);
    var name := RootRepoName(path).value;
    var start: nat :| IsLastSegmentAt(path, name, start);
    assert Action(path, siteRoot, git).created == DirectoryPlan(path, name);
  }

  /** The lines of a completed run show the site root line exactly for a site root other than "Unknown". */
  lemma CompletedSiteRootLine(path: string, r: Resolution)
    ensures var msgs := Warnings(r) + Report(path, SiteRootText(r));
            forall x :: SiteRootLine(x) in msgs <==> x == SiteRootText(r) && SiteRootText(r) != Sentinel
  {
    var msgs := Warnings(r) + Report(path, SiteRootText(r));
    forall x
      ensures SiteRootLine(x) in msgs <==> x == SiteRootText(r) && SiteRootText(r) != Sentinel
    {
      assert SiteRootLine(x) !in Warnings(r);
    }
  }

  /** The site root line is printed exactly when the settled site root is not "Unknown". */
  lemma SiteRootPrintedUnlessUnknown(path: string, siteRoot: Option<string>, git: GitDir)
    ensures var o := Action(path, siteRoot, git);
            var root := SiteRootText(Resolve(siteRoot, git));
            forall x :: SiteRootLine(x) in o.messages <==> o.exitCode == 0 && x == root && root != Sentinel
  {
    if RootRepoName(path).Some? {
      CompletedSiteRootLine(path, Resolve(siteRoot, git));
    }
  }

  /** The lines of a completed run: at most one warning, naming the failure, right before the success line. */
  lemma CompletedMessages(path: string, r: Resolution)
    ensures var msgs := Warnings(r) + Report(path, SiteRootText(r));
            (forall f :: Warning(f) in msgs <==> r == Unknown(f))
            && (forall i, j :: 0 <= i < j < |msgs| ==> !(msgs[i].Warning? && msgs[j].Warning?))
            && Initialized(path) in msgs
            && forall i :: 0 <= i < |msgs| && msgs[i].Warning? ==>
                 i + 1 < |msgs| && msgs[i + 1] == Initialized(path)
  {
    var msgs := Warnings(r) + Report(path, SiteRootText(r));
    if r.Unknown? {
      assert msgs[1] == Initialized(path);
    } else {
      assert msgs[0] == Initialized(path);
    }
  }

  /**
   * A warning is printed exactly when inference ran and failed, naming the
   * failure, and always before the success line; a provided site root
   * prints no warning.
   */
  lemma WarningIffInferenceFailed(path: string, siteRoot: Option<string>, git: GitDir)
    ensures var o := Action(path, siteRoot, git);
            (forall f :: Warning(f) in o.messages <==> o.exitCode == 0 && Resolve(siteRoot, git) == Unknown(f))
            && (Provided(siteRoot) ==> forall f :: Warning(f) !in o.messages)
            && (o.exitCode == 0 ==>
                  Initialized(path) in o.messages
                  && forall i :: 0 <= i < |o.messages| && o.messages[i].Warning? ==>
                       i + 1 < |o.messages| && o.messages[i + 1] == Initialized(path))
  {
    var r := Resolve(siteRoot, git);
    if RootRepoName(path).Some? {
      CompletedMessages(path, r);
    }
  }

  /**
   * Without a site root argument and without a `.git` directory, a run that
   * does not abort prints the inference warning and the success line, and no
   * site root line.
   */
  lemma NoGitDirWarns(path: string, siteRoot: Option<string>)
    requires !AllSlashes(path) && !Provided(siteRoot)
    ensures Action(path, siteRoot, NoGitDir).messages == [Warning(NotInferable), Initialized(path)]
  {
    RootRepoNameIsLastSegment(path);
  }

  /**
   * The process: its directories, every `ensureDir` call in order, its
   * console lines in order, and the code passed to `Deno.exit` (0 when it
   * was never called).
   */
  class Shell {
    var dirs: set<string>
    var ensured: seq<string>
    var output: seq<Message>
    var exitCode: nat

    constructor (existing: set<string>)
      ensures dirs == existing && ensured == [] && output == [] && exitCode == 0
    {
      dirs := existing;
      ensured := [];
      output := [];
      exitCode := 0;
    }

    /** ensureDir: an existing directory is left as it is, a missing one is added. */
    method EnsureDir(p: string)
      modifies this
      ensures dirs == old(dirs) + {p} && ensured == old(ensured) + [p]
      ensures output == old(output) && exitCode == old(exitCode)
    {
      dirs := dirs + {p};
      ensured := ensured + [p];
    }

    /** console.log */
    method Log(m: Message)
      modifies this
      ensures output == old(output) + [m]
      ensures dirs == old(dirs) && ensured == old(ensured) && exitCode == old(exitCode)
    {
      output := output + [m];
    }

    /** Deno.exit */
    method Exit(code: nat)
      modifies this
      ensures exitCode == code
      ensures dirs == old(dirs) && ensured == old(ensured) && output == old(output)
    {
      exitCode := code;
    }

    /**
     * Site root inference (sf-cli.js lines 25-59): keep a provided site root, otherwise infer one from the
     * Git config, printing a warning and falling back to "Unknown" on failure.
     */
    method SettleSiteRoot(siteRoot: Option<string>, git: GitDir) returns (root: string)
      modifies this
      ensures root == SiteRootText(Resolve(siteRoot, git))
      ensures output == old(output) + Warnings(Resolve(siteRoot, git))
      ensures dirs == old(dirs) && ensured == old(ensured) && exitCode == old(exitCode)
    {
      if Provided(siteRoot) {
        root := siteRoot.value;
        return;
      }
      assert Resolve(siteRoot, git) == Infer(git);
      match git
      case NoGitDir =>
        Log(Warning(NotInferable));
        root := Sentinel;
      case ReadFailed =>
        Log(Warning(ConfigUnreadable));
        root := Sentinel;
      case ConfigText(gitConfig) =>
        var urlMatch := MatchUrl(gitConfig);
        if urlMatch.Some? {
          var gitUrl := Trim(urlMatch.value);
          assert Infer(git) == FromGitUrl(gitUrl);
          root := SiteRootFromUrl(gitUrl);
        } else {
          Log(Warning(UrlNotFound));
          root := Sentinel;
        }
    }

    /** URL classification (sf-cli.js lines 35-47): rewrite an SSH or HTTPS GitHub remote, or warn about any other. */
    method SiteRootFromUrl(gitUrl: string) returns (root: string)
      modifies this
      ensures root == SiteRootText(FromGitUrl(gitUrl))
      ensures output == old(output) + Warnings(FromGitUrl(gitUrl))
      ensures dirs == old(dirs) && ensured == old(ensured) && exitCode == old(exitCode)
    {
      if StartsWith(gitUrl, SshPrefix) {
        StartsWithOccurs(gitUrl, SshPrefix);
        var repoPath := ReplaceFirst(Split(gitUrl, SshPrefix)[1], ".git", "");
        root := "https://" + ReplaceFirst(repoPath, ":", "/");
      } else if StartsWith(gitUrl, HttpsPrefix) {
        StartsWithOccurs(gitUrl, HttpsPrefix);
        var repoPath := ReplaceFirst(Split(gitUrl, HttpsPrefix)[1], ".git", "");
        var pieces := Split(repoPath, "/");
        var user := pieces[0];
        var repo := if |pieces| > 1 then pieces[1] else "undefined";
        root := "https://" + user + ".github.io/" + repo;
      } else {
        Log(Warning(UnrecognizedUrlFormat));
        root := Sentinel;
      }
    }

    /** Directory layout (sf-cli.js lines 62-77): ensure the root, `docs` with its namespace and `_assets`, `src` and `templates`. */
    method CreateLayout(path: string, name: string)
      modifies this
      ensures ensured == old(ensured) + DirectoryPlan(path, name)
      ensures forall d :: d in dirs <==> d in old(dirs) || d in DirectoryPlan(path, name)
      ensures output == old(output) && exitCode == old(exitCode)
    {
      EnsureDir(path);
      var docsDir := path + "/docs";
      EnsureDir(docsDir);
      EnsureDir(docsDir + "/" + name);
      EnsureDir(docsDir + "/_assets");
      var srcDir := path + "/src";
      EnsureDir(srcDir);
      var templateDir := path + "/templates";
      EnsureDir(templateDir);
    }

    /** The action handler of `init <path> [siteRoot]`, step by step. */
    method Init(path: string, siteRoot: Option<string>, git: GitDir)
      modifies this
      ensures var o := Action(path, siteRoot, git);
              ensured == old(ensured) + o.created
              && (forall d :: d in dirs <==> d in old(dirs) || d in o.created)
              && output == old(output) + o.messages
              && exitCode == (if o.exitCode == 1 then 1 else old(exitCode))
    {
      var rootRepoName := RootRepoName(path);
      if rootRepoName.None? {
        Log(InvalidPath);
        Exit(1);
        return;
      }
      Complete(path, rootRepoName.value, siteRoot, git);
    }

    /** What the handler does once the root name `name` is known: settle the site root, lay out, report. */
    method Complete(path: string, name: string, siteRoot: Option<string>, git: GitDir)
      modifies this
      ensures ensured == old(ensured) + DirectoryPlan(path, name)
      ensures forall d :: d in dirs <==> d in old(dirs) || d in DirectoryPlan(path, name)
      ensures output == old(output) + (Warnings(Resolve(siteRoot, git)) + Report(path, SiteRootText(Resolve(siteRoot, git))))
      ensures exitCode == old(exitCode)
    {
      var root := SettleSiteRoot(siteRoot, git);
      CreateLayout(path, name);
      Finish(path, root);
    }

    /** Report (sf-cli.js lines 79-82): the success line, then the site root unless it is "Unknown". */
    method Finish(path: string, root: string)
      modifies this
      ensures output == old(output) + Report(path, root)
      ensures dirs == old(dirs) && ensured == old(ensured) && exitCode == old(exitCode)
    {
      Log(Initialized(path));
      if root != Sentinel {
        Log(SiteRootLine(root));
      }
    }
  }

  /** Running the action a second time on the same path adds no directory. */
  method RerunAddsNothing(sh: Shell, path: string, siteRoot: Option<string>, git: GitDir)
    modifies sh
    ensures var created := Action(path, siteRoot, git).created;
            (forall d :: d in sh.dirs <==> d in old(sh.dirs) || d in created)
            && sh.ensured == old(sh.ensured) + created + created
  {
    sh.Init(path, siteRoot, git);
    ghost var once := sh.dirs;
    sh.Init(path, siteRoot, git);
    assert sh.dirs == once;
  }
}
