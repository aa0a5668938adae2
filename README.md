# sf-cli `init`: a verified model

`sf-cli init <path> [siteRoot]` scaffolds a Semantic Flow root repository.
Its action handler does three things, and this project models each of them
as the code does it, quirks included:

1. **Root name.** `path.split('/').filter(Boolean).pop()` gives the root
   repository name. When the path has no non-empty segment the command prints
   an error and exits with code 1 before touching the filesystem
   (module `RootName`).
2. **Site root.** A provided, non-empty `siteRoot` argument is kept as it is.
   Otherwise the `.git` directory is consulted. If it is missing, or its
   `config` cannot be read, there is no site root. If the regular expression
   `/url = (.+)/` finds no match, there is none either. On a match, the
   capture is trimmed and classified by prefix:
   - `git@github.com:` becomes `"https://"` plus the text after the prefix,
     with its first `.git` removed and then its first `:` turned into `/`;
   - `https://github.com/` becomes `https://<user>.github.io/<repo>`, built
     from the first two `/`-pieces of the remainder once its first `.git`
     is removed;
   - anything else has no site root.
   Every failure prints a warning and leaves the sentinel `"Unknown"`
   (module `SiteRoot`).
3. **Layout and report.** Six directories are ensured in this order:
   `path`, `path/docs`, `path/docs/<name>`, `path/docs/_assets`, `path/src`
   and `path/templates`. Then a success line is printed, followed by the site
   root unless it is `"Unknown"` (module `Scaffold`).

Module `JsString` gives the JavaScript string primitives these steps rely
on, with the semantics String.prototype has for a string pattern:
`indexOf`, `split`, `join`, `replace` (first occurrence only, with the
replacement inserted as it is), `startsWith` and `trim`. `trim` uses the ECMAScript WhiteSpace and LineTerminator code
points.

The filesystem is a set of directory paths, and `ensureDir` inserts into
it. The class `Scaffold.Shell` also keeps the list of `ensureDir` calls in
order, the console lines as abstract `Message` values, and the code passed
to `Deno.exit`. `Scaffold.Action` describes one run as a value. The method
`Shell.Init` performs the run step by step and is proved to do exactly what
`Action` says. The lemmas about `Action` state the properties of the run.

Quirks of the code that the model keeps and proves:
- `replace(".git", "")` removes the first `.git` anywhere, so
  `owner.github.io.git` becomes `ownerhub.io.git`
  (`SiteRoot.GitRemovedFromGithubIo`, `SiteRoot.HttpsPersonalSite`).
- `split(prefix)[1]` stops at a second occurrence of the prefix, so
  `https://github.com/a/https://github.com/b` gives `https://a.github.io/`
  (`SiteRoot.HttpsBranch`, `SiteRoot.SshRewrite`).
- An SSH remote gives `https://owner/repo`, not a github.io address, so the
  SSH and HTTPS forms of one repository disagree
  (`SiteRoot.SshRemoteGivesOwnerHost`, `SiteRoot.SshAndHttpsDisagree`).
- A missing second `/`-piece renders JavaScript's `undefined` into the URL
  (`SiteRoot.HttpsWithoutRepo`).
- The regular expression is unanchored, so `pushurl = ` matches too
  (`SiteRoot.PushUrlIsMatched`).
- An empty `siteRoot` argument is falsy and triggers inference
  (`SiteRoot.Resolve`).
- A root name of `_assets` makes two of the six planned directories the
  same path (`Scaffold.PlanDistinct`).

Later descriptions of this tool mention a `config.jsonld` document, a
creator, prompts, folder-name options and a bare-domain rule for
`<user>.github.io` repositories. None of these is in the code of
`sf-cli.js`, and the model follows the code.

## Model

| member | source | states |
|---|---|---|
| JsString.StartsWith | sf-cli.js:35 | startsWith; `StartsWithOccurs` states the prefix occurs at index 0, and `IndexOfAtStart` that indexOf then finds it there |
| JsString.Join | sf-cli.js:17 | join; its meaning is the round trip `SplitJoin` |
| JsString.Trim | sf-cli.js:33 | trim; `TrimShape`, `TrimIsCore` and `TrimIdempotent` state what it yields |
| JsString.IndexOf | sf-cli.js:37 | the index found is an occurrence of the pattern and no earlier index is one; none is found exactly when the pattern does not occur |
| JsString.Split | sf-cli.js:17 | a split has at least one piece, and has two or more exactly when the separator occurs |
| JsString.SplitJoin | sf-cli.js:17 | joining the pieces of a split with the separator gives back the original string |
| JsString.SplitPiecesFree | sf-cli.js:42 | no piece of a split contains the separator |
| JsString.SplitAtChar | sf-cli.js:42 | splitting on a character yields the text before its first occurrence, then the pieces of the rest |
| JsString.ReplaceFirst | sf-cli.js:37 | a string without the pattern is returned unchanged; otherwise the length changes by that of the replacement minus that of the pattern |
| JsString.ReplaceFirstBySplit | sf-cli.js:37 | replace equals split-then-join with the replacement at the first boundary only |
| JsString.TrimStart | sf-cli.js:33 | the result is a suffix, everything dropped is white space, and it does not start with white space |
| JsString.TrimEnd | sf-cli.js:33 | the result is a prefix, everything dropped is white space, and it does not end with white space |
| JsString.TrimIsCore | sf-cli.js:33 | trim returns the one trimmed string that white space surrounds |
| JsString.TrimShape | sf-cli.js:33 | the result of trim is trimmed and sits inside the input, framed by white space |
| JsString.TrimOfTrimmed | sf-cli.js:33 | a string that neither starts nor ends with white space is left unchanged by trim |
| JsString.TrimIdempotent | sf-cli.js:33 | trimming twice equals trimming once |
| RootName.NonEmpty | sf-cli.js:17 | filter(Boolean) keeps only non-empty elements, all of them taken from the input |
| RootName.Last | sf-cli.js:17 | pop yields undefined exactly for an empty array |
| RootName.NonEmptySingle | sf-cli.js:17 | filter(Boolean) keeps a non-empty string and drops the empty one |
| RootName.NonEmptyConcat | sf-cli.js:17 | filter(Boolean) distributes over concatenation, so it keeps every non-empty element in order |
| RootName.LastAppend | sf-cli.js:17 | pop yields the last element of the array |
| RootName.RootRepoName | sf-cli.js:17-19 | a defined root name is non-empty and contains no slash |
| RootName.RootRepoNameIsLastSegment | sf-cli.js:17-22 | the name is undefined exactly when the path is all slashes; otherwise it is the segment after the last slash that has only slashes after it |
| SiteRoot.LineFrom | sf-cli.js:31 | the capture is the longest run without a line terminator, ending at one or at the end of the text |
| SiteRoot.FirstMatchFrom | sf-cli.js:31 | the match found is the earliest position where `url = ` is followed by a character that `.` accepts |
| SiteRoot.MatchUrl | sf-cli.js:31 | the capture of `/url = (.+)/`; `MatchUrlIsFirst` and `MatchUrlNone` state which one it is and when there is none |
| SiteRoot.MatchUrlIsFirst | sf-cli.js:31-33 | only the earliest match is used; its capture is non-empty and runs to the end of its line |
| SiteRoot.MatchUrlNone | sf-cli.js:31-32 | there is no capture exactly when the expression matches nowhere |
| SiteRoot.LineFromIs | sf-cli.js:31 | a run without line terminators that ends at one, or at the end of the text, is the capture |
| SiteRoot.PushUrlIsMatched | sf-cli.js:31 | a `pushurl = ` line placed first is matched, and its value is captured |
| SiteRoot.FromGitUrl | sf-cli.js:35-47 | a URL with neither GitHub prefix gives the unrecognized-format failure; a recognised one gives a site root starting with `https://` |
| SiteRoot.Infer | sf-cli.js:26-59 | each failure occurs exactly in its case: no `.git` directory, unreadable config, no match, and a trimmed URL with neither prefix |
| SiteRoot.Provided | sf-cli.js:25 | `!siteRoot` is false exactly for a present, non-empty argument; `Resolve` states that this decides whether inference runs |
| SiteRoot.SiteRootText | sf-cli.js:44-59 | the value `siteRoot` holds after inference, "Unknown" on every failure; `SentinelMeansFailure` states it is "Unknown" exactly on failure and never empty |
| SiteRoot.Resolve | sf-cli.js:25 | a provided non-empty site root is kept verbatim and no inference runs; for an absent or empty one the result is exactly what `Infer` gives for the `.git` directory |
| SiteRoot.InferFromFirstMatch | sf-cli.js:31-33 | when the first match's capture is a trimmed URL with white space around it, the inferred site root is the rewrite of that URL |
| SiteRoot.SentinelMeansFailure | sf-cli.js:44-59 | when nothing was provided, the site root is "Unknown" exactly when inference failed; the settled site root is never empty |
| SiteRoot.SshRewrite | sf-cli.js:35-38 | for an SSH URL: `https://` plus the text after the prefix (up to a second prefix), first `.git` removed, then first `:` replaced by `/` |
| SiteRoot.SshRemoteGivesOwnerHost | sf-cli.js:35-38 | `git@github.com:owner/repo.git` gives `https://owner/repo` |
| SiteRoot.HttpsBranch | sf-cli.js:39-43 | for every HTTPS URL: the text after the prefix (up to a second prefix), first `.git` removed, split on "/", gives `https://<first>.github.io/<second>`, `undefined` standing in for a missing second piece |
| SiteRoot.UserThenRepo | sf-cli.js:42 | `user/repo` followed by nothing or by "/" splits into `user` and `repo` first |
| SiteRoot.HttpsRewrite | sf-cli.js:39-43 | a remainder reading `user/repo[/…]` after removing `.git` gives `https://user.github.io/repo` |
| SiteRoot.HttpsWithoutRepo | sf-cli.js:42-43 | a remainder with no `/` gives `https://<remainder>.github.io/undefined` |
| SiteRoot.GitRemovedFromGithubIo | sf-cli.js:37 | the first `.git` is removed even inside `.github`: `name.github.io.git` becomes `namehub.io.git` |
| SiteRoot.HttpsPersonalSite | sf-cli.js:41-43 | `https://github.com/owner/owner.github.io.git` gives `https://owner.github.io/ownerhub.io.git` |
| SiteRoot.SshAndHttpsDisagree | sf-cli.js:35-43 | the SSH and HTTPS forms of one owner/repo give different site roots |
| Scaffold.DirectoryPlan | sf-cli.js:63-77 | the six ensureDir targets in order; `PlanUnderPath`, `PlanParentsFirst` and `PlanDistinct` state their shape |
| Scaffold.Warnings | sf-cli.js:44-59 | the warning of a failed inference; `CompletedMessages` states it |
| Scaffold.Report | sf-cli.js:79-82 | the closing lines; `CompletedSiteRootLine` and `CompletedMessages` state them |
| Scaffold.Action | sf-cli.js:15-83 | one run as a value; `Shell.Init` performs it, and `AbortsIffNoSegment`, `CreatesPlanOfLastSegment`, `SiteRootPrintedUnlessUnknown` and `WarningIffInferenceFailed` state its properties |
| Scaffold.PlanUnderPath | sf-cli.js:63-77 | six directories are planned; the first is `path` and every other one starts with `path/` |
| Scaffold.PlanParentsFirst | sf-cli.js:63-77 | with a valid root name, each directory after the first is a direct child of one ensured before it |
| Scaffold.PlanDistinct | sf-cli.js:66-69 | the six directories are pairwise different exactly when the root name is not `_assets` |
| Scaffold.AbortsIffNoSegment | sf-cli.js:17-22 | the run exits with code 1, having created nothing and printed only the error, exactly when the path is all slashes; otherwise it exits normally and ensures six directories under `path` |
| Scaffold.CreatesPlanOfLastSegment | sf-cli.js:63-77 | a run that does not abort ensures exactly the plan for the path's last non-empty segment |
| Scaffold.SiteRootPrintedUnlessUnknown | sf-cli.js:79-82 | the site root line is printed exactly when the run completes and the site root is not "Unknown", and it shows that site root |
| Scaffold.CompletedSiteRootLine | sf-cli.js:79-82 | a completed run prints the site root line exactly for a site root other than "Unknown", and only that one |
| Scaffold.NoGitDirWarns | sf-cli.js:56-58 | with no site root argument and no `.git` directory, a run that does not abort prints the not-inferable warning and the success line, and nothing else |
| Scaffold.CompletedMessages | sf-cli.js:44-59 | a completed run prints at most one warning, the one naming its failure, and it comes right before the success line |
| Scaffold.WarningIffInferenceFailed | sf-cli.js:44-59 | a warning is printed exactly when inference ran and failed, naming that failure, and right before the success line; a provided site root prints none |
| Scaffold.Shell.Log | sf-cli.js:20 | console.log appends its line to the output and changes nothing else |
| Scaffold.Shell.Exit | sf-cli.js:21 | Deno.exit records its code and changes nothing else |
| Scaffold.Shell.EnsureDir | sf-cli.js:63 | ensureDir adds its path to the directory set (a no-op for an existing one) and records the call |
| Scaffold.Shell.SettleSiteRoot | sf-cli.js:24-60 | the nested inference branches leave the site root `Resolve` decides and print exactly its warning |
| Scaffold.Shell.SiteRootFromUrl | sf-cli.js:35-47 | the SSH, HTTPS and fallback branches leave the site root `FromGitUrl` gives and warn exactly when it is not recognised |
| Scaffold.Shell.CreateLayout | sf-cli.js:62-77 | the six ensureDir calls happen in plan order and the directory set grows by exactly the plan |
| Scaffold.Shell.Finish | sf-cli.js:79-82 | the success line is printed, then the site root line unless the site root is "Unknown" |
| Scaffold.Shell.Complete | sf-cli.js:24-82 | once the root name is known: the planned directories, then the warning of `Resolve` and the closing lines, with the exit code unchanged |
| Scaffold.Shell.Init | sf-cli.js:15-83 | the handler's calls, directories, console lines and exit code are exactly those `Action` describes |
| Scaffold.RerunAddsNothing | sf-cli.js:63-77 | running the action twice on the same path leaves the same directory set as running it once |

## Left out

- Command-line parsing with Cliffy (sf-cli.js:9-15, 84): `path` and `siteRoot` are parameters of `Shell.Init`, and an absent `siteRoot` is `None`.
- `existsSync` and `Deno.readTextFile` (sf-cli.js:27, 30) are not called: the state of `.git` comes in as `GitDir` (`NoGitDir`, `ReadFailed` or `ConfigText`), and the exception object is left out. `existsSync` sits outside the `try` and rethrows any error other than "not found" (a denied permission, say). The handler then rejects without a warning, and that case is not modelled.
- JsString.ReplaceFirst: the replacement is inserted literally; the `$$`, `$&`, `` $` `` and `$'` patterns that JavaScript's `replace` expands in a replacement string are not modelled, and so its length clause holds only for replacements free of `$`. The handler's replacements `""` and `"/"` (sf-cli.js:37, 38, 41) contain none.
- `console.log` texts, the `green`/`bold` colouring and the logged error object (sf-cli.js:20, 45-57, 79-81) are abstract `Message` values.
- `Deno.exit(1)` (sf-cli.js:21) is recorded as the exit code, and the method returns at once.
- `ensureDir` (sf-cli.js:63-77) is insertion into a set of paths. Creating missing parents, permissions, races and symbolic links are not modelled. Paths are compared as strings, so `a//docs` and `a/docs` count as different directories.
- async/await ordering is not modelled; the steps run in program order, with nothing concurrent.
- The regular-expression engine in general: only `/url = (.+)/` is modelled, as a direct search.
- JsString.Split: modelled only for a non-empty separator, the only kind the action passes.
- Strings are sequences of Unicode code points, whereas JavaScript strings are sequences of UTF-16 code units. Nothing in this handler shows the difference: every white-space and line-terminator character lies in the Basic Multilingual Plane, and no index reaches the output.
- JsString.IsWhiteSpace: Unicode space separators are the fixed list of category Zs code points; no other Unicode data is used.
