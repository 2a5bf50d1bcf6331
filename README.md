# electron-gh-releases `Update`, modelled in Dafny

This project models the `Update` object of electron-gh-releases. The object
lets an Electron application find out whether a newer release of itself has
been published on GitHub. One `check(cb)` run does the following:

- clones the repository over SSH;
- lists its tags with `git tag` and takes the last listed tag as the candidate;
- keeps that candidate only if `semver.valid(semver.clean(tag))` accepts it;
- compares it with the running version using `semver.lt`.

If the candidate is not older than the running version, the run goes on:

- it builds the release's `.zip` name and GitHub download URL from the short
  name, the raw tag, the platform and the architecture;
- it writes the one-field manifest `{url: zipUrl}` to
  `<userData>/gh_releases/gh_updates.json`;
- it starts a static server on an ephemeral port;
- it hands the platform updater a loopback feed URL;
- only then does it report `(null, true)`.

The model has seven modules:

- `Wrappers`: `Option`.
- `Strings`: JavaScript's `split` on one character, `join`, `trim`, and
  `split(c).pop()`.
- `Decimal`: `String(n)` for a port number, and the numeric identifiers of
  versions.
- `SemVer`: Semantic Versioning 2.0.0. It covers the version grammar of
  sections 2, 9 and 10 and the precedence of section 11. It also models the
  three entry points of the `semver` package the object calls: `clean`,
  `valid` and `lt`.
- `GhReleases`: names and URLs, the event trace of a run, and the `Update`
  class.
  - The class's constructor sets the four fields.
  - `GetTags` mirrors `_getTags`: it splits the output on `\n` and pops the
    last piece. That piece is empty when the output ends in a newline;
    otherwise it is the last tag, which is lost
    (`UpdateProperties.TagListOfLines`).
  - `Check`, `CheckRelease`, `Decide` and `Publish` mirror `check` step by
    step.
  - Each of these methods is proved equal to a specification function
    (`FetchTrace`/`FetchTags`, `CheckTrace`, `ReleaseTrace`, `Judge`,
    `PublishTrace`).
- `UpdateProperties`: what a run guarantees.
- `ReleaseNames`: how names and URLs determine what they are built from.

Everything outside the object is an input. A `World` value holds:

- whether the clone and the tag listing succeeded;
- what `git tag` printed;
- the platform and the architecture;
- whether the manifest write succeeded;
- the port the server was given.

Everything the object does to the outside is an `Event` in the run's trace:

- a command;
- a JSON write;
- the server start;
- `setFeedUrl`;
- the callback;
- an exception that escapes the exec callback.

Where the code's behaviour may surprise a caller, the model follows the
code:

- An empty tag list is not reported as "no update" (`(null, false)`). The
  `!tags` guard at `src/index.js:87` only catches a missing list. An empty
  list makes `tags.pop()` return `undefined`, so the run reports "Could not
  find a valid release tag." The second argument of that callback is
  `undefined`.
- A candidate equal to the running version is reported as an update, because
  only a strictly older one stops the run.
- The raw tag, leading `v` included, goes into the filename and the URL.
- A failed clone or tag listing reaches the caller as
  `new Error(new Error(msg))`, whose message is `"Error: " + msg`.
- A tag such as `=1.2.0` passes `clean` + `valid`, since `clean` strips `=`.
  But `lt` reads the raw tag, which allows only an optional `v`, so it throws
  `TypeError: Invalid Version`. The exception escapes the exec callback and
  `cb` is never called.
- A running version that `lt` cannot read (an `app.getVersion()` outside
  the strict pattern) makes every run with a valid, readable release tag
  throw in the same way, naming the running version
  (`UpdateProperties.UnreadableRunningVersionThrows`).
- The feed URL's path is the manifest's full path on disk, while the server
  serves `<userData>/gh_releases`. Requested from that server, the path does
  not name the manifest (`ReleaseNames.FeedPathUnderServedRoot`).

## Model

| member | source | states |
|---|---|---|
| GhReleases.Update.constructor | src/index.js:13-17 | `repo` is the given repository, `repoUrl` is `git@github.com:` + repo + `.git`, `storage` is the userData path and `currentVersion` is the application's version |
| GhReleases.Update.GetTags | src/index.js:25-46 | `_getTags` runs `git clone` in the storage folder. On success it runs `git tag` in `storage/<short name>` and yields the output split on `\n` minus its last piece. A failed clone stops before the tag listing; each failure yields its own message |
| GhReleases.TagList | src/index.js:41-42 | the tag list has exactly as many entries as the output has `\n` characters, and no entry contains `\n` |
| GhReleases.Pop | src/index.js:42 | `pop` yields nothing exactly when the array is empty, and then leaves it empty; otherwise the array is the rest followed by the popped element |
| GhReleases.Update.Check | src/index.js:78-134 | a run's effects are exactly `CheckTrace`: the `_getTags` commands, then the error callback for a failed clone or tag listing, or the release steps |
| GhReleases.Update.CheckRelease | src/index.js:92-107 | after `_getTags` succeeds, the candidate is the popped last tag and the effects follow the verdict on it |
| GhReleases.Decide | src/index.js:97-107 | the two tests in order: no candidate or not `valid(clean(tag))` gives "no release"; `lt` throwing gives "unreadable"; `lt` true gives "older"; otherwise the tag is an update |
| GhReleases.Update.Publish | src/index.js:111-131 | writes `{url: zipUrl}` to `storage/gh_releases/gh_updates.json`. A failed write ends with the save error and `false`. Otherwise it starts the server on `gh_releases`, sets the loopback feed URL and then calls back `(null, true)` |
| Strings.Split | src/index.js:41 | `split` yields one more piece than there are separators, and no piece contains the separator |
| Strings.JoinSplit | src/index.js:41 | joining the pieces of a split with the separator gives back the string |
| Strings.SplitJoin | src/index.js:41 | splitting a join of separator-free pieces gives back the pieces |
| Strings.LastSegment | src/index.js:36 | `split('/').pop()` contains no `/`, ends the string, and is either all of it or preceded by a `/` |
| Strings.LastSegmentAfter | src/index.js:114 | the text after a final `/` is the short name |
| Strings.Trim | src/index.js:98 | `trim()` is never longer than its argument and neither starts nor ends with white space |
| Strings.TrimStartDropsSpaces | src/index.js:98 | the leading part of `trim()` keeps a suffix of the string and drops only white space before it |
| Strings.TrimEndDropsSpaces | src/index.js:98 | the trailing part of `trim()` keeps a prefix of the string and drops only white space after it |
| Strings.TrimDropsSpaces | src/index.js:98 | `trim()` is one stretch of the string, starting where the leading white space ends, with only white space before and after it. Together with `Strings.Trim`'s ensures, it removes exactly the leading and trailing white space |
| Strings.TrimUnchanged | src/index.js:104 | a string with no white space at either end is left as it is by `trim()` |
| Decimal.FromNat | src/index.js:128 | the port's decimal text is a canonical digit string: non-empty, digits only, no leading zero |
| Decimal.ToNatFromNat | src/index.js:128 | reading back the decimal text of a number gives the number |
| Decimal.FromNatToNat | src/index.js:98 | every canonical digit string is the decimal text of its value |
| Decimal.FromNatInjective | src/index.js:128 | distinct ports have distinct texts |
| SemVer.Parse | src/index.js:98 | every version read from text is well formed: its alphanumeric pre-release identifiers contain a non-digit and its build identifiers are non-empty runs of `[0-9A-Za-z-]` |
| SemVer.ParseIdentifiers | src/index.js:98 | a dot-separated pre-release list is accepted exactly when every identifier is, and then it yields each identifier read in order |
| SemVer.ParseFormat | src/index.js:98 | the text of every well-formed version reads back as that version |
| SemVer.FormatParse | src/index.js:98 | only the exact text of a version reads as it: no leading zeros, no other spelling |
| SemVer.ParseIff | src/index.js:98 | a string reads as `v` exactly when `v` is well formed and the string is its text |
| SemVer.ParseFull | src/index.js:104 | the package's strict pattern: an optional `v`, then a version text; it has no contract of its own. `SemVer.Valid` and `SemVer.Lt` state what it accepts through them, `SemVer.ComparableIsClean` shows `clean` reads the same version, and `SemVer.EqualsPrefixCleanButNotComparable` shows it refuses a leading `=` |
| SemVer.Compare | src/index.js:104 | the precedence of section 11 of Semantic Versioning 2.0.0 that `lt` decides by; it has no contract of its own. `SemVer.CompareFlip`, `SemVer.CompareTransitive` and `SemVer.Trichotomy` make it a strict order that ignores build metadata, and `SemVer.LtReadable` ties `lt`'s answer to it |
| SemVer.Clean | src/index.js:98 | `semver.clean` is null exactly when the string, trimmed and stripped of leading `v`/`=`, is no version. Otherwise the result is the bare version text, with no `v` and no build metadata: read without any prefix, it gives that version with its build metadata dropped. See also `SemVer.ValidClean` and `SemVer.ValidCleanIff` |
| SemVer.Valid | src/index.js:98 | `semver.valid` of null is null. Of a string, it is non-null exactly when the string (with at most one leading `v`) is a version. The result is then the bare version text, with no `v` and no build metadata: read without any prefix, it gives that version with its build metadata dropped |
| SemVer.Lt | src/index.js:104 | `semver.lt` throws exactly when an argument cannot be read, naming that argument. An unreadable first argument is named even when the second is unreadable too, and a readable first argument with an unreadable second one throws on the second. No string is lower than itself. `SemVer.LtReadable` gives the answer on readable arguments |
| SemVer.ValidClean | src/index.js:98 | `valid(clean(s))` equals `clean(s)`: whatever `clean` returns is valid |
| SemVer.ValidCleanIff | src/index.js:98 | `valid(clean(s))` is non-null exactly when `s`, trimmed and stripped of leading `v`/`=`, is a version text |
| SemVer.CompareFlip | src/index.js:104 | precedence is antisymmetric, and two versions compare equal exactly when only their build metadata differs |
| SemVer.CompareTransitive | src/index.js:104 | precedence is transitive |
| SemVer.Trichotomy | src/index.js:104 | of two versions, exactly one is lower or they have the same precedence |
| SemVer.CompareTextFlip | src/index.js:104 | the ASCII order of alphanumeric identifiers is antisymmetric and only equal strings compare equal |
| SemVer.CompareIdentifiersFlip | src/index.js:104 | identifier lists compare antisymmetrically, and only equal lists compare equal |
| SemVer.CompareIdentifiersTransitive | src/index.js:104 | the order on identifier lists is transitive |
| SemVer.LtReadable | src/index.js:104 | when `lt` can read both strings, it answers whether the first version's precedence is lower |
| SemVer.ReadableIsValid | src/index.js:98-104 | every tag `lt` can read also passes the `valid(clean(tag))` test |
| SemVer.ComparableIsClean | src/index.js:98-104 | `clean` reads every string `lt` can read as the same version |
| SemVer.EqualsPrefixCleanButNotComparable | src/index.js:98-104 | `=` + version passes `clean` and `valid`, while `lt` throws on it |
| GhReleases.IsReleaseTag | src/index.js:98 | the candidate passes the test exactly when it is non-empty and, trimmed and stripped of leading `v`/`=`, is a version text |
| GhReleases.Latest | src/index.js:97 | `tags.pop()` gives nothing exactly for an empty list, and otherwise the last tag. See also `UpdateProperties.CandidateIsLastLine` |
| GhReleases.Filename | src/index.js:114 | the artifact's name ends in `.zip`. `ReleaseNames.FilenameStartsWithShortName` shows it starts with the short name and `-` followed by the raw tag, and `ReleaseNames.FilenameIgnoresOwner` shows the owner is not part of it |
| GhReleases.ZipUrl | src/index.js:115 | no contract of its own (see "Left out"). `ReleaseNames.ZipUrlNamesFile` shows the URL's last segment is the filename, `ReleaseNames.ZipUrlTag` places the tag twice, and the `ReleaseNames.ZipUrlDetermines*` lemmas read back repository, tag, platform and architecture |
| GhReleases.LocalFile | src/index.js:118 | the manifest is `gh_updates.json` directly inside the folder the server serves (`ServedRoot`) |
| GhReleases.FeedUrl | src/index.js:128 | the feed URL is `http://127.0.0.1:`, the port, then the manifest's full path: it ends with `LocalFile`. See also `ReleaseNames.FeedUrlDeterminesPort` and `ReleaseNames.FeedPathUnderServedRoot` |
| UpdateProperties.CloneFailure | src/index.js:29-33 | a failed clone: the clone command, then `("Error: Failed to clone repo.", false)`; no tag listing, no write, no feed URL |
| UpdateProperties.TagListFailure | src/index.js:36-39 | a failed tag listing: both commands, then `("Error: Unable to get version tags.", false)` and nothing else |
| UpdateProperties.NoValidRelease | src/index.js:97-101 | with no candidate, or one failing `valid(clean(...))`, the run ends with "Could not find a valid release tag." and an undefined second argument, right after the two commands |
| UpdateProperties.EmptyTagListIsError | src/index.js:87-101 | output with no newline gives an empty list, which ends in the invalid-tag error rather than "no update" |
| UpdateProperties.TagListOfLines | src/index.js:41-42 | for any printed lines followed by a newline-free tail, the tag list is exactly the lines: a last tag printed without its newline is lost |
| UpdateProperties.TagListOfTerminatedLines | src/index.js:41-42 | when every tag is printed on its own line, the tag list is exactly the printed tags |
| UpdateProperties.CandidateIsLastLine | src/index.js:96-97 | the candidate is the last printed tag, whatever was printed before it |
| UpdateProperties.OnlyLastTagMatters | src/index.js:96-97 | a run's effects do not depend on the tags printed before the last one: nothing is sorted |
| UpdateProperties.EffectCounts | src/index.js:78-134 | every run calls back exactly once, as its last effect, unless `lt` throws, when it never calls back. The manifest is written once exactly when the candidate is not older. The server and the feed URL are set once exactly when that write succeeded |
| UpdateProperties.AnsweredNoExactlyWhenOlder | src/index.js:104-107 | a run ends with `(null, false)` exactly when the verdict is "older" |
| UpdateProperties.NoUpdateExactlyWhenOlder | src/index.js:104-107 | for a candidate and a running version `lt` can read, the run ends with `(null, false)` exactly when the candidate has strictly lower precedence; otherwise the candidate is an update |
| UpdateProperties.EqualVersionIsUpdate | src/index.js:104-107 | a candidate of the same precedence as the running version is an update |
| UpdateProperties.JudgeEqualsPrefix | src/index.js:98-104 | the tag `=` + version passes the validity test but is judged unreadable by `lt` |
| UpdateProperties.JudgeUnreadableRunning | src/index.js:98-104 | a candidate `lt` can read, compared with a running version it cannot read, is judged unreadable, and the error names the running version |
| UpdateProperties.UnreadableRunningVersionThrows | src/index.js:93-107 | when the running version is not one `lt` can read, any readable last tag makes the run the two commands and then the `TypeError` naming that version; the callback is never called |
| UpdateProperties.UnreadableCandidateThrows | src/index.js:98-107 | with `=` + version as the only tag, the run is the two commands and then the `TypeError`; the callback is never called |
| UpdateProperties.UpdateReported | src/index.js:111-131 | the run ends with `(null, true)` exactly when the candidate is not older and the write succeeded. The three effects before that are, in order: the manifest `{url: zipUrl}` written to the storage folder, the server on `gh_releases`, and the loopback feed URL |
| UpdateProperties.WriteFailure | src/index.js:120-124 | a failed write ends the run with "Unable to save local update file." and `false`; no server, no feed URL |
| ReleaseNames.ZipUrlNamesFile | src/index.js:114-115 | when tag, platform and arch contain no `/`, the URL's last path segment is the filename |
| ReleaseNames.ZipUrlTag | src/index.js:114-115 | the tag appears twice in the URL: right after `/releases/download/`, and inside the filename the URL ends with, right after the short name and `-` |
| ReleaseNames.ZipUrlDeterminesTag | src/index.js:114-115 | different tags give different URLs |
| ReleaseNames.ZipUrlDeterminesPlatform | src/index.js:114-115 | different platforms give different URLs |
| ReleaseNames.ZipUrlDeterminesArch | src/index.js:114-115 | different architectures give different URLs |
| ReleaseNames.ZipUrlDeterminesRepo | src/index.js:114-115 | different repositories give different URLs |
| ReleaseNames.FilenameStartsWithShortName | src/index.js:114 | the filename starts with the repository's short name and `-`, and the raw tag follows right after |
| ReleaseNames.FilenameIgnoresOwner | src/index.js:114 | the filename uses only the short name: two owners' repositories of the same name give the same filename |
| ReleaseNames.RepoUrlDeterminesRepo | src/index.js:15 | different repositories give different clone URLs |
| ReleaseNames.FeedUrlDeterminesPort | src/index.js:128 | different ports give different feed URLs |
| ReleaseNames.FeedPathUnderServedRoot | src/index.js:59 | the server's root followed by the feed URL's path is not the manifest's path; the root followed by `/gh_updates.json` is |

## Left out

- Running `git clone` and `git tag`, writing the JSON file, the HTTP server
  (`serve-static`, `finalhandler`) and `auto_updater.setFeedUrl` are I/O or
  calls into other packages. The model takes their outcomes as `World`
  fields and records the calls as events.
- `os.platform()`, `os.arch()`, `app.getPath('userData')` and
  `app.getVersion()` are environment reads. They are parameters.
- `cb(auto_updater)` in the constructor hands over a foreign object. It is
  not modelled.
- `download()` only calls `auto_updater.checkForUpdates()`, which belongs to
  Electron. It is not modelled.
- `_getCurrentVersion` returns the `currentVersion` field. The model reads the
  field directly.
- `_localServer` is modelled only as the `Listen` event and the port taken
  from `World`. A failed `listen(0)` is not modelled: the server would emit an
  `'error'` event nobody handles, which throws, and `cb` would never be called.
  `UpdateProperties.EffectCounts` ("calls back exactly once unless `lt`
  throws") holds because `World` always supplies a port.
- GhReleases.ZipUrl: has no contract of its own; the URL's properties are
  lemmas about it. `ReleaseNames.ZipUrlNamesFile` shows its last segment is
  the filename, `ReleaseNames.ZipUrlTag` places the tag twice, and the
  `ReleaseNames.ZipUrlDetermines*` lemmas show that repository, tag, platform
  and architecture can each be read back. An `ensures` on the function would
  cost every proof that mentions it.
- Asynchrony, callback interleaving and concurrent `check` calls are out of
  scope: a run is one sequential trace.
- The `semver` package is not part of this model. Its `clean`, `valid` and
  `lt` are written from Semantic Versioning 2.0.0 and the package's strict
  (non-loose) pattern.
- SemVer.Parse: does not model the package's 256-character limit on version
  strings or its rejection of numbers above 2^53 - 1. Numbers are unbounded
  here.
- JSON serialisation of the manifest is not modelled; the manifest is the
  value `{url: zipUrl}`.
- `path.join` normalisation (duplicate or trailing separators, `..`) is not
  modelled; paths are joined with a plain `/`.
- JavaScript strings are UTF-16, while Dafny `char`s are Unicode scalar
  values. `trim`'s white-space set is written out character by character.
