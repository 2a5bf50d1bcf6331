/**
 * The `Update` object of electron-gh-releases: it learns the newest release
 * tag of a GitHub repository from `git clone` + `git tag`, compares it with the
 * running application's version, writes a one-field JSON manifest naming the
 * release's `.zip` and points the platform updater at a loopback URL for it.
 *
 * Every effect `check` has on the outside world is recorded as an `Event`;
 * the results of the external steps (did the clone work, what did `git tag`
 * print, did the write work, which port did the server get) are the `World`.
 */
module GhReleases {

  import opened Wrappers
  import opened Strings
  import Decimal
  import SemVer

  // ---------------------------------------------------------------------------
  // Names built from the repository, the storage folder and the platform

  /** The SSH clone URL the constructor stores in `repoUrl`. */
  function RepoUrl(repo: string): string
  {
    "git@github.com:" + repo + ".git"
  }

  /** `repo.split('/').pop()`: the repository's short name, also the folder `git clone` creates. */
  function ShortName(repo: string): string
  {
    LastSegment(repo, '/')
  }

  /** Where `git tag` runs: the clone inside the storage folder. */
  function CloneDir(storage: string, repo: string): string
  {
    storage + "/" + ShortName(repo)
  }

  /** The release artifact's name: short name, raw tag, platform and arch, joined by `-`. */
  function Filename(repo: string, tag: string, platform: string, arch: string): (r: string)
    ensures |r| >= 4 && r[|r| - 4..] == ".zip"
  {
    ShortName(repo) + "-" + tag + "-" + platform + "-" + arch + ".zip"
  }

  /** GitHub's download URL for the artifact of release `tag`. */
  function ZipUrl(repo: string, tag: string, platform: string, arch: string): string
  {
    "https://github.com/" + repo + "/releases/download/" + tag + "/" + Filename(repo, tag, platform, arch)
  }

  /** The manifest's place inside the storage folder. */
  const ManifestPath: string := "/gh_releases/gh_updates.json"

  /** `path.join(storage, 'gh_releases/gh_updates.json')`. */
  function LocalFile(storage: string): (r: string)
    ensures r == ServedRoot(storage) + "/gh_updates.json"
  {
    storage + ManifestPath
  }

  /** The folder the local server serves. */
  function ServedRoot(storage: string): string
  {
    storage + "/gh_releases"
  }

  /** The feed URL handed to the updater: loopback, the bound port, then the manifest's full path. */
  function FeedUrl(port: nat, storage: string): (r: string)
    ensures |LocalFile(storage)| < |r| && r[|r| - |LocalFile(storage)|..] == LocalFile(storage)
  {
    "http://127.0.0.1:" + Decimal.FromNat(port) + LocalFile(storage)
  }

  /** The JSON object written to the manifest file: `{url: zipUrl}`. */
  datatype Manifest = Manifest(url: string)

  // ---------------------------------------------------------------------------
  // Tag listing

  /** `stdout.split('\n')` followed by one `pop()`: the lines of `git tag`'s output. */
  function TagList(stdout: string): (tags: seq<string>)
    ensures |tags| == Count(stdout, '\n')
    ensures forall i :: 0 <= i < |tags| ==> '\n' !in tags[i]
  {
    var lines := Split(stdout, '\n');
    lines[..|lines| - 1]
  }

  /** `Array.prototype.pop`: the last element and the rest, or `undefined` and the array left empty. */
  method Pop<T>(a: seq<T>) returns (rest: seq<T>, top: Option<T>)
    ensures top.None? <==> a == []
    ensures top.None? ==> rest == []
    ensures top.Some? ==> a == rest + [top.value]
  {
    if a == [] {
      rest, top := [], None;
    } else {
      rest, top := a[..|a| - 1], Some(a[|a| - 1]);
    }
  }

  // ---------------------------------------------------------------------------
  // What `check` does, as a trace of observable events

  datatype Event =
    | Exec(command: string, cwd: string)                      // child_process.exec
    | WriteJson(path: string, content: Manifest)              // jsonfile.writeFile
    | Listen(root: string)                                    // static server on port 0
    | SetFeedUrl(url: string)                                 // auto_updater.setFeedUrl
    | Callback(error: Option<string>, available: Option<bool>)  // cb(error, available); None is null/undefined
    | Uncaught(exception: string)                             // an exception escapes the exec callback

  /** The results of the steps `check` does not control. */
  datatype World = World(
    cloneOk: bool,      // `git clone` exited with status 0
    tagOk: bool,        // `git tag` exited with status 0
    tagStdout: string,  // what `git tag` printed
    platform: string,   // os.platform()
    arch: string,       // os.arch()
    writeOk: bool,      // the manifest was written
    port: nat)          // the port the server was given

  const CloneFailed: string := "Failed to clone repo."
  const TagsFailed: string := "Unable to get version tags."
  const NoValidTag: string := "Could not find a valid release tag."
  const SaveFailed: string := "Unable to save local update file."
  /** How the `TypeError` that `semver` throws for an unreadable version begins. */
  const InvalidVersion: string := "TypeError: Invalid Version: "

  /** The message of `new Error(err)` when `err` is itself an Error: its `toString()`. */
  function Rewrapped(message: string): string
  {
    "Error: " + message
  }

  /** What `_getTags` passes on: an error message or the tag list. */
  datatype TagsResult = TagsError(message: string) | Tags(list: seq<string>)

  /** The commands `_getTags` runs. */
  function FetchTrace(repo: string, repoUrl: string, storage: string, w: World): seq<Event>
  {
    [Exec("git clone " + repoUrl, storage)]
    + if w.cloneOk then [Exec("git tag", CloneDir(storage, repo))] else []
  }

  /** What `_getTags` hands to its callback. */
  function FetchTags(w: World): TagsResult
  {
    if !w.cloneOk then TagsError(CloneFailed)
    else if !w.tagOk then TagsError(TagsFailed)
    else Tags(TagList(w.tagStdout))
  }

  /** `!latest || !semver.valid(semver.clean(latest))` is false: a usable release tag. */
  predicate IsReleaseTag(tag: string)
    ensures IsReleaseTag(tag) <==> tag != "" && SemVer.Parse(SemVer.Normalize(tag)).Some?
  {
    SemVer.ValidCleanIff(tag);
    tag != "" && SemVer.Valid(SemVer.Clean(tag)).Some?
  }

  /** From the manifest write on: the success path and its one failure. */
  function PublishTrace(repo: string, storage: string, tag: string, w: World): seq<Event>
  {
    [WriteJson(LocalFile(storage), Manifest(ZipUrl(repo, tag, w.platform, w.arch)))]
    + if !w.writeOk then [Callback(Some(SaveFailed), Some(false))]
      else [Listen(ServedRoot(storage)), SetFeedUrl(FeedUrl(w.port, storage)), Callback(None, Some(true))]
  }

  /** `tags.pop()` as a value: the last tag, or undefined for an empty list. */
  function Latest(tags: seq<string>): (r: Option<string>)
    ensures r.None? <==> tags == []
    ensures r.Some? ==> r.value == tags[|tags| - 1]
  {
    if tags == [] then None else Some(Last(tags))
  }

  /** What `check` makes of the popped candidate. */
  datatype Verdict =
    | NoRelease             // no candidate, or `semver.valid(semver.clean(latest))` is null
    | Unreadable(text: string)  // `semver.lt` throws on `text`
    | Older                 // `semver.lt(latest, current)` holds
    | NotOlder(tag: string) // an update: `tag` names the release

  /** `!latest || !semver.valid(semver.clean(latest))`, then `semver.lt(latest, current)`. */
  function Judge(latest: Option<string>, current: string): Verdict
  {
    if latest.None? || !IsReleaseTag(latest.value) then NoRelease
    else
      match SemVer.Lt(latest.value, current)
      case Invalid(text) => Unreadable(text)
      case Compared(older) => if older then Older else NotOlder(latest.value)
  }

  /** What `check` does once it has judged the candidate. */
  function ReleaseTrace(repo: string, storage: string, verdict: Verdict, w: World): seq<Event>
  {
    match verdict
    case NoRelease => [Callback(Some(NoValidTag), None)]
    case Unreadable(text) => [Uncaught(InvalidVersion + text)]
    case Older => [Callback(None, Some(false))]
    case NotOlder(tag) => PublishTrace(repo, storage, tag, w)
  }

  /** Everything one `check` call does, in order. */
  function CheckTrace(repo: string, repoUrl: string, storage: string, current: string, w: World): seq<Event>
  {
    FetchTrace(repo, repoUrl, storage, w)
    + match FetchTags(w)
      case TagsError(message) => [Callback(Some(Rewrapped(message)), Some(false))]
      case Tags(list) => ReleaseTrace(repo, storage, Judge(Latest(list), current), w)
  }

  /** The two tests `check` makes of the popped candidate, in order. */
  method Decide(latest: Option<string>, current: string) returns (verdict: Verdict)
    ensures verdict == Judge(latest, current)
  {
    if latest.None? || !IsReleaseTag(latest.value) {
      return NoRelease;
    }
    var order := SemVer.Lt(latest.value, current);
    if order.Invalid? {
      return Unreadable(order.text);
    }
    verdict := if order.less then Older else NotOlder(latest.value);
  }

  // ---------------------------------------------------------------------------
  // The object

  class Update {
    var repo: string
    var repoUrl: string
    var storage: string
    var currentVersion: string

    /** `new Update(gh, app, cb)`, with `app.getPath('userData')` and `app.getVersion()` as parameters. */
    constructor (repo: string, userData: string, appVersion: string)
      ensures this.repo == repo && repoUrl == RepoUrl(repo)
      ensures storage == userData && currentVersion == appVersion
    {
      this.repo := repo;
      this.repoUrl := RepoUrl(repo);
      this.storage := userData;
      this.currentVersion := appVersion;
    }

    /** `_getTags`: clone, list tags, split the output and drop its last (empty) piece. */
    method GetTags(w: World) returns (trace: seq<Event>, result: TagsResult)
      ensures trace == FetchTrace(repo, repoUrl, storage, w)
      ensures result == FetchTags(w)
    {
      trace := [Exec("git clone " + repoUrl, storage)];
      if !w.cloneOk {
        return trace, TagsError(CloneFailed);
      }
      trace := trace + [Exec("git tag", storage + "/" + ShortName(repo))];
      if !w.tagOk {
        return trace, TagsError(TagsFailed);
      }
      var tags := Split(w.tagStdout, '\n');
      var rest, _ := Pop(tags);
      result := Tags(rest);
    }

    /** `check(cb)`: one run, all effects in order. */
    method Check(w: World) returns (trace: seq<Event>)
      ensures trace == CheckTrace(repo, repoUrl, storage, currentVersion, w)
    {
      var fetched, tags := GetTags(w);
      if tags.TagsError? {
        return fetched + [Callback(Some(Rewrapped(tags.message)), Some(false))];
      }
      var rest := CheckRelease(tags.list, w);
      trace := fetched + rest;
    }

    /** The part of `check` after `_getTags` has listed the tags. */
    method CheckRelease(tags: seq<string>, w: World) returns (trace: seq<Event>)
      ensures trace == ReleaseTrace(repo, storage, Judge(Latest(tags), currentVersion), w)
    {
      var _, latest := Pop(tags);
      assert latest == Latest(tags);
      var verdict := Decide(latest, currentVersion);
      match verdict
      case NoRelease =>
        trace := [Callback(Some(NoValidTag), None)];
      case Unreadable(text) =>
        trace := [Uncaught(InvalidVersion + text)];
      case Older =>
        trace := [Callback(None, Some(false))];
      case NotOlder(tag) =>
        trace := Publish(tag, w);
    }

    /** Write the manifest for release `tag`, then serve it and point the updater at it. */
    method Publish(tag: string, w: World) returns (trace: seq<Event>)
      ensures trace == PublishTrace(repo, storage, tag, w)
    {
      var zipUrl := ZipUrl(repo, tag, w.platform, w.arch);
      var localFile := LocalFile(storage);
      trace := [WriteJson(localFile, Manifest(zipUrl))];
      if !w.writeOk {
        return trace + [Callback(Some(SaveFailed), Some(false))];
      }
      trace := trace + [Listen(ServedRoot(storage))];
      var localUrl := "http://127.0.0.1:" + Decimal.FromNat(w.port) + localFile;
      trace := trace + [SetFeedUrl(localUrl), Callback(None, Some(true))];
    }
  }
}
