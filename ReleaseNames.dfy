/**
 * How the release artifact's name and URL, the clone URL and the feed URL
 * depend on what they are built from.
 */
module ReleaseNames {

  import opened Strings
  import Decimal
  import opened GhReleases


  /** The URL's last path segment is the filename, when tag, platform and arch contain no `/`. */
  lemma ZipUrlNamesFile(repo: string, tag: string, platform: string, arch: string)
    requires '/' !in tag && '/' !in platform && '/' !in arch
    ensures LastSegment(ZipUrl(repo, tag, platform, arch), '/') == Filename(repo, tag, platform, arch)
  {
    var name := Filename(repo, tag, platform, arch);
    var dir := "https://github.com/" + repo + "/releases/download/" + tag;
    assert '/' !in name by {
      assert forall c :: c in name ==> c in ShortName(repo) || c in tag || c in platform || c in arch || c in "-.zip";
    }
    assert ZipUrl(repo, tag, platform, arch) == dir + ['/'] + name;
    LastSegmentAfter(dir, '/', name);
  }

  /** A different tag gives a different URL. */
  lemma ZipUrlDeterminesTag(repo: string, t1: string, t2: string, platform: string, arch: string)
    requires ZipUrl(repo, t1, platform, arch) == ZipUrl(repo, t2, platform, arch)
    ensures t1 == t2
  {
    ZipUrlTag(repo, t1, platform, arch);
    ZipUrlTag(repo, t2, platform, arch);
  }

  /**
   * The tag occurs twice in the URL: right after the download folder, and
   * inside the filename the URL ends with, right after the short name and `-`.
   */
  lemma ZipUrlTag(repo: string, tag: string, platform: string, arch: string)
    ensures var head := "https://github.com/" + repo + "/releases/download/";
      var u := ZipUrl(repo, tag, platform, arch);
      var f := Filename(repo, tag, platform, arch);
      var j := |u| - |f| + |ShortName(repo)| + 1;
      && |u| == |head| + 2 * |tag| + |ShortName(repo)| + |platform| + |arch| + 8
      && u[|head|..|head| + |tag|] == tag
      && |f| <= |u| && u[|u| - |f|..] == f
      && j + |tag| <= |u| && u[j..j + |tag|] == tag
  {
    var head := "https://github.com/" + repo + "/releases/download/";
    var u := ZipUrl(repo, tag, platform, arch);
    var f := Filename(repo, tag, platform, arch);
    var front := ShortName(repo) + "-";
    assert u == (head + tag + "/") + f;
    assert f == front + tag + ("-" + platform + "-" + arch + ".zip");
    assert f[|front|..|front| + |tag|] == tag;
  }

  /** The filename starts with the short name and `-`, and the raw tag follows. */
  lemma FilenameStartsWithShortName(repo: string, tag: string, platform: string, arch: string)
    ensures var n := ShortName(repo);
      var f := Filename(repo, tag, platform, arch);
      && |n| + 1 + |tag| <= |f|
      && f[..|n| + 1] == n + "-"
      && f[|n| + 1..|n| + 1 + |tag|] == tag
  {
    var n := ShortName(repo);
    assert Filename(repo, tag, platform, arch) == (n + "-") + tag + ("-" + platform + "-" + arch + ".zip");
  }

  /** A different platform gives a different URL. */
  lemma ZipUrlDeterminesPlatform(repo: string, tag: string, p1: string, p2: string, arch: string)
    requires ZipUrl(repo, tag, p1, arch) == ZipUrl(repo, tag, p2, arch)
    ensures p1 == p2
  {
    var head := "https://github.com/" + repo + "/releases/download/" + tag + "/" + ShortName(repo) + "-" + tag + "-";
    var tail := "-" + arch + ".zip";
    assert ZipUrl(repo, tag, p1, arch) == head + p1 + tail;
    assert ZipUrl(repo, tag, p2, arch) == head + p2 + tail;
    Cancel(head, p1, p2, tail);
  }

  /** A different architecture gives a different URL. */
  lemma ZipUrlDeterminesArch(repo: string, tag: string, platform: string, a1: string, a2: string)
    requires ZipUrl(repo, tag, platform, a1) == ZipUrl(repo, tag, platform, a2)
    ensures a1 == a2
  {
    var head := "https://github.com/" + repo + "/releases/download/" + tag + "/" + ShortName(repo) + "-" + tag + "-" + platform + "-";
    assert ZipUrl(repo, tag, platform, a1) == head + a1 + ".zip";
    assert ZipUrl(repo, tag, platform, a2) == head + a2 + ".zip";
    Cancel(head, a1, a2, ".zip");
  }

  /** The URL as host, then the release folder ending in the short name, then the rest of the filename. */
  lemma ZipUrlParts(repo: string, tag: string, platform: string, arch: string)
    ensures ZipUrl(repo, tag, platform, arch)
         == "https://github.com/" + ((repo + "/releases/download/" + tag) + ['/'] + ShortName(repo))
            + ("-" + tag + "-" + platform + "-" + arch + ".zip")
  {
  }

  /** Two strings ending in the same separated, separator-free segment. */
  lemma SameLastSegment(a1: string, a2: string, sep: char, b1: string, b2: string)
    requires sep !in b1 && sep !in b2
    requires a1 + [sep] + b1 == a2 + [sep] + b2
    ensures a1 == a2 && b1 == b2
  {
    LastSegmentAfter(a1, sep, b1);
    LastSegmentAfter(a2, sep, b2);
    assert [] + a1 + ([sep] + b1) == a1 + [sep] + b1;
    assert [] + a2 + ([sep] + b1) == a2 + [sep] + b2;
    Cancel([], a1, a2, [sep] + b1);
  }

  /** The release folder inside the URL: repository, `/releases/download/`, tag, `/`, short name. */
  lemma ZipUrlFolder(r1: string, r2: string, tag: string, platform: string, arch: string)
    requires ZipUrl(r1, tag, platform, arch) == ZipUrl(r2, tag, platform, arch)
    ensures (r1 + ("/releases/download/" + tag)) + ['/'] + ShortName(r1)
         == (r2 + ("/releases/download/" + tag)) + ['/'] + ShortName(r2)
  {
    ZipUrlParts(r1, tag, platform, arch);
    ZipUrlParts(r2, tag, platform, arch);
    Cancel("https://github.com/", (r1 + "/releases/download/" + tag) + ['/'] + ShortName(r1),
           (r2 + "/releases/download/" + tag) + ['/'] + ShortName(r2), "-" + tag + "-" + platform + "-" + arch + ".zip");
    assert r1 + "/releases/download/" + tag == r1 + ("/releases/download/" + tag);
    assert r2 + "/releases/download/" + tag == r2 + ("/releases/download/" + tag);
  }

  /**
   * A different repository gives a different URL, although two repositories
   * with the same short name give the same filename.
   */
  lemma ZipUrlDeterminesRepo(r1: string, r2: string, tag: string, platform: string, arch: string)
    requires ZipUrl(r1, tag, platform, arch) == ZipUrl(r2, tag, platform, arch)
    ensures r1 == r2
  {
    var folder := "/releases/download/" + tag;
    ZipUrlFolder(r1, r2, tag, platform, arch);
    SameLastSegment(r1 + folder, r2 + folder, '/', ShortName(r1), ShortName(r2));
    assert [] + r1 + folder == r1 + folder;
    assert [] + r2 + folder == r2 + folder;
    Cancel([], r1, r2, folder);
  }

  /** Same short name, same tag, platform and arch: same filename, whatever the owner. */
  lemma FilenameIgnoresOwner(o1: string, o2: string, name: string, tag: string, platform: string, arch: string)
    requires '/' !in name
    ensures Filename(o1 + "/" + name, tag, platform, arch) == Filename(o2 + "/" + name, tag, platform, arch)
  {
    LastSegmentAfter(o1, '/', name);
    LastSegmentAfter(o2, '/', name);
  }

  /** The clone URL names the repository. */
  lemma RepoUrlDeterminesRepo(r1: string, r2: string)
    requires RepoUrl(r1) == RepoUrl(r2)
    ensures r1 == r2
  {
    Cancel("git@github.com:", r1, r2, ".git");
  }

  /** The feed URL names the port. */
  lemma FeedUrlDeterminesPort(p1: nat, p2: nat, storage: string)
    requires FeedUrl(p1, storage) == FeedUrl(p2, storage)
    ensures p1 == p2
  {
    Cancel("http://127.0.0.1:", Decimal.FromNat(p1), Decimal.FromNat(p2), LocalFile(storage));
    Decimal.FromNatInjective(p1, p2);
  }

  /**
   * The feed URL's path is the manifest's full path, but the server serves
   * `gh_releases`: the file that path maps to there is not the manifest,
   * while `/gh_updates.json` would be.
   */
  lemma FeedPathUnderServedRoot(storage: string)
    ensures ServedRoot(storage) + LocalFile(storage) != LocalFile(storage)
    ensures ServedRoot(storage) + "/gh_updates.json" == LocalFile(storage)
  {
    assert |ServedRoot(storage) + LocalFile(storage)| > |LocalFile(storage)|;
  }
}
