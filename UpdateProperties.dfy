/**
 * What one `check` run guarantees, stated over the trace of its effects:
 * which failures stop it where, when it reports an update, what it writes and
 * where it points the updater.
 */
module UpdateProperties {

  import opened Wrappers
  import opened Strings
  import SemVer
  import opened GhReleases

  // ---------------------------------------------------------------------------
  // Counting effects

  /** The kinds of effect a run can have. */
  datatype Kind = Command | Write | Serve | Feed | Call | Throw

  function KindOf(e: Event): Kind
  {
    match e
    case Exec(_, _) => Command
    case WriteJson(_, _) => Write
    case Listen(_) => Serve
    case SetFeedUrl(_) => Feed
    case Callback(_, _) => Call
    case Uncaught(_) => Throw
  }

  /** How many effects of kind `k` the trace holds. */
  function Occurrences(trace: seq<Event>, k: Kind): nat
  {
    if trace == [] then 0
    else (if KindOf(trace[0]) == k then 1 else 0) + Occurrences(trace[1..], k)
  }

  lemma {:induction false} OccurrencesAppend(a: seq<Event>, b: seq<Event>)
    ensures forall k :: Occurrences(a + b, k) == Occurrences(a, k) + Occurrences(b, k)
  {
    if a == [] {
      assert a + b == b;
    } else {
      assert (a + b)[1..] == a[1..] + b;
      OccurrencesAppend(a[1..], b);
    }
  }

  lemma OccurrencesOne(e: Event)
    ensures forall k :: Occurrences([e], k) == if KindOf(e) == k then 1 else 0
  {
    assert [e][1..] == [];
  }

  // ---------------------------------------------------------------------------
  // The path a run takes

  /** The candidate `check` pops, when `_getTags` succeeded; undefined otherwise. */
  function Candidate(w: World): Option<string>
  {
    if w.cloneOk && w.tagOk then Latest(TagList(w.tagStdout)) else None
  }

  /** What `check` makes of the world: the verdict on the popped candidate. */
  function VerdictOf(w: World, current: string): Verdict
  {
    Judge(Candidate(w), current)
  }

  lemma FetchCounts(repo: string, repoUrl: string, storage: string, w: World)
    ensures forall k :: k != Command ==> Occurrences(FetchTrace(repo, repoUrl, storage, w), k) == 0
  {
    var clone := [Exec("git clone " + repoUrl, storage)];
    var list := if w.cloneOk then [Exec("git tag", CloneDir(storage, repo))] else [];
    OccurrencesOne(clone[0]);
    assert clone == [clone[0]];
    OccurrencesAppend(clone, list);
    if w.cloneOk {
      OccurrencesOne(list[0]);
      assert list == [list[0]];
    }
  }

  lemma PublishCounts(repo: string, storage: string, tag: string, w: World)
    ensures var p := PublishTrace(repo, storage, tag, w);
      && Occurrences(p, Write) == 1 && Occurrences(p, Call) == 1 && Occurrences(p, Throw) == 0
      && Occurrences(p, Serve) == (if w.writeOk then 1 else 0)
      && Occurrences(p, Feed) == (if w.writeOk then 1 else 0)
      && Last(p).Callback?
  {
    var write := WriteJson(LocalFile(storage), Manifest(ZipUrl(repo, tag, w.platform, w.arch)));
    OccurrencesOne(write);
    if w.writeOk {
      var serve, feed, call := Listen(ServedRoot(storage)), SetFeedUrl(FeedUrl(w.port, storage)), Callback(None, Some(true));
      OccurrencesOne(serve);
      OccurrencesOne(feed);
      OccurrencesOne(call);
      OccurrencesAppend([feed], [call]);
      assert [feed] + [call] == [feed, call];
      OccurrencesAppend([serve], [feed, call]);
      assert [serve] + [feed, call] == [serve, feed, call];
      OccurrencesAppend([write], [serve, feed, call]);
    } else {
      var call := Callback(Some(SaveFailed), Some(false));
      OccurrencesOne(call);
      OccurrencesAppend([write], [call]);
    }
  }

  lemma ReleaseCounts(repo: string, storage: string, v: Verdict, w: World)
    ensures var r := ReleaseTrace(repo, storage, v, w);
      && Occurrences(r, Call) == (if v.Unreadable? then 0 else 1)
      && Occurrences(r, Throw) == (if v.Unreadable? then 1 else 0)
      && Occurrences(r, Write) == (if v.NotOlder? then 1 else 0)
      && Occurrences(r, Serve) == (if v.NotOlder? && w.writeOk then 1 else 0)
      && Occurrences(r, Feed) == (if v.NotOlder? && w.writeOk then 1 else 0)
      && (!v.Unreadable? ==> Last(r).Callback?)
  {
    var r := ReleaseTrace(repo, storage, v, w);
    match v
    case NotOlder(tag) =>
      PublishCounts(repo, storage, tag, w);
    case _ =>
      assert r == [r[0]];
      OccurrencesOne(r[0]);
  }

  /** A run's trace: the commands of `_getTags`, then what follows from their outcome. */
  lemma CheckSplits(repo: string, repoUrl: string, storage: string, current: string, w: World)
    ensures var t := CheckTrace(repo, repoUrl, storage, current, w);
      var fetched := FetchTrace(repo, repoUrl, storage, w);
      && (!w.cloneOk ==> t == fetched + [Callback(Some(Rewrapped(CloneFailed)), Some(false))])
      && (w.cloneOk && !w.tagOk ==> t == fetched + [Callback(Some(Rewrapped(TagsFailed)), Some(false))])
      && (w.cloneOk && w.tagOk ==> t == fetched + ReleaseTrace(repo, storage, VerdictOf(w, current), w))
  {
  }

  // ---------------------------------------------------------------------------
  // Tag listing

  /** What `git tag` prints for the tags `ts`: each on its own line. */
  function Lines(ts: seq<string>): string
  {
    if ts == [] then "" else ts[0] + "\n" + Lines(ts[1..])
  }

  lemma {:induction false} SplitLines(ts: seq<string>, tail: string)
    requires forall i :: 0 <= i < |ts| ==> '\n' !in ts[i]
    requires '\n' !in tail
    ensures Split(Lines(ts) + tail, '\n') == ts + [tail]
  {
    if ts == [] {
      assert Lines(ts) + tail == tail;
      SplitNoSeparator(tail, '\n');
    } else {
      SplitLines(ts[1..], tail);
      assert Lines(ts) + tail == ts[0] + ['\n'] + (Lines(ts[1..]) + tail);
      SplitAppend(ts[0], '\n', Lines(ts[1..]) + tail);
      assert [ts[0]] + ts[1..] == ts;
    }
  }

  /**
   * The tag list is the printed lines; a last line without its newline
   * is lost, as the final `pop()` removes it.
   */
  lemma TagListOfLines(ts: seq<string>, tail: string)
    requires forall i :: 0 <= i < |ts| ==> '\n' !in ts[i]
    requires '\n' !in tail
    ensures TagList(Lines(ts) + tail) == ts
  {
    SplitLines(ts, tail);
  }

  // ---------------------------------------------------------------------------
  // Early exits

  /** A failed clone: one error callback with `false`; no tag listing, no manifest, no feed URL. */
  lemma CloneFailure(repo: string, repoUrl: string, storage: string, current: string, w: World)
    requires !w.cloneOk
    ensures CheckTrace(repo, repoUrl, storage, current, w)
         == [Exec("git clone " + repoUrl, storage), Callback(Some("Error: " + CloneFailed), Some(false))]
  {
    CheckSplits(repo, repoUrl, storage, current, w);
    assert FetchTrace(repo, repoUrl, storage, w) == [Exec("git clone " + repoUrl, storage)];
  }

  /** A failed tag listing after a clone: one error callback with `false`; no manifest, no feed URL. */
  lemma TagListFailure(repo: string, repoUrl: string, storage: string, current: string, w: World)
    requires w.cloneOk && !w.tagOk
    ensures CheckTrace(repo, repoUrl, storage, current, w)
         == [Exec("git clone " + repoUrl, storage), Exec("git tag", CloneDir(storage, repo)),
             Callback(Some("Error: " + TagsFailed), Some(false))]
  {
    CheckSplits(repo, repoUrl, storage, current, w);
    assert FetchTrace(repo, repoUrl, storage, w) == [Exec("git clone " + repoUrl, storage), Exec("git tag", CloneDir(storage, repo))];
  }

  /**
   * No usable candidate: the list is empty, or its LAST element fails
   * `clean` + `valid`. One error callback whose second argument is
   * undefined, right after the two commands.
   */
  lemma NoValidRelease(repo: string, repoUrl: string, storage: string, current: string, w: World)
    requires w.cloneOk && w.tagOk && (Candidate(w).None? || !IsReleaseTag(Candidate(w).value))
    ensures CheckTrace(repo, repoUrl, storage, current, w)
         == FetchTrace(repo, repoUrl, storage, w) + [Callback(Some(NoValidTag), None)]
  {
  }

  /** Output with no newline lists no tags, which is an error, not "no update". */
  lemma EmptyTagListIsError(repo: string, repoUrl: string, storage: string, current: string, w: World)
    requires w.cloneOk && w.tagOk && '\n' !in w.tagStdout
    ensures Last(CheckTrace(repo, repoUrl, storage, current, w)) == Callback(Some(NoValidTag), None)
  {
    CountZero(w.tagStdout, '\n');
    assert TagList(w.tagStdout) == [];
  }

  /** Every printed line is a listed tag when the output ends in a newline. */
  lemma TagListOfTerminatedLines(ts: seq<string>)
    requires forall i :: 0 <= i < |ts| ==> '\n' !in ts[i]
    ensures TagList(Lines(ts)) == ts
  {
    TagListOfLines(ts, "");
    assert Lines(ts) + "" == Lines(ts);
  }

  /** The candidate is the last printed tag, whatever was printed before it. */
  lemma CandidateIsLastLine(w: World, earlier: seq<string>, tag: string)
    requires w.cloneOk && w.tagOk
    requires forall i :: 0 <= i < |earlier| ==> '\n' !in earlier[i]
    requires '\n' !in tag
    ensures Candidate(w.(tagStdout := Lines(earlier + [tag]))) == Some(tag)
  {
    var all := earlier + [tag];
    assert forall i :: 0 <= i < |all| ==> '\n' !in all[i];
    TagListOfTerminatedLines(all);
    assert Latest(all) == Some(tag);
  }

  /** Only the last listed tag is looked at; the others, and their order, do not matter. */
  lemma OnlyLastTagMatters(repo: string, repoUrl: string, storage: string, current: string, w: World,
                           earlier: seq<string>, tag: string)
    requires forall i :: 0 <= i < |earlier| ==> '\n' !in earlier[i]
    requires '\n' !in tag
    ensures CheckTrace(repo, repoUrl, storage, current, w.(tagStdout := Lines(earlier + [tag])))
         == CheckTrace(repo, repoUrl, storage, current, w.(tagStdout := Lines([tag])))
  {
    var w1, w2 := w.(tagStdout := Lines(earlier + [tag])), w.(tagStdout := Lines([tag]));
    CheckSplits(repo, repoUrl, storage, current, w1);
    CheckSplits(repo, repoUrl, storage, current, w2);
    assert FetchTrace(repo, repoUrl, storage, w1) == FetchTrace(repo, repoUrl, storage, w2);
    if w.cloneOk && w.tagOk {
      CandidateIsLastLine(w, earlier, tag);
      CandidateIsLastLine(w, [], tag);
      assert [] + [tag] == [tag];
      var v := VerdictOf(w1, current);
      assert v == VerdictOf(w2, current);
      ReleaseTraceIgnoresOutput(repo, storage, v, w1, Lines([tag]));
      assert w1.(tagStdout := Lines([tag])) == w2;
    }
  }

  /** After the verdict, what `git tag` printed plays no part. */
  lemma ReleaseTraceIgnoresOutput(repo: string, storage: string, v: Verdict, w: World, out: string)
    ensures ReleaseTrace(repo, storage, v, w.(tagStdout := out)) == ReleaseTrace(repo, storage, v, w)
  {
  }

  // ---------------------------------------------------------------------------
  // Effects of every run

  /**
   * Every run invokes the callback exactly once, as its last effect, unless
   * `lt` throws, when it is never invoked; the manifest is written once
   * when the candidate is not older, and the server and feed URL follow only
   * a successful write.
   */
  lemma EffectCounts(repo: string, repoUrl: string, storage: string, current: string, w: World)
    ensures var t := CheckTrace(repo, repoUrl, storage, current, w);
      var v := VerdictOf(w, current);
      && Occurrences(t, Call) == (if v.Unreadable? then 0 else 1)
      && Occurrences(t, Throw) == (if v.Unreadable? then 1 else 0)
      && Occurrences(t, Write) == (if v.NotOlder? then 1 else 0)
      && Occurrences(t, Serve) == (if v.NotOlder? && w.writeOk then 1 else 0)
      && Occurrences(t, Feed) == (if v.NotOlder? && w.writeOk then 1 else 0)
      && (!v.Unreadable? ==> Last(t).Callback?)
  {
    var t := CheckTrace(repo, repoUrl, storage, current, w);
    var fetched := FetchTrace(repo, repoUrl, storage, w);
    CheckSplits(repo, repoUrl, storage, current, w);
    FetchCounts(repo, repoUrl, storage, w);
    var tail := t[|fetched|..];
    assert t == fetched + tail;
    OccurrencesAppend(fetched, tail);
    if w.cloneOk && w.tagOk {
      assert tail == ReleaseTrace(repo, storage, VerdictOf(w, current), w);
      ReleaseCounts(repo, storage, VerdictOf(w, current), w);
    } else {
      assert Candidate(w) == None;
      assert tail == [tail[0]] && tail[0].Callback?;
      OccurrencesOne(tail[0]);
    }
  }

  // ---------------------------------------------------------------------------
  // The version decision

  /** The verdict on a release tag `lt` compares. */
  lemma JudgeCompared(tag: string, current: string, older: bool)
    requires IsReleaseTag(tag) && SemVer.Lt(tag, current) == SemVer.Compared(older)
    ensures Judge(Some(tag), current) == if older then Older else NotOlder(tag)
  {
  }

  /** The verdict on a candidate `lt` can read, against a running version it can read. */
  lemma JudgeReadable(tag: string, current: string, latest: SemVer.Version, running: SemVer.Version)
    requires SemVer.ParseFull(Trim(tag)) == Some(latest)
    requires SemVer.ParseFull(Trim(current)) == Some(running)
    ensures Judge(Some(tag), current) == if SemVer.Compare(latest, running) == SemVer.Less then Older else NotOlder(tag)
  {
    SemVer.ReadableIsValid(tag, latest);
    SemVer.LtReadable(tag, current, latest, running);
    JudgeCompared(tag, current, SemVer.Compare(latest, running) == SemVer.Less);
  }

  lemma LastAppend<T>(a: seq<T>, b: seq<T>)
    requires b != []
    ensures Last(a + b) == Last(b)
  {
  }

  /** `(null, false)` ends a run exactly when the candidate is older. */
  lemma AnsweredNoExactlyWhenOlder(repo: string, repoUrl: string, storage: string, current: string, w: World)
    ensures Last(CheckTrace(repo, repoUrl, storage, current, w)) == Callback(None, Some(false))
            <==> VerdictOf(w, current) == Older
  {
    var fetched := FetchTrace(repo, repoUrl, storage, w);
    CheckSplits(repo, repoUrl, storage, current, w);
    if w.cloneOk && w.tagOk {
      var v := VerdictOf(w, current);
      var r := ReleaseTrace(repo, storage, v, w);
      match v
      case NotOlder(tag) =>
        assert r == PublishTrace(repo, storage, tag, w);
        assert Last(r) == Callback(Some(SaveFailed), Some(false)) || Last(r) == Callback(None, Some(true));
        LastAppend(fetched, r);
      case _ =>
        LastAppend(fetched, r);
    } else {
      assert Candidate(w) == None;
    }
  }

  /**
   * With a candidate and a running version that `lt` can read, `check`
   * answers `(null, false)` exactly when the candidate is strictly below the
   * running version, and goes on to write the manifest exactly when it is not.
   */
  lemma NoUpdateExactlyWhenOlder(repo: string, repoUrl: string, storage: string, current: string, w: World,
                                 tag: string, latest: SemVer.Version, running: SemVer.Version)
    requires Candidate(w) == Some(tag)
    requires SemVer.ParseFull(Trim(tag)) == Some(latest)
    requires SemVer.ParseFull(Trim(current)) == Some(running)
    ensures VerdictOf(w, current) == if SemVer.Compare(latest, running) == SemVer.Less then Older else NotOlder(tag)
    ensures Last(CheckTrace(repo, repoUrl, storage, current, w)) == Callback(None, Some(false))
            <==> SemVer.Compare(latest, running) == SemVer.Less
  {
    JudgeReadable(tag, current, latest, running);
    AnsweredNoExactlyWhenOlder(repo, repoUrl, storage, current, w);
  }

  /** An equal version (build metadata aside) is reported as an update. */
  lemma EqualVersionIsUpdate(repo: string, repoUrl: string, storage: string, current: string, w: World,
                             tag: string, latest: SemVer.Version, running: SemVer.Version)
    requires Candidate(w) == Some(tag)
    requires SemVer.ParseFull(Trim(tag)) == Some(latest)
    requires SemVer.ParseFull(Trim(current)) == Some(running)
    requires SemVer.SamePrecedence(latest, running)
    ensures VerdictOf(w, current) == NotOlder(tag)
  {
    SemVer.CompareFlip(latest, running);
    NoUpdateExactlyWhenOlder(repo, repoUrl, storage, current, w, tag, latest, running);
  }

  /** A version text has no newline, so `=` + version is printed as one line. */
  lemma EqualsTagIsOneLine(version: string)
    requires SemVer.Parse(version).Some?
    ensures '\n' !in "=" + version
  {
    var tag := "=" + version;
    var v := SemVer.Parse(version).value;
    SemVer.ParseIff(version, v);
    SemVer.FormatChars(v);
    assert forall j :: 1 <= j < |tag| ==> SemVer.IsVersionChar(tag[j]);
  }

  /** A release tag `lt` cannot read is judged unreadable. */
  lemma JudgeUnreadable(tag: string, current: string)
    requires tag != [] && SemVer.Valid(SemVer.Clean(tag)).Some?
    requires SemVer.Lt(tag, current) == SemVer.Invalid(tag)
    ensures Judge(Some(tag), current) == Unreadable(tag)
  {
  }

  /**
   * A tag `=` + version: `clean` strips the `=` and accepts it, but `lt`
   * reads it raw and throws on it.
   */
  lemma JudgeEqualsPrefix(version: string, current: string)
    requires SemVer.Parse(version).Some?
    ensures '\n' !in "=" + version
    ensures Judge(Some("=" + version), current) == Unreadable("=" + version)
  {
    var tag := "=" + version;
    EqualsTagIsOneLine(version);
    SemVer.EqualsPrefixCleanButNotComparable(version, current);
    assert ['='] + version == tag;
    JudgeUnreadable(tag, current);
  }

  /**
   * A candidate `clean` accepts but `lt` cannot read (`=1.2.0`, say) makes
   * `lt` throw inside the exec callback: the callback is never invoked.
   */
  lemma UnreadableCandidateThrows(repo: string, repoUrl: string, storage: string, current: string, w: World,
                                  version: string)
    requires w.cloneOk && w.tagOk
    requires SemVer.Parse(version).Some?
    requires w.tagStdout == Lines(["=" + version])
    ensures var t := CheckTrace(repo, repoUrl, storage, current, w);
      var tag := "=" + version;
      && t == FetchTrace(repo, repoUrl, storage, w) + [Uncaught(InvalidVersion + tag)]
      && Occurrences(t, Call) == 0
  {
    var tag := "=" + version;
    JudgeEqualsPrefix(version, current);
    CandidateIsLastLine(w, [], tag);
    assert [] + [tag] == [tag];
    assert VerdictOf(w, current) == Unreadable(tag);
    CheckSplits(repo, repoUrl, storage, current, w);
    EffectCounts(repo, repoUrl, storage, current, w);
  }

  /**
   * A running version `lt` cannot read makes `lt` throw on it, whatever
   * release tag it is compared with: the callback is never invoked.
   */
  lemma UnreadableRunningVersionThrows(repo: string, repoUrl: string, storage: string, current: string, w: World,
                                       earlier: seq<string>, tag: string, latest: SemVer.Version)
    requires w.cloneOk && w.tagOk
    requires forall i :: 0 <= i < |earlier| ==> '\n' !in earlier[i]
    requires '\n' !in tag
    requires w.tagStdout == Lines(earlier + [tag])
    requires SemVer.ParseFull(Trim(tag)) == Some(latest)
    requires SemVer.ParseFull(Trim(current)).None?
    ensures var t := CheckTrace(repo, repoUrl, storage, current, w);
      && t == FetchTrace(repo, repoUrl, storage, w) + [Uncaught(InvalidVersion + current)]
      && Occurrences(t, Call) == 0
  {
    CandidateIsLastLine(w, earlier, tag);
    assert w.(tagStdout := Lines(earlier + [tag])) == w;
    JudgeUnreadableRunning(tag, current, latest);
    assert VerdictOf(w, current) == Unreadable(current);
    CheckSplits(repo, repoUrl, storage, current, w);
    EffectCounts(repo, repoUrl, storage, current, w);
  }

  /** A release tag compared with a running version `lt` cannot read is judged unreadable, naming that version. */
  lemma JudgeUnreadableRunning(tag: string, current: string, latest: SemVer.Version)
    requires SemVer.ParseFull(Trim(tag)) == Some(latest)
    requires SemVer.ParseFull(Trim(current)).None?
    ensures Judge(Some(tag), current) == Unreadable(current)
  {
    SemVer.ReadableIsValid(tag, latest);
    assert SemVer.Lt(tag, current) == SemVer.Invalid(current);
  }

  // ---------------------------------------------------------------------------
  // Publishing

  /**
   * `check` reports `(null, true)` exactly when every step succeeded and the
   * candidate is not older; its last four effects are then: the manifest
   * `{url: zipUrl}` written to the storage folder, the server started on
   * `gh_releases`, the feed URL set, and only then the callback.
   */
  lemma UpdateReported(repo: string, repoUrl: string, storage: string, current: string, w: World)
    ensures var t := CheckTrace(repo, repoUrl, storage, current, w);
      && (Last(t) == Callback(None, Some(true)) <==> VerdictOf(w, current).NotOlder? && w.writeOk)
      && (Last(t) == Callback(None, Some(true)) ==>
            && |t| >= 4
            && t[|t| - 4] == WriteJson(LocalFile(storage), Manifest(ZipUrl(repo, VerdictOf(w, current).tag, w.platform, w.arch)))
            && t[|t| - 3] == Listen(ServedRoot(storage))
            && t[|t| - 2] == SetFeedUrl(FeedUrl(w.port, storage)))
  {
    CheckSplits(repo, repoUrl, storage, current, w);
    if w.cloneOk && w.tagOk {
      ReleaseCounts(repo, storage, VerdictOf(w, current), w);
    }
  }

  /** A failed manifest write: the error callback with `false` ends the run; no server, no feed URL. */
  lemma WriteFailure(repo: string, repoUrl: string, storage: string, current: string, w: World)
    requires !w.writeOk && VerdictOf(w, current).NotOlder?
    ensures var t := CheckTrace(repo, repoUrl, storage, current, w);
      && Last(t) == Callback(Some(SaveFailed), Some(false))
      && Occurrences(t, Serve) == 0 && Occurrences(t, Feed) == 0
  {
    CheckSplits(repo, repoUrl, storage, current, w);
    EffectCounts(repo, repoUrl, storage, current, w);
  }
}
