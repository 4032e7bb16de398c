/**
 * The scrobble cache: a per-user, file-backed queue of track plays waiting to
 * be submitted. Every change to the list is followed by one save of the whole
 * list to the user's cache file.
 */
module Cache {
  import opened Tracks
  import opened Validator
  import opened Persistence

  /** The cache file of a user is named after the user with this suffix. */
  const CacheFileSuffix: string := "_subs_cache.xml"

  predicate EndsWith(s: string, suffix: string)
  {
    |suffix| <= |s| && s[|s| - |suffix|..] == suffix
  }

  /** The path of the file `name` inside directory `dir`, with one '/' between them. */
  function FilePath(dir: string, name: string): (r: string)
    ensures EndsWith(r, name)
    ensures |r| > |name| && r[|r| - |name| - 1] == '/'
    ensures |dir| > 0 && dir[|dir| - 1] == '/' ==> r == dir + name
    ensures !(|dir| > 0 && dir[|dir| - 1] == '/') ==> r == dir + "/" + name
  {
    if |dir| > 0 && dir[|dir| - 1] == '/' then dir + name else dir + "/" + name
  }

  /** The candidates that `add` keeps: valid and not null, in input order. */
  function Accepted(candidates: seq<Track>, futureLimit: int): seq<Track>
  {
    if candidates == [] then []
    else
      var last := candidates[|candidates| - 1];
      Accepted(candidates[..|candidates| - 1], futureLimit)
        + (if IsValid(last, futureLimit) && !last.isNull then [last] else [])
  }

  /** The stored tracks that `remove` keeps: those equal to no target, in their order. */
  function Survivors(stored: seq<Track>, targets: seq<Track>): seq<Track>
  {
    if stored == [] then []
    else
      var last := stored[|stored| - 1];
      Survivors(stored[..|stored| - 1], targets) + (if last in targets then [] else [last])
  }

  /** The stored tracks that `remove` drops, each once, in their order. */
  function Dropped(stored: seq<Track>, targets: seq<Track>): seq<Track>
  {
    if stored == [] then []
    else
      var last := stored[|stored| - 1];
      Dropped(stored[..|stored| - 1], targets) + (if last in targets then [last] else [])
  }

  /** Filtering a batch distributes over splitting it: the kept tracks keep the input order. */
  lemma {:induction false} AcceptedConcat(a: seq<Track>, b: seq<Track>, futureLimit: int)
    ensures Accepted(a + b, futureLimit) == Accepted(a, futureLimit) + Accepted(b, futureLimit)
  {
    if b == [] {
      assert a + b == a;
    } else {
      var init := b[..|b| - 1];
      AcceptedConcat(a, init, futureLimit);
      assert (a + b)[..|a + b| - 1] == a + init;
    }
  }

  /** A track is kept exactly when it is a candidate that is valid and not null. */
  lemma {:induction false} AcceptedMembers(candidates: seq<Track>, futureLimit: int, t: Track)
    ensures t in Accepted(candidates, futureLimit) <==>
      t in candidates && IsValid(t, futureLimit) && !t.isNull
  {
    if candidates != [] {
      var init := candidates[..|candidates| - 1];
      AcceptedMembers(init, futureLimit, t);
      assert candidates == init + [candidates[|candidates| - 1]];
    }
  }

  /** A batch of valid, non-null tracks is kept whole. */
  lemma {:induction false} AcceptedAll(candidates: seq<Track>, futureLimit: int)
    requires forall i :: 0 <= i < |candidates| ==> IsValid(candidates[i], futureLimit) && !candidates[i].isNull
    ensures Accepted(candidates, futureLimit) == candidates
  {
    if candidates != [] {
      var n := |candidates| - 1;
      AcceptedAll(candidates[..n], futureLimit);
      assert candidates == candidates[..n] + [candidates[n]];
    }
  }

  /** A batch of which every track is invalid or null adds nothing. */
  lemma {:induction false} AcceptedNone(candidates: seq<Track>, futureLimit: int)
    requires forall i :: 0 <= i < |candidates| ==> !IsValid(candidates[i], futureLimit) || candidates[i].isNull
    ensures Accepted(candidates, futureLimit) == []
  {
    if candidates != [] {
      AcceptedNone(candidates[..|candidates| - 1], futureLimit);
    }
  }

  /** One more stored track either survives after the survivors so far or is dropped. */
  lemma SurvivorsStep(stored: seq<Track>, k: nat, targets: seq<Track>)
    requires k < |stored|
    ensures Survivors(stored[..k + 1], targets)
      == Survivors(stored[..k], targets) + (if stored[k] in targets then [] else [stored[k]])
  {
    assert stored[..k + 1][..k] == stored[..k];
  }

  /** A stored track survives exactly when it is equal to no target. */
  lemma {:induction false} SurvivorsMembers(stored: seq<Track>, targets: seq<Track>, t: Track)
    ensures t in Survivors(stored, targets) <==> t in stored && t !in targets
  {
    if stored != [] {
      var init := stored[..|stored| - 1];
      SurvivorsMembers(init, targets, t);
      assert stored == init + [stored[|stored| - 1]];
    }
  }

  /** When no target is stored, nothing is removed. */
  lemma {:induction false} SurvivorsNoMatch(stored: seq<Track>, targets: seq<Track>)
    requires forall i :: 0 <= i < |stored| ==> stored[i] !in targets
    ensures Survivors(stored, targets) == stored
  {
    if stored != [] {
      var init := stored[..|stored| - 1];
      SurvivorsNoMatch(init, targets);
      assert stored == init + [stored[|stored| - 1]];
    }
  }

  /**
   * Every stored track either survives or is dropped, never both and never
   * twice, however many targets equal it.
   */
  lemma {:induction false} SurvivorsAndDropped(stored: seq<Track>, targets: seq<Track>)
    ensures multiset(Survivors(stored, targets)) + multiset(Dropped(stored, targets)) == multiset(stored)
  {
    if stored != [] {
      var n := |stored| - 1;
      SurvivorsAndDropped(stored[..n], targets);
      assert stored == stored[..n] + [stored[n]];
      assert multiset(stored) == multiset(stored[..n]) + multiset([stored[n]]);
    }
  }

  /** Every dropped track is a target. */
  lemma {:induction false} DroppedAreTargets(stored: seq<Track>, targets: seq<Track>, t: Track)
    requires t in Dropped(stored, targets)
    ensures t in targets && t in stored
  {
    var n := |stored| - 1;
    if t !in Dropped(stored[..n], targets) {
      assert t == stored[n];
    } else {
      DroppedAreTargets(stored[..n], targets, t);
      assert stored == stored[..n] + [stored[n]];
    }
  }

  /** Only which tracks are targets matters: repeating a target changes nothing. */
  lemma {:induction false} SurvivorsSameTargets(stored: seq<Track>, targets: seq<Track>, others: seq<Track>)
    requires forall t :: t in targets <==> t in others
    ensures Survivors(stored, targets) == Survivors(stored, others)
  {
    if stored != [] {
      SurvivorsSameTargets(stored[..|stored| - 1], targets, others);
    }
  }

  /** Removing the same targets a second time is a no-op. */
  lemma SurvivorsIdempotent(stored: seq<Track>, targets: seq<Track>)
    ensures Survivors(Survivors(stored, targets), targets) == Survivors(stored, targets)
  {
    var once := Survivors(stored, targets);
    forall i | 0 <= i < |once| ensures once[i] !in targets {
      SurvivorsMembers(stored, targets, once[i]);
    }
    SurvivorsNoMatch(once, targets);
  }

  /**
   * The remaining count is not the removed count: removing one of three
   * distinct stored tracks, even when it is named twice, leaves two.
   */
  lemma RemainingIsNotRemoved(a: Track, b: Track, c: Track)
    requires a != b && b != c && a != c
    ensures Survivors([a, b, c], [b, b]) == [a, c]
    ensures |Survivors([a, b, c], [b, b])| == 2 && |Dropped([a, b, c], [b, b])| == 1
  {
    assert [a, b, c][..2] == [a, b];
    assert [a, b][..1] == [a];
    assert [a][..0] == [];
    assert Survivors([a], [b, b]) == [a] && Dropped([a], [b, b]) == [];
    assert Survivors([a, b], [b, b]) == [a] && Dropped([a, b], [b, b]) == [b];
  }

  class ScrobbleCache {
    var username: string
    var path: string
    var tracks: seq<Track>

    /** A cache belongs to a named user and lives in that user's cache file. */
    ghost predicate Valid()
      reads this
    {
      |username| > 0 && EndsWith(path, username + CacheFileSuffix)
    }

    /**
     * Opens the cache of `username`, whose file lies in `runtimeDir`, and
     * loads what that file holds.
     */
    constructor (username: string, runtimeDir: string, disk: Disk)
      requires |username| > 0
      ensures Valid()
      ensures this.username == username
      ensures path == FilePath(runtimeDir, username + CacheFileSuffix)
      ensures tracks == Loaded(disk.files, path)
    {
      this.username := username;
      path := FilePath(runtimeDir, username + CacheFileSuffix);
      tracks := [];
      new;
      Read(disk);
    }

    /** A copy owns its own username, path and track list, equal to the source's. */
    constructor Copy(that: ScrobbleCache)
      ensures username == that.username && path == that.path && tracks == that.tracks
      ensures that.Valid() ==> Valid()
    {
      username := that.username;
      path := that.path;
      tracks := that.tracks;
    }

    /** Assignment replaces all three fields by the source's. */
    method Assign(that: ScrobbleCache)
      modifies this
      ensures username == old(that.username) && path == old(that.path) && tracks == old(that.tracks)
      ensures that.Valid() ==> Valid()
    {
      username := that.username;
      path := that.path;
      tracks := that.tracks;
    }

    /** Replaces the list by the tracks of the file at `path`, or by nothing when it is missing or unparseable. */
    method Read(disk: Disk)
      requires Valid()
      modifies this`tracks
      ensures Valid()
      ensures tracks == Loaded(disk.files, path)
    {
      tracks := [];
      if path in disk.files && disk.files[path].Xml? {
        var children := disk.files[path].doc.children;
        var i := 0;
        while i < |children|
          invariant 0 <= i <= |children|
          invariant tracks == TracksOf(children[..i])
        {
          assert children[..i + 1][..i] == children[..i];
          match children[i] {
            case TrackElement(t) => tracks := tracks + [t];
            case OtherNode =>
          }
          i := i + 1;
        }
        assert children[..i] == children;
      }
    }

    /** Saves the list to `path`: deletes the file when the list is empty, writes every track in order otherwise. */
    method Write(disk: Disk, product: string)
      modifies disk
      ensures disk.files == Saved(old(disk.files), path, product, tracks)
    {
      if |tracks| == 0 {
        disk.files := disk.files - {path};
      } else {
        var children: seq<Node> := [];
        var i := 0;
        while i < |tracks|
          invariant 0 <= i <= |tracks|
          invariant children == TrackNodes(tracks[..i])
        {
          assert tracks[..i + 1][..i] == tracks[..i];
          children := children + [TrackElement(tracks[i])];
          i := i + 1;
        }
        assert tracks[..i] == tracks;
        disk.files := disk.files[path := Xml(Document(RootTag, product, FormatVersion, children))];
      }
    }

    /**
     * Appends, in input order, every candidate that is valid at `futureLimit`
     * (the current time plus one month) and is not null, then saves once.
     */
    method Add(candidates: seq<Track>, futureLimit: int, disk: Disk, product: string)
      requires Valid()
      modifies this`tracks, disk
      ensures Valid()
      ensures tracks == old(tracks) + Accepted(candidates, futureLimit)
      ensures disk.files == Saved(old(disk.files), path, product, tracks)
    {
      var i := 0;
      while i < |candidates|
        invariant 0 <= i <= |candidates|
        invariant tracks == old(tracks) + Accepted(candidates[..i], futureLimit)
        invariant disk.files == old(disk.files)
      {
        assert candidates[..i + 1][..i] == candidates[..i];
        var track := candidates[i];
        var verdict := Check(track, futureLimit);
        if verdict.Invalid? {
          // rejected for verdict.reason; only reported as a diagnostic
        } else if track.isNull {
          // the null track is never cached; only reported as a diagnostic
        } else {
          tracks := tracks + [track];
        }
        i := i + 1;
      }
      assert candidates[..i] == candidates;
      Write(disk, product);
    }

    /**
     * Erases, in one pass, every stored track equal to some target, then saves
     * once. Returns the number of tracks REMAINING, not the number removed.
     */
    method Remove(targets: seq<Track>, disk: Disk, product: string) returns (remaining: int)
      requires Valid()
      modifies this`tracks, disk
      ensures Valid()
      ensures tracks == Survivors(old(tracks), targets)
      ensures remaining == |tracks|
      ensures disk.files == Saved(old(disk.files), path, product, tracks)
    {
      ghost var before := tracks;
      ghost var k := 0;
      var pos := 0;
      while pos < |tracks|
        invariant 0 <= pos <= |tracks|
        invariant 0 <= k <= |before| && |tracks| - pos == |before| - k
        invariant tracks[..pos] == Survivors(before[..k], targets)
        invariant tracks[pos..] == before[k..]
        invariant disk.files == old(disk.files)
        decreases |tracks| - pos
      {
        ghost var current := tracks;
        assert current[pos] == before[k] && current[pos + 1..] == before[k + 1..];
        var erased := EraseIfTarget(pos, targets);
        SurvivorsStep(before, k, targets);
        if erased {
          assert tracks[..pos] == current[..pos] && tracks[pos..] == current[pos + 1..];
        } else {
          assert current[..pos + 1] == current[..pos] + [current[pos]];
          pos := pos + 1;
        }
        k := k + 1;
      }
      assert before[..k] == before;
      Write(disk, product);
      remaining := |tracks|;
    }

    /**
     * The inner loop of `remove` at the iterator's position `pos`: the track
     * there is erased when it equals some target. The iterator erases at most
     * once per position, however many targets match.
     */
    method EraseIfTarget(pos: nat, targets: seq<Track>) returns (erased: bool)
      requires Valid()
      requires pos < |tracks|
      modifies this`tracks
      ensures Valid()
      ensures erased <==> old(tracks[pos]) in targets
      ensures tracks == if erased then old(tracks[..pos] + tracks[pos + 1..]) else old(tracks)
    {
      var t := tracks[pos];
      erased := false;
      var x := 0;
      while x < |targets|
        invariant 0 <= x <= |targets|
        invariant erased <==> t in targets[..x]
        invariant tracks == if erased then old(tracks[..pos] + tracks[pos + 1..]) else old(tracks)
      {
        assert targets[..x + 1] == targets[..x] + [targets[x]];
        if targets[x] == t {
          // a second erase of the same position does nothing
          if !erased {
            tracks := tracks[..pos] + tracks[pos + 1..];
            erased := true;
          }
        }
        x := x + 1;
      }
      assert targets[..x] == targets;
    }

    /** The current list; nothing changes. */
    method Tracks() returns (r: seq<Track>)
      ensures r == tracks
    {
      r := tracks;
    }

    /** The cache file's path; nothing changes. */
    method Path() returns (r: string)
      ensures r == path
    {
      r := path;
    }

    /** The user the cache belongs to; nothing changes. */
    method Username() returns (r: string)
      ensures r == username
    {
      r := username;
    }
  }
}
