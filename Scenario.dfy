/**
 * A worked first session of a new user against the cache, derived from the
 * contracts of the cache's operations alone.
 */
module Scenario {
  import opened Tracks
  import opened Validator
  import opened Persistence
  import opened Cache

  const Now: int := 1600000000
  const OneMonthLater: int := Now + 30 * 24 * 60 * 60

  const TrackA: Track := Track(200, Some(Now - 600), Some("Air"), "Alone in Kyoto", false)
  const Untitled: Track := Track(180, Some(Now - 400), Some("Air"), "", false)
  const TrackB: Track := Track(240, Some(Now - 200), Some("Air"), "Run", false)

  /** Two titled plays by "Air" pass the validator; the untitled one fails for its missing title. */
  lemma BatchVerdicts()
    ensures IsValid(TrackA, OneMonthLater) && IsValid(TrackB, OneMonthLater)
    ensures Check(Untitled, OneMonthLater) == Invalid(TrackNameMissing)
  {
    assert LowerChar('A') == 'a';
    assert ToLower("Air") == "air";
  }

  /** Of the batch [A, untitled, B], `add` keeps [A, B]. */
  lemma BatchAccepted()
    ensures Accepted([TrackA, Untitled, TrackB], OneMonthLater) == [TrackA, TrackB]
  {
    BatchVerdicts();
    TwoOfThree(TrackA, Untitled, TrackB, OneMonthLater);
  }

  /** Two accepted tracks, one rejected between them: the two are kept in order. */
  lemma TwoOfThree(a: Track, rejected: Track, b: Track, futureLimit: int)
    requires IsValid(a, futureLimit) && !a.isNull && IsValid(b, futureLimit) && !b.isNull
    requires !IsValid(rejected, futureLimit)
    ensures Accepted([a, rejected, b], futureLimit) == [a, b]
  {
    var one, two, three := [a], [a, rejected], [a, rejected, b];
    assert three[..2] == two && two[..1] == one && one[..0] == [];
    assert Accepted(one, futureLimit) == [a];
    assert Accepted(two, futureLimit) == Accepted(one, futureLimit);
    assert Accepted(three, futureLimit) == Accepted(two, futureLimit) + [b];
  }

  /** Removing both of two stored tracks, in either order, leaves nothing. */
  lemma RemoveBoth(a: Track, b: Track)
    ensures Survivors([a, b], [b, a]) == []
  {
    assert [a, b][..1] == [a];
    assert [a][..0] == [];
    assert Survivors([a], [b, a]) == [];
  }

  /**
   * User "alice" without a cache file: the cache opens empty at a path ending
   * in "alice_subs_cache.xml"; adding [a, untitled, b] stores [a, b] and writes
   * a version "2" file; a fresh cache for alice loads [a, b]; removing both
   * leaves 0, deletes the file, and a fresh cache then loads nothing.
   */
  method FirstSession(runtimeDir: string, product: string, futureLimit: int, a: Track, untitled: Track, b: Track)
    returns (initial: seq<Track>, cachePath: string, stored: seq<Track>, written: bool,
             reloaded: seq<Track>, remaining: int, fileLeft: bool, reopened: seq<Track>)
    requires IsValid(a, futureLimit) && !a.isNull && IsValid(b, futureLimit) && !b.isNull
    requires untitled.title == []
    ensures initial == [] && EndsWith(cachePath, "alice_subs_cache.xml")
    ensures stored == [a, b] && written
    ensures reloaded == [a, b]
    ensures remaining == 0 && !fileLeft && reopened == []
  {
    var disk := new Disk(map[]);
    var cache := new ScrobbleCache("alice", runtimeDir, disk);
    initial := cache.Tracks();
    assert disk.files == map[];
    cachePath := cache.Path();
    assert "alice" + CacheFileSuffix == "alice_subs_cache.xml";

    assert Breaks(untitled, futureLimit, TrackNameMissing);
    TwoOfThree(a, untitled, b, futureLimit);
    cache.Add([a, untitled, b], futureLimit, disk, product);
    stored := cache.Tracks();
    assert stored == [a, b];
    assert disk.files == Saved(map[], cachePath, product, [a, b]);
    SavedDocument(map[], cachePath, product, stored);
    written := cachePath in disk.files && disk.files[cachePath].Xml?
      && disk.files[cachePath].doc.version == "2";

    var again := new ScrobbleCache("alice", runtimeDir, disk);
    LoadAfterSave(map[], cachePath, product, stored);
    reloaded := again.Tracks();

    RemoveBoth(a, b);
    remaining := cache.Remove([b, a], disk, product);
    fileLeft := cachePath in disk.files;

    var last := new ScrobbleCache("alice", runtimeDir, disk);
    reopened := last.Tracks();
  }
}
