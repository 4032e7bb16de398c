/**
 * The validator of the scrobble cache: a pure classifier that either accepts
 * a track or names exactly one reason for rejecting it. Seven rules are tried
 * in a fixed order and the first rule that fails decides the reason.
 */
module Validator {
  import opened Tracks

  /** Shortest duration (seconds) a track may have to be scrobbled (ScrobblePoint's kScrobbleMinLength). */
  const MinScrobbleLength: int := 31

  /** 2003-01-01T00:00:00 UTC in seconds since the epoch: no play can be older than the service. */
  const DistantPast: int := 1041379200

  /** Artist names that only say the artist is not known; compared after lower-casing. */
  const PlaceholderArtists: set<string> := {"unknown artist", "unknown", "[unknown]", "[unknown artist]"}

  /** The reasons for rejecting a track, in the order the source's enumeration declares them. */
  datatype Invalidity =
    | TooShort
    | ArtistNameMissing
    | TrackNameMissing
    | ArtistInvalid
    | NoTimestamp
    | FromTheFuture
    | FromTheDistantPast

  datatype Verdict = Valid | Invalid(reason: Invalidity)

  /**
   * Whether `t` breaks the one rule named by `rule`, judged on its own and
   * regardless of the other rules. `futureLimit` is the current time advanced
   * by one month.
   */
  predicate Breaks(t: Track, futureLimit: int, rule: Invalidity)
  {
    match rule
    case TooShort => t.duration < MinScrobbleLength
    case NoTimestamp => t.timestamp.None?
    case FromTheFuture => t.timestamp.Some? && t.timestamp.value > futureLimit
    case FromTheDistantPast => t.timestamp.Some? && t.timestamp.value < DistantPast
    case ArtistNameMissing => t.artist.None?
    case TrackNameMissing => |t.title| == 0
    case ArtistInvalid => t.artist.Some? && ToLower(t.artist.value) in PlaceholderArtists
  }

  /** The position of a rule in the order in which the validator tries the rules. */
  function Precedence(rule: Invalidity): nat
  {
    match rule
    case TooShort => 0
    case NoTimestamp => 1
    case FromTheFuture => 2
    case FromTheDistantPast => 3
    case ArtistNameMissing => 4
    case TrackNameMissing => 5
    case ArtistInvalid => 6
  }

  /**
   * Classifies a track. The verdict is Valid exactly when no rule is broken;
   * otherwise its reason is a broken rule and every rule tried before it holds.
   */
  function Check(t: Track, futureLimit: int): (r: Verdict)
    ensures r.Valid? ==> forall q: Invalidity :: !Breaks(t, futureLimit, q)
    ensures r.Invalid? ==> Breaks(t, futureLimit, r.reason)
    ensures r.Invalid? ==>
      forall q: Invalidity :: Precedence(q) < Precedence(r.reason) ==> !Breaks(t, futureLimit, q)
  {
    if t.duration < MinScrobbleLength then Invalid(TooShort)
    else if t.timestamp.None? then Invalid(NoTimestamp)
    else if t.timestamp.value > futureLimit then Invalid(FromTheFuture)
    else if t.timestamp.value < DistantPast then Invalid(FromTheDistantPast)
    else if t.artist.None? then Invalid(ArtistNameMissing)
    else if |t.title| == 0 then Invalid(TrackNameMissing)
    else if ToLower(t.artist.value) in PlaceholderArtists then Invalid(ArtistInvalid)
    else Valid
  }

  /** The validator's boolean answer. */
  predicate IsValid(t: Track, futureLimit: int)
  {
    Check(t, futureLimit).Valid?
  }

  /**
   * The reason reported is the only one that fits: any rule that is broken
   * and has every earlier rule holding is the reported reason.
   */
  lemma ReasonIsUnique(t: Track, futureLimit: int, rule: Invalidity)
    requires Breaks(t, futureLimit, rule)
    requires forall q: Invalidity :: Precedence(q) < Precedence(rule) ==> !Breaks(t, futureLimit, q)
    ensures Check(t, futureLimit) == Invalid(rule)
  {
  }

  /** Artist names are compared case-insensitively: "Unknown" is rejected like "unknown". */
  lemma PlaceholderArtistRejected(duration: int, timestamp: int, title: string, futureLimit: int)
    requires MinScrobbleLength <= duration
    requires DistantPast <= timestamp <= futureLimit
    requires |title| > 0
    ensures Check(Track(duration, Some(timestamp), Some("Unknown"), title, false), futureLimit)
            == Invalid(ArtistInvalid)
  {
    LowerUnknown();
    assert "unknown" in PlaceholderArtists;
  }

  /** A short track is reported as too short even when it breaks every other rule too. */
  lemma TooShortWins(t: Track, futureLimit: int)
    requires t.duration < MinScrobbleLength
    ensures Check(t, futureLimit) == Invalid(TooShort)
  {
  }
}
