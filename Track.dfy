/**
 * The play record that the scrobble cache stores, reduced to the attributes
 * that the cache reads, and the ASCII lower-casing that the validator applies
 * to artist names.
 */
module Tracks {

  datatype Option<T> = None | Some(value: T)

  /**
   * One track play.
   *   duration  - length of the track in seconds
   *   timestamp - when it was played, in seconds since the epoch; None is an
   *               invalid (unset) date-time
   *   artist    - the artist's name; None is a null artist
   *   title     - the track's title, possibly empty
   *   isNull    - the track is the empty/null sentinel
   * Equality of tracks is value equality of these fields.
   */
  datatype Track = Track(
    duration: int,
    timestamp: Option<int>,
    artist: Option<string>,
    title: string,
    isNull: bool)

  predicate IsUpper(c: char)
  {
    'A' <= c <= 'Z'
  }

  /** Lower-cases one character; only the ASCII letters A-Z change. */
  function LowerChar(c: char): (r: char)
    ensures !IsUpper(r)
    ensures IsUpper(c) ==> 'a' <= r <= 'z' && r as int - c as int == 'a' as int - 'A' as int
    ensures !IsUpper(c) ==> r == c
  {
    if IsUpper(c) then (c as int - 'A' as int + 'a' as int) as char else c
  }

  /** Lower-cases a string character by character. */
  function ToLower(s: string): (r: string)
    ensures |r| == |s|
    ensures forall i :: 0 <= i < |s| ==> r[i] == LowerChar(s[i])
  {
    if s == [] then [] else [LowerChar(s[0])] + ToLower(s[1..])
  }

  /** Lower-casing twice is lower-casing once. */
  lemma ToLowerIdempotent(s: string)
    ensures ToLower(ToLower(s)) == ToLower(s)
  {
  }

  /** A string without upper-case letters is its own lower-case form, and only such a string. */
  lemma ToLowerFixedPoint(s: string)
    ensures ToLower(s) == s <==> forall i :: 0 <= i < |s| ==> !IsUpper(s[i])
  {
    if ToLower(s) == s {
      forall i | 0 <= i < |s| ensures !IsUpper(s[i]) {
        assert s[i] == ToLower(s)[i] == LowerChar(s[i]);
      }
    }
  }

  /** A worked instance: the placeholder name as a tagger might capitalise it. */
  lemma LowerUnknown()
    ensures ToLower("Unknown") == "unknown"
  {
    assert LowerChar('U') == 'u';
  }
}
