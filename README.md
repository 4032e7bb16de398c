# Scrobble cache model

A Dafny model of liblastfm's scrobble cache (`src/ScrobbleCache.cpp`): a
per-user queue of track plays that wait to be submitted to Last.fm, kept in
memory as an ordered list and saved to the user's cache file after every
change.

- `Track.dfy` (module `Tracks`): the play record as the cache reads it, and
  ASCII lower-casing.
- `Validator.dfy` (module `Validator`): `isValid` as the classifier `Check`,
  which returns `Valid` or exactly one `Invalidity`. It is specified against
  an independent per-rule predicate `Breaks` and the rule order `Precedence`.
- `Persistence.dfy` (module `Persistence`): the cache file as a parsed
  document of child nodes, the file system as a `Disk` object mapping paths
  to file contents, and the specification functions `Saved` (what `write`
  leaves on disk) and `Loaded` (what `read` gets back).
- `ScrobbleCache.dfy` (module `Cache`): the class `ScrobbleCache` with the
  fields `username`, `path` and `tracks`. `Read`, `Write`, `Add` and `Remove`
  are loops proved against the specification functions `Loaded`, `Saved`,
  `Accepted` and `Survivors`. Lemmas about those functions state what the
  source promises.
- `Scenario.dfy` (module `Scenario`): a first session for user "alice",
  derived from the operations' contracts alone.

The process-wide file system, the runtime-data directory, the application
name and the current time are parameters: a `Disk` object, `runtimeDir`,
`product` and `futureLimit` (the current time plus one month).

`remove` erases through a `QMutableListIterator` and calls `remove()` once
for every target that matches. A second `remove()` at the same position
erases nothing. So each stored track is dropped at most once, and `Remove`
models that with an `erased` flag. Its result is the number of tracks that
REMAIN, as the source's comment says.

The enumeration declares the `Invalidity` values in one order (TooShort,
ArtistNameMissing, TrackNameMissing, ArtistInvalid, NoTimestamp,
FromTheFuture, FromTheDistantPast). The rules are checked in another order
(TooShort, NoTimestamp, FromTheFuture, FromTheDistantPast, ArtistNameMissing,
TrackNameMissing, ArtistInvalid). The model keeps both: `Invalidity` follows
the declaration and `Precedence` follows the checking order.

## Model

| member | source | states |
|---|---|---|
| Tracks.LowerChar | src/ScrobbleCache.cpp:83 | the result is never an upper-case ASCII letter; A-Z map to a-z, every other character is unchanged |
| Tracks.ToLower | src/ScrobbleCache.cpp:83 | lower-casing keeps the length and lower-cases each character in place |
| Tracks.ToLowerIdempotent | src/ScrobbleCache.cpp:83 | lower-casing an already lower-cased name changes nothing |
| Tracks.ToLowerFixedPoint | src/ScrobbleCache.cpp:83 | a name is its own lower-case form exactly when it has no upper-case letter |
| Tracks.LowerUnknown | src/ScrobbleCache.cpp:80-83 | "Unknown" lower-cases to the placeholder "unknown" |
| Validator.Check | src/ScrobbleCache.cpp:56-87 | Valid means no rule is broken; an Invalid verdict names a broken rule, and every rule tried before it holds |
| Validator.ReasonIsUnique | src/ScrobbleCache.cpp:59-86 | a broken rule whose earlier rules all hold is exactly the reported reason (first failing rule wins) |
| Validator.PlaceholderArtistRejected | src/ScrobbleCache.cpp:80-84 | a track passing the earlier rules whose artist is "Unknown" is rejected as ArtistInvalid: the comparison ignores case |
| Validator.TooShortWins | src/ScrobbleCache.cpp:65 | a too-short track is reported TooShort whatever else is wrong with it |
| Persistence.TrackNodes | src/ScrobbleCache.cpp:156-157 | write emits one track element per track, at the same position |
| Persistence.TracksOfMembers | src/ScrobbleCache.cpp:137-139 | read yields a track exactly when the document has a track element holding it |
| Persistence.TracksOfConcat | src/ScrobbleCache.cpp:137-139 | read keeps document order: reading concatenated children concatenates the results |
| Persistence.TracksOfTrackNodes | src/ScrobbleCache.cpp:137-139 | reading the children that write emits gives back the tracks, in order |
| Persistence.SavedFileExistsIffNonEmpty | src/ScrobbleCache.cpp:146-149 | after a save the cache file exists exactly when the list is non-empty, and no other file changes |
| Persistence.SavedDocument | src/ScrobbleCache.cpp:150-159 | a non-empty save writes a "submissions" document with the product, version "2" and the tracks in order |
| Persistence.LoadAfterSave | src/ScrobbleCache.cpp:125-170 | loading after saving restores the same sequence, empty or not |
| Cache.FilePath | src/ScrobbleCache.cpp:95 | the cache path ends with the file name preceded by a '/'; the directory's own trailing '/' is reused, otherwise exactly one '/' is inserted |
| Cache.AcceptedConcat | src/ScrobbleCache.cpp:176-188 | add keeps input order: filtering a split batch is the concatenation of filtering its parts |
| Cache.AcceptedMembers | src/ScrobbleCache.cpp:176-188 | a track is stored by add exactly when it is a candidate that is valid and not null |
| Cache.AcceptedAll | src/ScrobbleCache.cpp:176-188 | a batch of valid, non-null tracks is stored whole, in order |
| Cache.AcceptedNone | src/ScrobbleCache.cpp:176-188 | a batch with no valid, non-null track stores nothing |
| Cache.SurvivorsMembers | src/ScrobbleCache.cpp:197-203 | a stored track survives remove exactly when it equals no target |
| Cache.SurvivorsNoMatch | src/ScrobbleCache.cpp:197-203 | when no stored track is a target, remove leaves the list unchanged |
| Cache.SurvivorsAndDropped | src/ScrobbleCache.cpp:197-203 | survivors and dropped tracks together are the stored list as a multiset: nothing is dropped twice or lost |
| Cache.DroppedAreTargets | src/ScrobbleCache.cpp:200-202 | every dropped track was stored and equals a target |
| Cache.SurvivorsSameTargets | src/ScrobbleCache.cpp:200-202 | only which tracks are targets matters, so repeating a target changes nothing |
| Cache.SurvivorsIdempotent | src/ScrobbleCache.cpp:197-203 | removing the same targets twice equals removing them once |
| Cache.RemainingIsNotRemoved | src/ScrobbleCache.cpp:207-209 | removing one of three distinct tracks, named twice, leaves two and drops one: the count returned differs from the count removed |
| Cache.ScrobbleCache.constructor | src/ScrobbleCache.cpp:90-100 | needs a non-empty username; the path is the runtime directory joined with username + "_subs_cache.xml"; the list is what the file holds |
| Cache.ScrobbleCache.Copy | src/ScrobbleCache.cpp:103-106 | a copy has the source's username, path and tracks |
| Cache.ScrobbleCache.Assign | src/ScrobbleCache.cpp:109-116 | assignment sets username, path and tracks to the source's |
| Cache.ScrobbleCache.Read | src/ScrobbleCache.cpp:125-140 | the list becomes the tracks of the file in document order, or empty when the file is missing or does not parse |
| Cache.ScrobbleCache.Write | src/ScrobbleCache.cpp:143-170 | the file system becomes Saved: the file deleted for an empty list, otherwise replaced by a document of all the tracks in order |
| Cache.ScrobbleCache.Add | src/ScrobbleCache.cpp:173-191 | the list becomes the old list followed by the valid, non-null candidates in input order, then it is saved once |
| Cache.ScrobbleCache.Remove | src/ScrobbleCache.cpp:194-210 | the list loses every track equal to a target, survivors keep their order, it is saved once, and the result is the number remaining |
| Cache.ScrobbleCache.EraseIfTarget | src/ScrobbleCache.cpp:199-202 | the track at the iterator's position is erased exactly when it equals some target, and at most once; nothing else in the list changes |
| Cache.ScrobbleCache.Tracks | src/ScrobbleCache.cpp:213-217 | returns the current list and changes nothing |
| Cache.ScrobbleCache.Path | src/ScrobbleCache.cpp:220-224 | returns the path and changes nothing |
| Cache.ScrobbleCache.Username | src/ScrobbleCache.cpp:227-231 | returns the username and changes nothing |
| Scenario.BatchVerdicts | src/ScrobbleCache.cpp:65-86 | two titled plays pass the validator and an untitled play is rejected as TrackNameMissing |
| Scenario.BatchAccepted | src/ScrobbleCache.cpp:176-188 | add keeps [A, B] of the batch [A, untitled, B] |
| Scenario.TwoOfThree | src/ScrobbleCache.cpp:176-188 | an invalid track between two accepted ones is skipped and the two keep their order |
| Scenario.RemoveBoth | src/ScrobbleCache.cpp:197-203 | removing both stored tracks, in the other order, leaves nothing |
| Scenario.FirstSession | src/ScrobbleCache.cpp:90-210 | a new user's cache opens empty at ".../alice_subs_cache.xml"; adding [a, untitled, b] stores and writes [a, b] with version "2"; a fresh cache reloads [a, b]; removing both returns 0, deletes the file, and a fresh cache loads nothing |

## Left out

- XML text: the declaration, the UTF-8 codec and the two-space indentation are not modelled. A file is a parsed `Document` or `Unparseable`.
- The track serialiser (`Track(QDomElement)`, `Track::toDomElement`) is not part of this model. A track element carries its track, so the two are taken to round-trip.
- Children of the root with a tag other than "track" are modelled as `OtherNode`, which carries nothing; every node named "track" is a `TrackElement`.
- Persistence.Saved: the model assumes every write and every delete succeeds. Write failures (open failing, disk full) are not modelled; the source does not check for them.
- Cache.ScrobbleCache.Read: a file that exists but cannot be opened is treated as unparseable, so it gives an empty list as the source does.
- `QCoreApplication::applicationName()` is the `product` parameter.
- `lastfm::dir::runtimeData()` is the `runtimeDir` parameter.
- Cache.FilePath: only joins with one '/' and does no further normalisation of the directory path. Qt returns an absolute file name unchanged, so a username starting with '/' would place the file outside the runtime directory; the model still prefixes the directory. Qt never has an empty directory path (it uses "."), while the model gives "/" + name for an empty one.
- `QDateTime::currentDateTime().addMonths(1)` is the integer `futureLimit`, because calendar arithmetic is not modelled.
- Validator.DistantPast: the floor is 2003-01-01 00:00 UTC. The source parses the date in local time, so the floor moves with the time zone, and the model does not capture that.
- Cache.ScrobbleCache.Add: one `futureLimit` judges the whole batch. The source reads the clock inside `isValid`, once per candidate, so its limit can move during a batch.
- Validator.MinScrobbleLength: `ScrobblePoint.h` is not part of this model. The value 31 is taken for `kScrobbleMinLength`.
- Tracks.LowerChar: maps only the ASCII letters A-Z; Qt also lower-cases non-ASCII capitals such as 'Ä'.
- Tracks.ToLower: lower-cases ASCII letters only. Qt lower-cases Unicode, but the placeholder names are ASCII. A name whose non-ASCII upper-case letters lower-case to one of the placeholders is not covered.
- Track equality is value equality of the modelled fields. `Track::operator==` is not part of this model.
- An artist counts as missing when its name is `None`. `Artist::isNull` is not part of this model.
- The reasons logged with `qWarning` and the null-track notice logged with `qDebug` are diagnostics only. `Add` computes the verdict but does not report it.
- The `Q_ASSERT` on the username is the constructor's `requires`. Release builds of the source skip this check.
- The pimpl allocation, the destructor and memory ownership have no behaviour to model.
- Concurrent access to one cache file by several processes is not modelled.
