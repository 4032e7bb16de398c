/**
 * The cache file, as a document of track elements, and the file system that
 * holds such files. The XML text, its declaration and indentation are not
 * modelled: a file is either a parsed document or content that does not
 * parse. Each track element is assumed to decode back to the track it was
 * encoded from.
 */
module Persistence {
  import opened Tracks

  /** Tag of the root element of a written cache file. */
  const RootTag: string := "submissions"

  /** The format-version attribute of a written cache file. */
  const FormatVersion: string := "2"

  /** A direct child of the document's root: a "track" element, or any node not named "track". */
  datatype Node = TrackElement(track: Track) | OtherNode

  /** A parsed document: the root element's tag, its two attributes and its children in document order. */
  datatype Document = Document(rootTag: string, product: string, version: string, children: seq<Node>)

  /** What a file's content reads as. */
  datatype FileContent = Xml(doc: Document) | Unparseable

  /** The file system: the content of every file that exists, by path. */
  class Disk {
    var files: map<string, FileContent>

    constructor (files: map<string, FileContent>)
      ensures this.files == files
    {
      this.files := files;
    }
  }

  /** The children written for `tracks`: one track element per track, in order. */
  function TrackNodes(tracks: seq<Track>): (r: seq<Node>)
    ensures |r| == |tracks|
    ensures forall i :: 0 <= i < |tracks| ==> r[i] == TrackElement(tracks[i])
  {
    if tracks == [] then [] else TrackNodes(tracks[..|tracks| - 1]) + [TrackElement(tracks[|tracks| - 1])]
  }

  /** The tracks read from `children`: those of the track elements, in document order. */
  function TracksOf(children: seq<Node>): seq<Track>
  {
    if children == [] then []
    else
      var last := children[|children| - 1];
      TracksOf(children[..|children| - 1]) + (if last.TrackElement? then [last.track] else [])
  }

  /** The file system after saving `tracks` to `path`: an empty list deletes the file. */
  function Saved(files: map<string, FileContent>, path: string, product: string, tracks: seq<Track>)
    : map<string, FileContent>
  {
    if tracks == [] then files - {path}
    else files[path := Xml(Document(RootTag, product, FormatVersion, TrackNodes(tracks)))]
  }

  /** The track list loaded from `path`: empty when the file is missing or does not parse. */
  function Loaded(files: map<string, FileContent>, path: string): seq<Track>
  {
    if path in files && files[path].Xml? then TracksOf(files[path].doc.children) else []
  }

  /** Reading never invents tracks: a track is read exactly when a track element holds it. */
  lemma {:induction false} TracksOfMembers(children: seq<Node>, t: Track)
    ensures t in TracksOf(children) <==> TrackElement(t) in children
  {
    if children != [] {
      var init := children[..|children| - 1];
      TracksOfMembers(init, t);
      assert children == init + [children[|children| - 1]];
    }
  }

  /** Reading distributes over concatenated children. */
  lemma {:induction false} TracksOfConcat(a: seq<Node>, b: seq<Node>)
    ensures TracksOf(a + b) == TracksOf(a) + TracksOf(b)
  {
    if b != [] {
      var init := b[..|b| - 1];
      TracksOfConcat(a, init);
      assert (a + b)[..|a + b| - 1] == a + init;
    } else {
      assert a + b == a;
    }
  }

  /** Decoding the written children gives back the tracks, in order. */
  lemma {:induction false} TracksOfTrackNodes(tracks: seq<Track>)
    ensures TracksOf(TrackNodes(tracks)) == tracks
  {
    if tracks != [] {
      var init := tracks[..|tracks| - 1];
      TracksOfTrackNodes(init);
      var nodes := TrackNodes(tracks);
      assert nodes[..|nodes| - 1] == TrackNodes(init);
    }
  }

  /** After a save the file exists exactly when the list is non-empty; no other file changes. */
  lemma SavedFileExistsIffNonEmpty(files: map<string, FileContent>, path: string, product: string, tracks: seq<Track>)
    ensures path in Saved(files, path, product, tracks) <==> tracks != []
    ensures forall p :: p != path ==>
      (p in Saved(files, path, product, tracks) <==> p in files) &&
      (p in files ==> Saved(files, path, product, tracks)[p] == files[p])
  {
  }

  /** A written file is a "submissions" document of version "2" whose children are the tracks in order. */
  lemma SavedDocument(files: map<string, FileContent>, path: string, product: string, tracks: seq<Track>)
    requires tracks != []
    ensures path in Saved(files, path, product, tracks)
    ensures Saved(files, path, product, tracks)[path].Xml?
    ensures var doc := Saved(files, path, product, tracks)[path].doc;
      doc.rootTag == RootTag && doc.version == FormatVersion && doc.product == product &&
      |doc.children| == |tracks| &&
      forall i :: 0 <= i < |tracks| ==> doc.children[i] == TrackElement(tracks[i])
  {
  }

  /** Loading after saving restores the same sequence, whether or not it is empty. */
  lemma LoadAfterSave(files: map<string, FileContent>, path: string, product: string, tracks: seq<Track>)
    ensures Loaded(Saved(files, path, product, tracks), path) == tracks
  {
    if tracks != [] {
      TracksOfTrackNodes(tracks);
    }
  }
}
