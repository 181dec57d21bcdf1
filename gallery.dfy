/**
 * The `/photo_list` endpoint: every file of the results directory except the
 * macOS `.DS_Store` artifact, read in full and returned as an inline JPEG data
 * URI, in directory-listing order.  The directory listed is `PhotosDir`, the
 * same directory the photo pipeline writes into (`Storage.AnalyzedPhotosDir`).
 * It is given as its listing (the order `os.listdir` reports, which the
 * handler keeps as it is), or as None when the directory does not exist yet:
 * only the photo pipeline creates it, so before the first photo analysis the
 * listing fails.  The Base64 encoder of section 4 of RFC 4648 is a parameter
 * whose workings are not modelled.
 */
module Gallery {
  import opened Wrappers
  import Storage

  newtype byte = b: int | 0 <= b < 256

  /** One directory entry: its name and the bytes the file holds. */
  datatype Entry = Entry(name: string, contents: seq<byte>)

  /** The listing fails: the results directory has not been created yet. */
  datatype ListingError = DirectoryMissing

  /** The directory the endpoint lists: the one the photo pipeline stores into. */
  const PhotosDir: string := Storage.AnalyzedPhotosDir

  const SystemArtifact: string := ".DS_Store"
  const DataUriPrefix: string := "data:image/jpeg;base64,"

  /** The entries the listing keeps: all but those named exactly `.DS_Store`, in listing order. */
  function Listed(dir: seq<Entry>): (r: seq<Entry>)
    ensures |r| <= |dir|
    ensures forall e :: e in r <==> e in dir && e.name != SystemArtifact
  {
    if dir == [] then []
    else
      var last := dir[|dir| - 1];
      assert dir == dir[..|dir| - 1] + [last];
      Listed(dir[..|dir| - 1]) + (if last.name != SystemArtifact then [last] else [])
  }

  /** The inline form of one stored image. */
  function DataUri(contents: seq<byte>, enc: seq<byte> -> string): string
  {
    DataUriPrefix + enc(contents)
  }

  /** Each kept entry rendered as a data URI, position by position. */
  function Render(entries: seq<Entry>, enc: seq<byte> -> string): (r: seq<string>)
  {
    seq(|entries|, k requires 0 <= k < |entries| => DataUri(entries[k].contents, enc))
  }

  /** The JSON array the endpoint returns for a directory listing. */
  function PhotoData(dir: seq<Entry>, enc: seq<byte> -> string): seq<string>
  {
    Render(Listed(dir), enc)
  }

  /** The indices of the listing the endpoint keeps. */
  function VisibleIndices(dir: seq<Entry>): set<int>
  {
    set i | 0 <= i < |dir| && dir[i].name != SystemArtifact
  }

  /**
   * The handler: list `PhotosDir` (None when it does not exist, where
   * `os.listdir` raises), then walk the listing, skip `.DS_Store` and append
   * the data URI of every other file.
   */
  method GetPhotoList(listing: Option<seq<Entry>>, enc: seq<byte> -> string)
    returns (r: Result<seq<string>, ListingError>)
    ensures r.Err? <==> listing.None?
    ensures listing.Some? ==>
              r == Ok(PhotoData(listing.value, enc)) &&
              |r.value| == |VisibleIndices(listing.value)| &&
              forall k :: 0 <= k < |r.value| ==> DataUriPrefix <= r.value[k]
  {
    if listing.None? {
      return Err(DirectoryMissing);
    }
    var dir := listing.value;
    var photos := [];
    for i := 0 to |dir|
      invariant photos == PhotoData(dir[..i], enc)
    {
      PhotoDataSnoc(dir[..i + 1], enc);
      assert dir[..i + 1][..i] == dir[..i];
      if dir[i].name != SystemArtifact {
        photos := photos + [DataUriPrefix + enc(dir[i].contents)];
      }
    }
    assert dir[..|dir|] == dir;
    ListedCount(dir);
    PhotoDataPrefix(dir, enc);
    return Ok(photos);
  }

  /** One more listing entry adds its data URI at the end, unless it is `.DS_Store`. */
  lemma PhotoDataSnoc(dir: seq<Entry>, enc: seq<byte> -> string)
    requires dir != []
    ensures var last := dir[|dir| - 1];
            PhotoData(dir, enc) ==
            PhotoData(dir[..|dir| - 1], enc) + (if last.name != SystemArtifact then [DataUri(last.contents, enc)] else [])
  {
  }

  /** Every element of the returned array starts with the JPEG data-URI prefix. */
  lemma PhotoDataPrefix(dir: seq<Entry>, enc: seq<byte> -> string)
    ensures forall k :: 0 <= k < |PhotoData(dir, enc)| ==> DataUriPrefix <= PhotoData(dir, enc)[k]
  {
  }

  /** Filtering a listing split in two is filtering each half: the kept entries stay in listing order. */
  lemma {:induction false} ListedAppend(a: seq<Entry>, b: seq<Entry>)
    ensures Listed(a + b) == Listed(a) + Listed(b)
  {
    if b == [] {
      assert a + b == a;
    } else {
      var b' := b[..|b| - 1];
      assert (a + b)[..|a + b| - 1] == a + b';
      ListedAppend(a, b');
    }
  }

  /** The listing keeps exactly one entry per directory entry not named `.DS_Store`. */
  lemma {:induction false} ListedCount(dir: seq<Entry>)
    ensures |Listed(dir)| == |VisibleIndices(dir)|
  {
    if dir != [] {
      var n := |dir| - 1;
      ListedCount(dir[..n]);
      VisibleIndicesSnoc(dir);
    }
  }

  /** Extending a listing by one entry adds that entry's index when it is kept. */
  lemma VisibleIndicesSnoc(dir: seq<Entry>)
    requires dir != []
    ensures VisibleIndices(dir) ==
            VisibleIndices(dir[..|dir| - 1]) + (if dir[|dir| - 1].name != SystemArtifact then {|dir| - 1} else {})
    ensures |dir| - 1 !in VisibleIndices(dir[..|dir| - 1])
  {
  }

  /**
   * A photo stored by the photo pipeline, whatever its bytes, shows up in the
   * gallery: `dir` is the listing of `PhotosDir`, the directory `Storage.PhotoPath`
   * writes into, and the stored file's name is never `.DS_Store`.
   */
  lemma StoredPhotoIsListed(dir: seq<Entry>, id: string, contents: seq<byte>, enc: seq<byte> -> string)
    requires Entry(Storage.PhotoFileName(id), contents) in dir
    ensures DataUri(contents, enc) in PhotoData(dir, enc)
  {
    var e := Entry(Storage.PhotoFileName(id), contents);
    assert e.name != SystemArtifact by {
      assert e.name[0] != SystemArtifact[0];
    }
    var k :| 0 <= k < |Listed(dir)| && Listed(dir)[k] == e;
    assert PhotoData(dir, enc)[k] == DataUri(contents, enc);
  }
}
