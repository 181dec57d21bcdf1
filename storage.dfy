/**
 * Where the photo pipeline stores its annotated image: a file named after a
 * fresh identifier (the hex form of a random UUID) inside the results
 * directory.  The identifier is a parameter; only its distinctness matters.
 */
module Storage {
  import opened Wrappers

  const AnalyzedPhotosDir: string := "analyzed_photos"
  const PhotoNamePrefix: string := "analyzed_photo_"
  const PhotoNameSuffix: string := ".jpg"

  /** Two-argument `os.path.join` with POSIX separators. */
  function Join(dir: string, name: string): string
  {
    if |name| > 0 && name[0] == '/' then name
    else if dir == [] || dir[|dir| - 1] == '/' then dir + name
    else dir + "/" + name
  }

  /** The file name of the stored image for identifier `id`. */
  function PhotoFileName(id: string): (f: string)
    ensures |f| == |PhotoNamePrefix| + |id| + |PhotoNameSuffix|
    ensures f[0] == 'a'
  {
    PhotoNamePrefix + id + PhotoNameSuffix
  }

  /** The path the annotated photo is written to and sent back from. */
  function PhotoPath(id: string): (p: string)
    ensures p == AnalyzedPhotosDir + "/" + PhotoFileName(id)
  {
    Join(AnalyzedPhotosDir, PhotoFileName(id))
  }

  /** The part of a path that `PhotoPath` puts in front of the identifier. */
  function PathHead(): string
  {
    AnalyzedPhotosDir + "/" + PhotoNamePrefix
  }

  /** Recovers the identifier from a stored photo's path; None for any other path. */
  function PhotoIdOf(path: string): (r: Option<string>)
    ensures r.Some? ==> |path| == |PathHead()| + |r.value| + |PhotoNameSuffix|
  {
    var h, s := PathHead(), PhotoNameSuffix;
    if |path| >= |h| + |s| && path[..|h|] == h && path[|path| - |s|..] == s
    then Some(path[|h|..|path| - |s|])
    else None
  }

  /** Reading the identifier back from the path gives the identifier the path was built from. */
  lemma PhotoPathRoundTrip(id: string)
    ensures PhotoIdOf(PhotoPath(id)) == Some(id)
  {
    var p, h, s := PhotoPath(id), PathHead(), PhotoNameSuffix;
    assert p == h + id + s;
    assert p[..|h|] == h;
    assert p[|p| - |s|..] == s;
    assert p[|h|..|p| - |s|] == id;
  }

  /** Every path the inverse accepts is the path of the identifier it returns. */
  lemma PhotoIdOfSound(path: string)
    requires PhotoIdOf(path).Some?
    ensures PhotoPath(PhotoIdOf(path).value) == path
  {
  }

  /** Distinct identifiers give distinct paths, so no stored photo is overwritten. */
  lemma PhotoPathInjective(id1: string, id2: string)
    ensures PhotoPath(id1) == PhotoPath(id2) ==> id1 == id2
  {
    PhotoPathRoundTrip(id1);
    PhotoPathRoundTrip(id2);
  }

  /** A run of analyses with pairwise distinct identifiers writes pairwise distinct files. */
  lemma PhotoPathsDistinct(ids: seq<string>)
    requires forall i, j :: 0 <= i < j < |ids| ==> ids[i] != ids[j]
    ensures forall i, j :: 0 <= i < j < |ids| ==> PhotoPath(ids[i]) != PhotoPath(ids[j])
  {
    forall i, j | 0 <= i < j < |ids|
      ensures PhotoPath(ids[i]) != PhotoPath(ids[j])
    {
      PhotoPathInjective(ids[i], ids[j]);
    }
  }
}
