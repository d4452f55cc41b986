/** The path an image is uploaded under: the document's id, the images
    directory, and the image's LaTeX path flattened into one name by
    turning every `/` into `__`. */
module StoragePaths {
  import opened Text

  const StoragePathDelimiter := "__"
  const ImagesDirectory := "/images/"

  /** `image_path.replace("/", "__")`. With a one-character pattern,
      Python's `replace` substitutes character by character. The result
      holds no `/`: the image lands directly in the images directory. */
  function FlatName(imagePath: string): (r: string)
    ensures Lacks(r, '/')
    decreases |imagePath|
  {
    if imagePath == [] then []
    else
      var head := if imagePath[0] == '/' then StoragePathDelimiter else [imagePath[0]];
      var rest := FlatName(imagePath[1..]);
      assert forall i :: |head| <= i < |head + rest| ==> (head + rest)[i] == rest[i - |head|];
      head + rest
  }

  /** The path an image is uploaded under: the file's id, `/images/`, and
      the flattened LaTeX path. */
  function StoragePath(fileId: string, imagePath: string): (r: string)
    ensures StartsWith(r, fileId + ImagesDirectory)
    ensures Lacks(r[|fileId| + |ImagesDirectory|..], '/')
  {
    var flat := FlatName(imagePath);
    assert (fileId + ImagesDirectory + flat)[|fileId| + |ImagesDirectory|..] == flat;
    fileId + ImagesDirectory + flat
  }

  /** `s.replace("__", "/")`: left to right, each `__` not overlapping an
      earlier one becomes `/`. It undoes the flattening. */
  function Unflatten(s: string): string
    decreases |s|
  {
    if |s| >= 2 && s[0] == '_' && s[1] == '_' then "/" + Unflatten(s[2..])
    else if s == [] then []
    else [s[0]] + Unflatten(s[1..])
  }

  /** A path without `_` is recovered from its flattened name by turning
      every `__` back into `/`. */
  lemma {:induction false} FlattenRoundTrip(imagePath: string)
    requires Lacks(imagePath, '_')
    ensures Unflatten(FlatName(imagePath)) == imagePath
    decreases |imagePath|
  {
    var p := imagePath;
    if p != [] {
      var tail := p[1..];
      assert Lacks(tail, '_') by {
        forall i | 0 <= i < |tail| ensures tail[i] != '_' {
          assert tail[i] == p[i + 1];
        }
      }
      FlattenRoundTrip(tail);
      var rest := FlatName(tail);
      if p[0] == '/' {
        assert FlatName(p) == StoragePathDelimiter + rest;
        assert (StoragePathDelimiter + rest)[2..] == rest;
      } else {
        assert FlatName(p) == [p[0]] + rest;
        assert ([p[0]] + rest)[1..] == rest;
      }
      assert p == [p[0]] + tail;
    }
  }

  /** Paths without `_` get distinct storage paths. */
  lemma {:induction false} StoragePathInjective(fileId: string, a: string, b: string)
    requires Lacks(a, '_') && Lacks(b, '_')
    requires StoragePath(fileId, a) == StoragePath(fileId, b)
    ensures a == b
  {
    var n := |fileId| + |ImagesDirectory|;
    assert FlatName(a) == StoragePath(fileId, a)[n..];
    assert FlatName(b) == StoragePath(fileId, b)[n..];
    FlattenRoundTrip(a);
    FlattenRoundTrip(b);
  }

  /** With `_` allowed the flattening is not injective: `a/b` and `a__b`
      are stored under the same path. */
  lemma {:induction false} StoragePathsCollide(fileId: string)
    ensures StoragePath(fileId, "a/b") == StoragePath(fileId, "a__b")
  {
    assert FlatName("b") == "b";
    assert FlatName("a/b") == "a" + FlatName("/b");
    assert FlatName("_b") == "_b";
    assert FlatName("__b") == "__b";
    assert FlatName("a__b") == "a" + FlatName("__b");
  }
}
