/**
 * Loading the images named on the command line: every path is handed to
 * the image decoder in order, and only the images that decode are kept.
 * The decoder itself is outside the model; it is the parameter `open`,
 * which yields `Some(image)` when decoding succeeds and `None` when it fails.
 */
module Loading {

  datatype Option<T> = None | Some(value: T)

  /** The images the decoder yields for `paths`, in the order of the paths. */
  function Decoded<I>(paths: seq<string>, open: string -> Option<I>): (images: seq<I>)
    ensures |images| <= |paths|
    decreases |paths|
  {
    if |paths| == 0 then []
    else
      var rest := Decoded(paths[..|paths| - 1], open);
      match open(paths[|paths| - 1])
      case Some(image) => rest + [image]
      case None => rest
  }

  /**
   * The positions of the paths that decode, in increasing order: every one
   * of them decodes, and no decodable position is missing.
   */
  function DecodableIndices<I>(paths: seq<string>, open: string -> Option<I>): (ks: seq<nat>)
    ensures forall j :: 0 <= j < |ks| ==> ks[j] < |paths| && open(paths[ks[j]]).Some?
    ensures forall j, j' :: 0 <= j < j' < |ks| ==> ks[j] < ks[j']
    ensures forall i :: 0 <= i < |paths| && open(paths[i]).Some? ==> i in ks
    decreases |paths|
  {
    if |paths| == 0 then []
    else
      var init := paths[..|paths| - 1];
      var rest := DecodableIndices(init, open);
      assert forall j :: 0 <= j < |rest| ==> paths[rest[j]] == init[rest[j]];
      assert forall i :: 0 <= i < |paths| - 1 ==> paths[i] == init[i];
      if open(paths[|paths| - 1]).Some? then rest + [|paths| - 1] else rest
  }

  /**
   * The loaded list is exactly the decodable paths' images, in their original
   * relative order: its `j`-th image is the decoding of the `j`-th decodable path.
   */
  lemma {:induction false} DecodedIsExact<I>(paths: seq<string>, open: string -> Option<I>)
    ensures |Decoded(paths, open)| == |DecodableIndices(paths, open)|
    ensures forall j :: 0 <= j < |Decoded(paths, open)| ==>
      Decoded(paths, open)[j] == open(paths[DecodableIndices(paths, open)[j]]).value
    decreases |paths|
  {
    if |paths| > 0 {
      var init := paths[..|paths| - 1];
      DecodedIsExact(init, open);
      var ks := DecodableIndices(init, open);
      assert forall j :: 0 <= j < |ks| ==> paths[ks[j]] == init[ks[j]];
    }
  }

  /** The loaded list is empty exactly when no path decodes. */
  lemma NothingDecodes<I>(paths: seq<string>, open: string -> Option<I>)
    ensures Decoded(paths, open) == [] <==> forall i :: 0 <= i < |paths| ==> open(paths[i]).None?
  {
    DecodedIsExact(paths, open);
    var ks := DecodableIndices(paths, open);
    if |ks| > 0 {
      assert open(paths[ks[0]]).Some?;
    }
  }

  /** Loading distributes over concatenation of the path list, so it never reorders. */
  lemma {:induction false} DecodedAppend<I>(a: seq<string>, b: seq<string>, open: string -> Option<I>)
    ensures Decoded(a + b, open) == Decoded(a, open) + Decoded(b, open)
    decreases |b|
  {
    if |b| == 0 {
      assert a + b == a;
    } else {
      var b' := b[..|b| - 1];
      assert (a + b)[..|a + b| - 1] == a + b';
      assert (a + b)[|a + b| - 1] == b[|b| - 1];
      DecodedAppend(a, b', open);
    }
  }

  /** A path that does not decode contributes nothing to the loaded list. */
  lemma DecodeFailureDropped<I>(a: seq<string>, p: string, b: seq<string>, open: string -> Option<I>)
    requires open(p).None?
    ensures Decoded(a + [p] + b, open) == Decoded(a, open) + Decoded(b, open)
  {
    DecodedAppend(a + [p], b, open);
    assert (a + [p])[..|a + [p]| - 1] == a;
  }

  /** When every path decodes, the loaded list has one image per path. */
  lemma {:induction false} AllDecode<I>(paths: seq<string>, open: string -> Option<I>)
    requires forall i :: 0 <= i < |paths| ==> open(paths[i]).Some?
    ensures |Decoded(paths, open)| == |paths|
    ensures forall i :: 0 <= i < |paths| ==> Decoded(paths, open)[i] == open(paths[i]).value
    decreases |paths|
  {
    if |paths| > 0 {
      var init := paths[..|paths| - 1];
      AllDecode(init, open);
    }
  }

  /**
   * `load_images`: walks the paths in order and pushes the image of every
   * path that decodes onto the growing list.
   */
  method LoadImages<I>(paths: seq<string>, open: string -> Option<I>) returns (images: seq<I>)
    ensures images == Decoded(paths, open)
  {
    images := [];
    var i := 0;
    while i < |paths|
      invariant 0 <= i <= |paths|
      invariant images == Decoded(paths[..i], open)
    {
      assert paths[..i + 1][..i] == paths[..i];
      if open(paths[i]).Some? {
        images := images + [open(paths[i]).value];
      }
      i := i + 1;
    }
    assert paths[..|paths|] == paths;
  }
}
