/**
 * The viewer's `main`: load the images named on the command line, then run
 * the event loop that shows one of them per frame. Window creation, frame
 * pacing and the drawing itself are outside the model; a frame is modelled
 * by the image it shows.
 */
module Viewer {
  import opened Navigation
  import opened Loading

  /**
   * One session of the viewer: `paths` are the command-line files, `open` the
   * decoder and `ticks` the arrow-key states of the frames the loop ran
   * before the window closed or Escape was held. Given that the window
   * opened, it panics exactly when no path decodes and at least one frame runs; otherwise every frame shows
   * the decoding of some path that decodes, the one the cursor selects.
   */
  method Session<I>(paths: seq<string>, open: string -> Option<I>, ticks: seq<Keys>)
    returns (frames: seq<I>, panicked: bool)
    ensures panicked <==> 0 < |ticks| && Decoded(paths, open) == []
    ensures panicked <==> 0 < |ticks| && forall i :: 0 <= i < |paths| ==> open(paths[i]).None?
    ensures !panicked ==> |frames| == |ticks|
    ensures !panicked ==> forall t :: 0 <= t < |ticks| ==>
      exists i :: 0 <= i < |paths| && open(paths[i]) == Some(frames[t])
    ensures !panicked ==> forall t :: 0 <= t < |ticks| ==>
      frames[t] == Decoded(paths, open)[Run(0, |Decoded(paths, open)|, ticks[..t + 1])]
  {
    var images := LoadImages(paths, open);
    DecodedIsExact(paths, open);
    var ks := DecodableIndices(paths, open);
    NothingDecodes(paths, open);
    frames, panicked := EventLoop(images, ticks);
    if !panicked {
      forall t | 0 <= t < |ticks|
        ensures exists i :: 0 <= i < |paths| && open(paths[i]) == Some(frames[t])
      {
        var k := Run(0, |images|, ticks[..t + 1]);
        assert open(paths[ks[k]]) == Some(frames[t]);
      }
    }
  }
}
