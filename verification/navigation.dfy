/**
 * The cursor of the image viewer: an index `pos` into the list of loaded
 * images, moved by the Left and Right arrow keys once per frame of the
 * event loop, with wrap-around at both ends.
 */
module Navigation {

  /** The two arrow keys as sampled in one frame ("pressed, no repeat"). */
  datatype Keys = Keys(left: bool, right: bool)

  const LEFT_PRESS := Keys(true, false)
  const RIGHT_PRESS := Keys(false, true)
  const NO_PRESS := Keys(false, false)

  /**
   * The signed move one frame asks for: Left is tested first, so it wins
   * when both keys are pressed in the same frame.
   */
  function Offset(keys: Keys): int
  {
    if keys.left then -1 else if keys.right then 1 else 0
  }

  /**
   * One frame of the cursor update, branch by branch as the event loop
   * writes it. An empty list makes `len - 1` underflow, so `len > 0` is
   * demanded of the caller (the event loop below models that panic).
   * Inside the bounds the step is the modular move `(pos + Offset) mod len`.
   */
  function Step(pos: nat, len: nat, keys: Keys): (r: nat)
    requires 0 < len
    ensures pos < len ==> r < len
    ensures pos < len ==> r == (pos + Offset(keys)) % len
  {
    if keys.left then
      if pos != 0 then pos - 1 else len - 1
    else if keys.right then
      if pos != len - 1 then pos + 1 else 0
    else
      pos
  }

  /** The cursor after a run of frames, starting from `pos`. */
  function Run(pos: nat, len: nat, ticks: seq<Keys>): (r: nat)
    requires 0 < len
    ensures pos < len ==> r < len
    decreases |ticks|
  {
    if |ticks| == 0 then pos
    else Step(Run(pos, len, ticks[..|ticks| - 1]), len, ticks[|ticks| - 1])
  }

  /** The net number of places a run of frames asks to move. */
  function NetOffset(ticks: seq<Keys>): int
    decreases |ticks|
  {
    if |ticks| == 0 then 0
    else NetOffset(ticks[..|ticks| - 1]) + Offset(ticks[|ticks| - 1])
  }

  /** Right at the last index wraps to 0; anywhere else it moves exactly one place on. */
  lemma RightMove(pos: nat, len: nat)
    requires pos < len
    ensures pos == len - 1 ==> Step(pos, len, RIGHT_PRESS) == 0
    ensures pos < len - 1 ==> Step(pos, len, RIGHT_PRESS) == pos + 1
  {
  }

  /** Left at index 0 wraps to the last index; anywhere else it moves exactly one place back. */
  lemma LeftMove(pos: nat, len: nat)
    requires pos < len
    ensures pos == 0 ==> Step(pos, len, LEFT_PRESS) == len - 1
    ensures 0 < pos ==> Step(pos, len, LEFT_PRESS) == pos - 1
  {
  }

  /**
   * Left has priority: a frame with both keys pressed moves exactly as a
   * frame with only Left, and a frame with neither leaves the cursor alone.
   */
  lemma KeyPriority(pos: nat, len: nat, keys: Keys)
    requires 0 < len
    ensures keys.left ==> Step(pos, len, keys) == Step(pos, len, LEFT_PRESS)
    ensures !keys.left && keys.right ==> Step(pos, len, keys) == Step(pos, len, RIGHT_PRESS)
    ensures !keys.left && !keys.right ==> Step(pos, len, keys) == pos
  {
  }

  /** Left and Right undo each other, in either order, including across the wrap. */
  lemma LeftRightInverse(pos: nat, len: nat)
    requires pos < len
    ensures Step(Step(pos, len, LEFT_PRESS), len, RIGHT_PRESS) == pos
    ensures Step(Step(pos, len, RIGHT_PRESS), len, LEFT_PRESS) == pos
  {
  }

  /** A positive multiple of a positive number is at least that number. */
  lemma MulMono(d: int, n: int)
    requires 1 <= d && 0 < n
    ensures n <= d * n
  {
  }

  /** Euclidean remainders are unique: `x == q * n + r` with `0 <= r < n` fixes `x % n == r`. */
  lemma ModUnique(x: int, n: int, q: int, r: int)
    requires 0 < n && 0 <= r < n && x == q * n + r
    ensures x % n == r
  {
    var q2 := x / n;
    var r2 := x % n;
    assert x == q2 * n + r2;
    assert (q - q2) * n == r2 - r;
    if q > q2 {
      MulMono(q - q2, n);
    } else if q < q2 {
      MulMono(q2 - q, n);
    }
  }

  /** `(a mod n + d) mod n == (a + d) mod n`, for Dafny's Euclidean `%`. */
  lemma ModShift(a: int, d: int, n: int)
    requires 0 < n
    ensures (a % n + d) % n == (a + d) % n
  {
    var q := a / n;
    var r := a % n;
    assert a == q * n + r;
    var s := (r + d) % n;
    var t := (r + d) / n;
    assert r + d == t * n + s;
    assert a + d == (q + t) * n + s;
    ModUnique(a + d, n, q + t, s);
  }

  /**
   * A run of frames from an in-bounds cursor lands where the modular sum of
   * its moves says.
   */
  lemma {:induction false} RunIsNetOffset(pos: nat, len: nat, ticks: seq<Keys>)
    requires pos < len
    ensures Run(pos, len, ticks) == (pos + NetOffset(ticks)) % len
    decreases |ticks|
  {
    if |ticks| == 0 {
      ModUnique(pos, len, 0, pos);
    } else {
      var init := ticks[..|ticks| - 1];
      var last := ticks[|ticks| - 1];
      var mid := Run(pos, len, init);
      var net := NetOffset(init);
      var d := Offset(last);
      RunIsNetOffset(pos, len, init);
      assert Run(pos, len, ticks) == (mid + d) % len;
      assert NetOffset(ticks) == net + d;
      assert (mid + d) % len == (pos + (net + d)) % len by {
        ModShift(pos + net, d, len);
      }
    }
  }

  /** A run of frames whose moves cancel out modulo `len` returns the cursor to where it started. */
  lemma RunReturns(pos: nat, len: nat, ticks: seq<Keys>)
    requires pos < len
    requires NetOffset(ticks) % len == 0
    ensures Run(pos, len, ticks) == pos
  {
    var net := NetOffset(ticks);
    RunIsNetOffset(pos, len, ticks);
    ModShift(net, pos, len);
    assert net % len + pos == pos;
    ModUnique(pos, len, 0, pos);
    assert net + pos == pos + net;
  }

  /** Every frame of a run presses the same key combination. */
  ghost predicate AllSame(ticks: seq<Keys>, keys: Keys)
  {
    forall i :: 0 <= i < |ticks| ==> ticks[i] == keys
  }

  /** A run of identical frames moves by its length times the single move. */
  lemma {:induction false} NetOffsetOfRepeats(ticks: seq<Keys>, keys: Keys)
    requires AllSame(ticks, keys)
    ensures NetOffset(ticks) == |ticks| * Offset(keys)
    decreases |ticks|
  {
    if |ticks| > 0 {
      NetOffsetOfRepeats(ticks[..|ticks| - 1], keys);
    }
  }

  /** The cursor is cyclic: `len` Right presses, or `len` Left presses, return it to its start. */
  lemma FullCycle(pos: nat, len: nat, ticks: seq<Keys>)
    requires pos < len
    requires |ticks| == len
    requires AllSame(ticks, RIGHT_PRESS) || AllSame(ticks, LEFT_PRESS)
    ensures Run(pos, len, ticks) == pos
  {
    if AllSame(ticks, RIGHT_PRESS) {
      NetOffsetOfRepeats(ticks, RIGHT_PRESS);
      assert NetOffset(ticks) == len;
    } else {
      NetOffsetOfRepeats(ticks, LEFT_PRESS);
      assert NetOffset(ticks) == -(len as int);
      ModUnique(-(len as int), len, -1, 0);
    }
    RunReturns(pos, len, ticks);
  }

  /**
   * The event loop of the viewer over the frames it ran: each frame updates
   * the cursor in place and shows `images[pos]`. With no images the first
   * frame panics (the `len - 1` underflow or the out-of-bounds index);
   * otherwise every frame shows the image the cursor function selects.
   */
  method EventLoop<I>(images: seq<I>, ticks: seq<Keys>) returns (frames: seq<I>, panicked: bool)
    ensures panicked <==> |images| == 0 && 0 < |ticks|
    ensures panicked ==> frames == []
    ensures !panicked ==> |frames| == |ticks|
    ensures !panicked ==> forall i :: 0 <= i < |ticks| ==> frames[i] == images[Run(0, |images|, ticks[..i + 1])]
  {
    var pos: nat := 0;
    frames := [];
    var i := 0;
    while i < |ticks|
      invariant 0 <= i <= |ticks|
      invariant |frames| == i
      invariant |images| == 0 ==> i == 0
      invariant 0 < |images| ==> pos < |images| && pos == Run(0, |images|, ticks[..i])
      invariant forall j :: 0 <= j < i ==> 0 < |images| && frames[j] == images[Run(0, |images|, ticks[..j + 1])]
    {
      var keys := ticks[i];
      if keys.left {
        if pos != 0 {
          pos := pos - 1;
        } else if |images| == 0 {
          return [], true;
        } else {
          pos := |images| - 1;
        }
      } else if keys.right {
        if |images| == 0 {
          return [], true;
        }
        if pos != |images| - 1 {
          pos := pos + 1;
        } else {
          pos := 0;
        }
      }
      if pos >= |images| {
        return [], true;
      }
      assert ticks[..i + 1][..i] == ticks[..i];
      frames := frames + [images[pos]];
      i := i + 1;
    }
    panicked := false;
  }
}
