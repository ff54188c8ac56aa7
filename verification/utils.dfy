/** The sprite animation of the platformer: a frame counter over game
    updates that either loops or runs once and latches `done`, and the image
    shown for the current frame. */
module Utils {
  import opened Geometry

  /** One `update` of a counter with `n` frames in all (`img_duration` times
      the number of images): a looping counter wraps to 0 after its last
      frame; a one-shot counter stops on its last frame and latches `done`
      there. */
  function Tick(frame: int, done: bool, n: int, loop: bool): (r: (int, bool))
    requires n > 0
    ensures loop && 0 <= frame < n ==> r.0 == if frame == n - 1 then 0 else frame + 1
    ensures loop ==> r.1 == done
    ensures !loop && frame < n ==> r.0 == frame + 1 || r.0 == n - 1
    ensures !loop && frame <= n - 1 ==> frame <= r.0 <= n - 1
    ensures !loop ==> r.0 <= n - 1 && (r.1 <==> done || r.0 == n - 1)
    ensures done ==> r.1
  {
    if loop then ((frame + 1) % n, done)
    else
      var f := MinInt(frame + 1, n - 1);
      (f, done || f >= n - 1)
  }

  /** The counter after `k` updates. */
  function Run(frame: int, done: bool, n: int, loop: bool, k: nat): (int, bool)
    requires n > 0
  {
    if k == 0 then (frame, done)
    else
      var prev := Run(frame, done, n, loop, k - 1);
      Tick(prev.0, prev.1, n, loop)
  }

  /** A looping counter stays in [0, n), shows frame `(frame + k) mod n` after
      `k` updates and never touches `done`. */
  lemma {:induction false} LoopingRun(frame: int, done: bool, n: int, k: nat)
    requires 0 <= frame < n
    ensures Run(frame, done, n, true, k) == ((frame + k) % n, done)
  {
    if k > 0 {
      LoopingRun(frame, done, n, k - 1);
      WrapStep(frame + k - 1, n);
    }
  }

  /** Advancing a residue by one is the residue of the successor. */
  lemma WrapStep(a: int, n: int)
    requires a >= 0 && n > 0
    ensures (if a % n == n - 1 then 0 else a % n + 1) == (a + 1) % n
  {
    var q := a / n;
    if a % n == n - 1 {
      ModOf(a + 1, n, q + 1, 0);
    } else {
      ModOf(a + 1, n, q, a % n + 1);
    }
  }

  /** The remainder is determined by any quotient-remainder split. */
  lemma ModOf(a: int, n: int, q: int, r: int)
    requires n > 0 && 0 <= r < n && a == q * n + r
    ensures a % n == r
  {
    var d := q - a / n;
    assert d * n == a % n - r;
    MulAwayFromZero(d, n);
  }

  lemma MulAwayFromZero(d: int, n: int)
    ensures d > 0 && n > 0 ==> d * n >= n
    ensures d < 0 && n > 0 ==> d * n <= -n
  {
  }

  /** A looping counter comes back to where it started after exactly `n`
      updates. */
  lemma LoopingPeriod(frame: int, done: bool, n: int)
    requires 0 <= frame < n
    ensures Run(frame, done, n, true, n) == (frame, done)
  {
    LoopingRun(frame, done, n, n);
    ModOf(frame + n, n, 1, frame);
  }

  /** A one-shot counter climbs by one per update up to its last frame and
      stays there; `done` is set from the first update that ends on the last
      frame, and is never cleared. */
  lemma {:induction false} OneShotRun(frame: int, done: bool, n: int, k: nat)
    requires 0 <= frame < n
    ensures Run(frame, done, n, false, k) == (MinInt(frame + k, n - 1), done || (k > 0 && frame + k >= n - 1))
  {
    if k > 0 {
      OneShotRun(frame, done, n, k - 1);
    }
  }

  /** `img`'s index: Python's `int(frame / img_duration)`, which for a
      non-negative frame is the image whose time slot contains the frame. */
  function ImageIndex(frame: nat, duration: int): (i: nat)
    requires duration > 0
    ensures i * duration <= frame < (i + 1) * duration
  {
    FloorDiv(frame, duration)
  }

  /** Every frame of the counter shows one of the images. */
  lemma ImageIndexInRange(frame: nat, duration: int, count: nat)
    requires duration > 0 && frame < duration * count
    ensures ImageIndex(frame, duration) < count
  {
  }

  class Animation<T> {
    const images: seq<T>
    /** How many game updates each image is shown for. */
    const imgDuration: int
    const loop: bool
    const isPlayer: bool
    var done: bool
    /** The number of game updates into the animation, not an image index. */
    var frame: int

    /** Total frames of one run through the images. */
    function Length(): int
      reads this
    {
      imgDuration * |images|
    }

    ghost predicate Valid()
      reads this
    {
      |images| > 0 && imgDuration > 0 && 0 <= frame < Length()
    }

    constructor (images: seq<T>, imgDuration: int, loop: bool, isPlayer: bool)
      requires |images| > 0 && imgDuration > 0
      ensures Valid()
      ensures this.images == images && this.imgDuration == imgDuration
      ensures this.loop == loop && this.isPlayer == isPlayer
      ensures frame == 0 && !done
    {
      this.images := images;
      this.imgDuration := imgDuration;
      this.loop := loop;
      this.isPlayer := isPlayer;
      done := false;
      frame := 0;
    }

    /** `copy`: a fresh animation with the same settings, at its start. */
    method Copy() returns (a: Animation<T>)
      requires Valid()
      ensures fresh(a) && a.Valid()
      ensures a.images == images && a.imgDuration == imgDuration
      ensures a.loop == loop && a.isPlayer == isPlayer
      ensures a.frame == 0 && !a.done
    {
      a := new Animation(images, imgDuration, loop, isPlayer);
    }

    /** `update`: advance the counter one game update. */
    method Update()
      requires Valid()
      modifies this
      ensures Valid()
      ensures (frame, done) == Tick(old(frame), old(done), Length(), loop)
    {
      if loop {
        frame := (frame + 1) % (imgDuration * |images|);
      } else {
        frame := MinInt(frame + 1, imgDuration * |images| - 1);
        if frame >= imgDuration * |images| - 1 {
          done := true;
        }
      }
    }

    /** `img`: the image for the current frame, one whose time slot holds
        the frame. */
    function Img(): (img: T)
      requires Valid()
      reads this
      ensures exists i :: 0 <= i < |images| && img == images[i] && i * imgDuration <= frame < (i + 1) * imgDuration
    {
      ImageIndexInRange(frame, imgDuration, |images|);
      images[ImageIndex(frame, imgDuration)]
    }
  }
}
