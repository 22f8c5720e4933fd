/**
 * capture_and_modify_background: open the camera, then read, process and show
 * frames until a read fails or the quit key is pressed, then release the
 * camera. The camera is a Capture object over the frames the device will
 * deliver before a failed read; the window records what it has shown; the
 * per-frame work (colour conversion, segmentation, conversion back) is a
 * parameter that either yields the frame to show or raises; the key codes
 * that cv2.waitKey(1) returns after each shown frame are a parameter too.
 */
module LivePipeline {
  import opened Options
  import opened Raster

  /** A captured frame: rows of BGR pixels. */
  type Frame = seq<seq<Rgb<Byte>>>

  /** The (height, width) of a frame. */
  function FrameShape(f: Frame): (nat, nat)
  {
    (|f|, Width(f))
  }

  /** ord('q'). */
  const QuitKey: int := 113

  /**
   * cv2.waitKey(1) & 0xFF == ord('q'). Python's & on a negative int acts on
   * its two's complement, which for the mask 0xFF is the non-negative
   * remainder mod 256, as Dafny's % computes it.
   */
  predicate StopRequested(key: int)
  {
    key % 256 == QuitKey
  }

  /** The test is on the low byte of the key code, bit by bit as & 0xFF takes it. */
  lemma StopRequestedReadsLowByte(key: int)
    ensures StopRequested(key) <==> LowBits(key, 8) == QuitKey
  {
    LowBitsIsRemainder(key, 8);
  }

  function Pow2(n: nat): (p: nat)
    ensures p > 0
  {
    if n == 0 then 1 else 2 * Pow2(n - 1)
  }

  /**
   * x & (2^n - 1) as Python computes it on ints: the n lowest bits of x's
   * two's complement, taken one by one (the floor division by 2 shifts a
   * negative x as an arithmetic shift does).
   */
  function LowBits(x: int, n: nat): nat
    decreases n
  {
    if n == 0 then 0 else x % 2 + 2 * LowBits(x / 2, n - 1)
  }

  /** The n lowest bits of x, read as a number, are x mod 2^n. */
  lemma {:induction false} LowBitsIsRemainder(x: int, n: nat)
    ensures LowBits(x, n) == x % Pow2(n)
    decreases n
  {
    if n > 0 {
      var p := Pow2(n - 1);
      var q, r := x / 2, x % 2;
      LowBitsIsRemainder(q, n - 1);
      var a, b := q / p, q % p;
      assert LowBits(x, n) == 2 * b + r && Pow2(n) == 2 * p;
      Regroup(x, q, r, p, a, b);
      DivisionIsUnique(x, 2 * p, a, 2 * b + r);
    }
  }

  /** x = 2q + r and q = pa + b give x = (2p)a + (2b + r). */
  lemma Regroup(x: int, q: int, r: int, p: int, a: int, b: int)
    requires p > 0 && x == 2 * q + r && a == q / p && b == q % p
    ensures x == (2 * p) * a + (2 * b + r)
  {
    assert q == p * a + b;
    assert (2 * p) * a == 2 * (p * a);
  }

  /** Euclidean division: x = d * a + m with 0 <= m < d fixes a and m. */
  lemma DivisionIsUnique(x: int, d: int, a: int, m: int)
    requires d > 0 && x == d * a + m && 0 <= m < d
    ensures x % d == m && x / d == a
  {
    var q, r := x / d, x % d;
    assert x == d * q + r;
    assert d * (a - q) == r - m;
    MultipleBounds(d, a - q);
  }

  lemma MultipleBounds(d: int, k: int)
    requires d >= 0
    ensures k >= 1 ==> d * k >= d
    ensures k <= -1 ==> d * k <= -d
  {
    if k >= 1 {
      assert d * k == d + d * (k - 1);
    } else if k <= -1 {
      assert d * k == -d + d * (k + 1);
    }
  }

  lemma StopKeyCodes()
    ensures !StopRequested(-1)       // no key pressed within the wait
    ensures StopRequested(113)       // 'q'
    ensures !StopRequested(81)       // 'Q' does not quit
    ensures StopRequested(0x100 + 113)
  {
  }

  /** How the session ended. */
  datatype Exit =
    | NotOpened           // cap.isOpened() was false
    | ReadFailed          // cap.read() returned ret == False
    | StopKey             // the quit key after a shown frame
    | ProcessingRaised    // the per-frame work raised; the exception leaves the function

  /** The frames shown, in order, and how the session ended. */
  datatype Run<F> = Run(shown: seq<F>, exit: Exit)

  /**
   * The loop from the point where `displayed` frames have been shown and
   * `frames` are still to come.
   */
  function Session<F>(frames: seq<F>, process: F -> Option<F>, keyAfter: nat -> int, displayed: nat): Run<F>
    decreases |frames|
  {
    if frames == [] then Run([], ReadFailed)
    else match process(frames[0])
      case None => Run([], ProcessingRaised)
      case Some(out) =>
        if StopRequested(keyAfter(displayed)) then Run([out], StopKey)
        else
          var rest := Session(frames[1..], process, keyAfter, displayed + 1);
          Run([out] + rest.shown, rest.exit)
  }

  /**
   * A session never ends as "not opened", shows no more frames than it
   * reads and reads no more than there are, shows every frame when it ends
   * at a failed read, and leaves a frame unshown when processing raised.
   */
  lemma {:induction false} SessionReads<F>(frames: seq<F>, process: F -> Option<F>, keyAfter: nat -> int, displayed: nat)
    ensures var r := Session(frames, process, keyAfter, displayed);
      && r.exit != NotOpened
      && |r.shown| <= FramesRead(r, |frames|) <= |frames|
      && (r.exit == ReadFailed ==> |r.shown| == |frames|)
      && (r.exit == ProcessingRaised ==> |r.shown| < |frames|)
    decreases |frames|
  {
    if frames != [] && process(frames[0]).Some? && !StopRequested(keyAfter(displayed)) {
      SessionReads(frames[1..], process, keyAfter, displayed + 1);
    }
  }

  /** The whole function: nothing happens when the camera did not open. */
  function Live<F>(isOpen: bool, frames: seq<F>, process: F -> Option<F>, keyAfter: nat -> int): (r: Run<F>)
    ensures r.exit == NotOpened <==> !isOpen
    ensures !isOpen ==> r.shown == []
  {
    if !isOpen then Run([], NotOpened)
    else
      SessionReads(frames, process, keyAfter, 0);
      Session(frames, process, keyAfter, 0)
  }

  /** cap.release() runs once on the two exits that leave the loop by break, and not otherwise. */
  function Releases(exit: Exit): (n: nat)
    ensures n <= 1
    ensures n == 1 <==> !exit.NotOpened? && !exit.ProcessingRaised?
  {
    match exit
    case ReadFailed => 1
    case StopKey => 1
    case NotOpened => 0
    case ProcessingRaised => 0
  }

  /**
   * How many times cap.read() returned a frame: every frame on a failed
   * read, one per shown frame on the quit key, and one more than were
   * shown when processing raised.
   */
  function FramesRead<F>(run: Run<F>, available: nat): nat
  {
    match run.exit
    case NotOpened => 0
    case ReadFailed => available
    case StopKey => |run.shown|
    case ProcessingRaised => |run.shown| + 1
  }

  class Capture<F> {
    var isOpen: bool
    /** The frames the device delivers before its first failed read. */
    var pending: seq<F>
    ghost var releases: nat

    constructor (isOpen: bool, frames: seq<F>)
      ensures this.isOpen == isOpen && pending == frames && releases == 0
    {
      this.isOpen := isOpen;
      pending := frames;
      releases := 0;
    }

    method IsOpened() returns (b: bool)
      ensures b == isOpen
    {
      b := isOpen;
    }

    /**
     * cap.read(): the next frame, or None (ret == False, no frame) on a
     * closed or exhausted source.
     */
    method Read() returns (frame: Option<F>)
      modifies this
      ensures frame.Some? <==> isOpen && old(pending) != []
      ensures frame.Some? ==> frame.value == old(pending)[0] && pending == old(pending)[1..]
      ensures frame.None? ==> pending == old(pending)
      ensures isOpen == old(isOpen) && releases == old(releases)
    {
      if isOpen && pending != [] {
        frame := Some(pending[0]);
        pending := pending[1..];
      } else {
        frame := None;
      }
    }

    method Release()
      modifies this
      ensures !isOpen && pending == old(pending) && releases == old(releases) + 1
    {
      isOpen := false;
      releases := releases + 1;
    }
  }

  /** What is on screen after `shown` were shown, starting from `before`: the last frame shown. */
  function OnScreen<F>(before: Option<F>, shown: seq<F>): Option<F>
  {
    if shown == [] then before else Some(shown[|shown| - 1])
  }

  /** Two runs of imshow calls, one after the other, leave what the single combined run leaves. */
  lemma OnScreenCompose<F>(before: Option<F>, s: seq<F>, t: seq<F>)
    ensures OnScreen(OnScreen(before, s), t) == OnScreen(before, s + t)
  {
    if t != [] {
      assert (s + t)[|s + t| - 1] == t[|t| - 1];
    }
  }

  class Window<F> {
    /** The frame on screen. */
    var current: Option<F>
    /** Every frame shown so far, oldest first. */
    ghost var history: seq<F>

    constructor ()
      ensures current == None && history == []
    {
      current := None;
      history := [];
    }

    /** cv2.imshow: the new frame replaces the one on screen. */
    method Show(f: F)
      modifies this
      ensures current == Some(f) && history == old(history) + [f]
    {
      current := Some(f);
      history := history + [f];
    }
  }

  method CaptureAndModifyBackground<F>(cap: Capture<F>, win: Window<F>, process: F -> Option<F>, keyAfter: nat -> int)
    returns (exit: Exit)
    modifies cap, win
    ensures var run := Live(old(cap.isOpen), old(cap.pending), process, keyAfter);
      && exit == run.exit
      && win.history == old(win.history) + run.shown
      && win.current == OnScreen(old(win.current), run.shown)
      && FramesRead(run, |old(cap.pending)|) <= |old(cap.pending)|
      && cap.pending == old(cap.pending)[FramesRead(run, |old(cap.pending)|)..]
      && cap.releases == old(cap.releases) + Releases(exit)
      && (cap.isOpen <==> exit == ProcessingRaised)
  {
    SessionReads(cap.pending, process, keyAfter, 0);
    var isOpen := cap.IsOpened();
    if !isOpen {
      return NotOpened;
    }
    exit := StreamFrames(cap, win, process, keyAfter);
  }

  /**
   * Lines 82-104 on an open camera: read, process and show frames, polling
   * the key after each, until a read fails or the quit key is pressed, then
   * release the camera. ProcessingRaised stands for the exception that
   * leaves the loop and the function at once, skipping the release.
   */
  method StreamFrames<F>(cap: Capture<F>, win: Window<F>, process: F -> Option<F>, keyAfter: nat -> int)
    returns (exit: Exit)
    requires cap.isOpen
    modifies cap, win
    ensures var run := Session(old(cap.pending), process, keyAfter, 0);
      && exit == run.exit
      && win.history == old(win.history) + run.shown
      && win.current == OnScreen(old(win.current), run.shown)
      && FramesRead(run, |old(cap.pending)|) <= |old(cap.pending)|
      && cap.pending == old(cap.pending)[FramesRead(run, |old(cap.pending)|)..]
      && cap.releases == old(cap.releases) + Releases(exit)
      && (cap.isOpen <==> exit == ProcessingRaised)
  {
    ghost var frames := cap.pending;
    ghost var whole := Session(frames, process, keyAfter, 0);
    SessionReads(frames, process, keyAfter, 0);
    ghost var displayed: seq<F> := [];
    var k: nat := 0;
    while true
      invariant cap.isOpen && cap.releases == old(cap.releases)
      invariant k <= |frames| && cap.pending == frames[k..] && |displayed| == k
      invariant win.history == old(win.history) + displayed
      invariant win.current == OnScreen(old(win.current), displayed)
      invariant Resumes(whole, displayed, Session(cap.pending, process, keyAfter, k))
      decreases |cap.pending|
    {
      ghost var before := cap.pending;
      var frame := cap.Read();
      if frame.None? {
        assert whole == Run(displayed, ReadFailed) && k == |frames|;
        exit := ReadFailed;
        break;
      }
      assert frame.value == before[0] && cap.pending == before[1..] == frames[k + 1..];
      var out := process(frame.value);
      if out.None? {
        assert whole == Run(displayed, ProcessingRaised);
        return ProcessingRaised;
      }
      win.Show(out.value);
      ResumeStep(whole, displayed, before, process, keyAfter, k);
      displayed := displayed + [out.value];
      if StopRequested(keyAfter(k)) {
        assert whole == Run(displayed, StopKey);
        exit := StopKey;
        break;
      }
      k := k + 1;
    }
    cap.Release();
  }

  /** The whole session is what has been shown so far followed by the rest of it. */
  ghost predicate Resumes<F>(whole: Run<F>, displayed: seq<F>, rest: Run<F>)
  {
    whole.shown == displayed + rest.shown && whole.exit == rest.exit
  }

  /** One more shown frame moves from the rest of the session to what has been shown. */
  lemma ResumeStep<F>(whole: Run<F>, displayed: seq<F>, pending: seq<F>, process: F -> Option<F>, keyAfter: nat -> int, k: nat)
    requires pending != [] && process(pending[0]).Some?
    requires Resumes(whole, displayed, Session(pending, process, keyAfter, k))
    ensures var out := process(pending[0]).value;
      if StopRequested(keyAfter(k)) then Resumes(whole, displayed + [out], Run([], StopKey))
      else Resumes(whole, displayed + [out], Session(pending[1..], process, keyAfter, k + 1))
  {
    var out := process(pending[0]).value;
    if !StopRequested(keyAfter(k)) {
      var rest := Session(pending[1..], process, keyAfter, k + 1);
      assert displayed + ([out] + rest.shown) == (displayed + [out]) + rest.shown;
    }
  }

  // ---------------------------------------------------------------------
  // What a session shows

  /** Frames are shown in capture order, each being the processed frame captured at that place. */
  lemma {:induction false} ShownInCaptureOrder<F>(frames: seq<F>, process: F -> Option<F>, keyAfter: nat -> int, displayed: nat)
    ensures var run := Session(frames, process, keyAfter, displayed);
      |run.shown| <= |frames| &&
      forall i :: 0 <= i < |run.shown| ==> process(frames[i]) == Some(run.shown[i])
  {
    if frames != [] && process(frames[0]).Some? && !StopRequested(keyAfter(displayed)) {
      ShownInCaptureOrder(frames[1..], process, keyAfter, displayed + 1);
    }
  }

  /**
   * N frames then a failed read, no failure in processing and no quit key:
   * exactly the N processed frames are shown, in capture order, and the
   * session ends at the failed read (so the camera is released once).
   */
  lemma {:induction false} EveryFrameShownUntilEndOfStream<F>(frames: seq<F>, process: F -> Option<F>, keyAfter: nat -> int, displayed: nat)
    requires forall i :: 0 <= i < |frames| ==> process(frames[i]).Some? && !StopRequested(keyAfter(displayed + i))
    ensures var run := Session(frames, process, keyAfter, displayed);
      && run.exit == ReadFailed && Releases(run.exit) == 1
      && |run.shown| == |frames|
      && forall i :: 0 <= i < |frames| ==> run.shown[i] == process(frames[i]).value
  {
    if frames != [] {
      assert process(frames[0]).Some? && !StopRequested(keyAfter(displayed + 0));
      forall i | 0 <= i < |frames[1..]|
        ensures process(frames[1..][i]).Some? && !StopRequested(keyAfter(displayed + 1 + i))
      {
        assert frames[1..][i] == frames[i + 1];
      }
      EveryFrameShownUntilEndOfStream(frames[1..], process, keyAfter, displayed + 1);
    }
  }

  /**
   * The quit key first pressed after the n-th frame (processing succeeding
   * up to it): exactly n frames are shown, and the session ends at the key
   * (so the camera is released once).
   */
  lemma {:induction false} StopAfterFrame<F>(frames: seq<F>, process: F -> Option<F>, keyAfter: nat -> int, displayed: nat, n: nat)
    requires 1 <= n <= |frames|
    requires forall i :: 0 <= i < n ==> process(frames[i]).Some?
    requires forall t :: displayed <= t < displayed + n - 1 ==> !StopRequested(keyAfter(t))
    requires StopRequested(keyAfter(displayed + n - 1))
    ensures var run := Session(frames, process, keyAfter, displayed);
      && run.exit == StopKey && Releases(run.exit) == 1
      && |run.shown| == n
      && forall i :: 0 <= i < n ==> run.shown[i] == process(frames[i]).value
  {
    assert process(frames[0]).Some?;
    if n > 1 {
      assert !StopRequested(keyAfter(displayed));
      forall i | 0 <= i < n - 1 ensures process(frames[1..][i]).Some? {
        assert frames[1..][i] == frames[i + 1];
      }
      StopAfterFrame(frames[1..], process, keyAfter, displayed + 1, n - 1);
    }
  }

  /**
   * Processing first raising on frame n (counting from 0, no quit key
   * before it): the n frames before it are shown, the exception leaves
   * the function, and the camera is not released.
   */
  lemma {:induction false} RaisingFrameEndsSession<F>(frames: seq<F>, process: F -> Option<F>, keyAfter: nat -> int, displayed: nat, n: nat)
    requires n < |frames| && process(frames[n]).None?
    requires forall i :: 0 <= i < n ==> process(frames[i]).Some? && !StopRequested(keyAfter(displayed + i))
    ensures var run := Session(frames, process, keyAfter, displayed);
      && run.exit == ProcessingRaised && Releases(run.exit) == 0
      && |run.shown| == n
  {
    if n > 0 {
      assert process(frames[0]).Some? && !StopRequested(keyAfter(displayed + 0));
      forall i | 0 <= i < n - 1
        ensures process(frames[1..][i]).Some? && !StopRequested(keyAfter(displayed + 1 + i))
      {
        assert frames[1..][i] == frames[i + 1];
      }
      RaisingFrameEndsSession(frames[1..], process, keyAfter, displayed + 1, n - 1);
    }
  }

  /** The per-frame work keeps the height and width of the frame. */
  ghost predicate KeepsShape(process: Frame -> Option<Frame>)
  {
    forall f :: process(f).Some? ==> FrameShape(process(f).value) == FrameShape(f)
  }

  /** Every shown frame has the height and width of the captured frame it came from. */
  lemma ShownFramesKeepShape(isOpen: bool, frames: seq<Frame>, process: Frame -> Option<Frame>, keyAfter: nat -> int)
    requires KeepsShape(process)
    ensures var run := Live(isOpen, frames, process, keyAfter);
      |run.shown| <= |frames| &&
      forall i :: 0 <= i < |run.shown| ==> FrameShape(run.shown[i]) == FrameShape(frames[i])
  {
    if isOpen {
      ShownInCaptureOrder(frames, process, keyAfter, 0);
    }
  }

  /** A concrete session: a camera that never opens shows nothing and is never read. */
  method UnopenedCameraShowsNothing(frames: seq<Frame>, process: Frame -> Option<Frame>, keyAfter: nat -> int)
  {
    var cap := new Capture<Frame>(false, frames);
    var win := new Window<Frame>();
    var exit := CaptureAndModifyBackground(cap, win, process, keyAfter);
    assert exit == NotOpened && win.history == [] && win.current == None;
    assert cap.releases == 0 && cap.pending == frames;
  }
}
