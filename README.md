# Background removal and replacement, modelled in Dafny

The modelled program is a small desktop tool, `remover.py`. It removes the background from a still image
or from a webcam feed, using an external segmentation model (`rembg.remove`). This project models
its core and proves properties of that model:

- **The alpha-over blend** of `remove_background_and_replace`. The segmented foreground is an RGBA
  array. Its alpha plane is stacked into three channels and scaled to a weight in [0, 1]. Each colour
  channel becomes `fg * w + bg * (1 - w)`, and the result is cast to `uint8`. `Compositor` models each
  numpy step on grids of pixels in exact real arithmetic. It proves that this equals the integer law
  `(fg * alpha + bg * (255 - alpha)) / 255`, truncated. It also proves the boundary laws (alpha 255
  gives the foreground, alpha 0 the background), the bounds, locality, channel independence and
  monotonicity.
- **The still-image flow**: load, segment, load and resize the background, blend, save, all inside
  one `try`/`except`. `StillPipeline` is a function whose outcome is either the image saved or the
  failure reported. An image is saved only when every earlier step succeeded, and it is then the
  composite.
- **The live capture loop** of `capture_and_modify_background`. `LivePipeline` has a `Capture` class
  (the camera: open or not, the frames it will still deliver, a ghost count of releases) and a
  `Window` class (the frame on screen and a ghost history). A method runs the `while True` loop with
  its two `break` exits and the exception exit. Its contract ties the final state to a specification
  function, `Session`. Lemmas about `Session` give frame counts, capture order, and the exit at which
  the camera is released. The loop never looks inside a frame, so this part is generic in the frame
  type; the shape lemma takes frames to be BGR pixel grids.

Files: `options.dfy` (Option), `raster.dfy` (bytes, pixels, rectangular grids), `compositor.dfy`,
`still_pipeline.dfy`, `live_pipeline.dfy`.

Four behaviours of the code are easy to misread, and the model follows the code in each:

- The code has no per-frame recovery in live mode. An exception from the segmentation escapes the
  loop and skips `cap.release()`, so the camera is not released on that path. It is released only on
  the two `break` exits.
- The code truncates (`astype(np.uint8)`) rather than rounding. No clamping is needed, because the
  blend stays within [0, 255].
- The code has no dedicated dimension-mismatch error. Arrays that numpy cannot broadcast (for
  example an RGBA background, which gives an `(h, w, 4)` array) raise inside the `try`. The error is
  reported and nothing is written.
- Only lower-case `q` stops the live loop (`waitKey(1) & 0xFF == ord('q')`), although the prompt says
  "Press Q".

## Model

| member | source | states |
|---|---|---|
| Compositor.AlphaPlane | remover.py:53 | the plane has the foreground's height and width and holds each pixel's alpha |
| Compositor.StackMask | remover.py:54 | the three channels of every mask pixel are equal to the alpha at that pixel: one weight for all three colour channels |
| Compositor.Normalise | remover.py:55 | every mask channel becomes a weight in [0, 1] that is alpha / 255, same shape |
| Compositor.ColourPlane | remover.py:58 | `[:, :, :3]` keeps the three colour channels of every pixel and drops alpha, same shape |
| Compositor.Mix | remover.py:58 | one channel of `fg * w + bg * (1 - w)` lies between the smaller and the larger of fg and bg |
| Compositor.Blend | remover.py:58 | the blended array keeps the shape, each channel of each pixel is the mix of that channel of the same pixel, and each value lies in uint8's range |
| Compositor.Truncate | remover.py:61 | the uint8 cast of an in-range value is its integer part: b <= x < b + 1 |
| Compositor.AsUint8 | remover.py:61 | the cast keeps the shape and truncates every channel |
| Compositor.Composite | remover.py:49-61 | on a background of the foreground's height and width, the result has that height and width and three uint8 channels |
| Compositor.BlendPixel | remover.py:54-58 | one alpha weights all three channels of a pixel: alpha 255 gives the foreground's colour, alpha 0 the background pixel, and each channel lies between the two inputs' values |
| Compositor.BlendChannel | remover.py:55-61 | the integer law: the channel lies between fg and bg, equals fg at alpha 255 and bg at alpha 0 |
| Compositor.TruncatedMixIsBlendChannel | remover.py:55-61 | truncating `fg * (alpha / 255) + bg * (1 - alpha / 255)` gives exactly `(fg * alpha + bg * (255 - alpha)) / 255` |
| Compositor.CompositeIsBlendPixel | remover.py:53-61 | every pixel of the composite is the integer blend of the foreground and background pixels at that place |
| Compositor.CompositeOpaque | remover.py:55-58 | alpha 255 everywhere gives exactly the foreground's colour channels |
| Compositor.CompositeTransparent | remover.py:55-58 | alpha 0 everywhere gives exactly the background |
| Compositor.CompositeBetweenInputs | remover.py:58-61 | each output channel lies between the foreground and background values of that channel, hence in [0, 255] |
| Compositor.CompositeIsLocal | remover.py:54-58 | an output pixel depends only on the foreground and background pixels at the same place |
| Compositor.ChannelsAreIndependent | remover.py:54-58 | an output channel depends only on that channel of the two inputs and on the pixel's alpha |
| Compositor.BlendChannelMonotone | remover.py:55-58 | raising alpha moves a channel towards the foreground value, never away from it |
| Compositor.HalfAlphaOverBlack | remover.py:55-61 | (200, 100, 50) at alpha 128 over black gives (100, 50, 25) |
| Compositor.CastTruncates | remover.py:58-61 | 200 at alpha 127 over black is exactly 25400/255 (about 99.61) and the channel is 99: truncation, not rounding |
| StillPipeline.RemoveBackgroundAndReplace | remover.py:33-69 | an image is saved only if the input loaded, the segmentation returned, the background loaded and broadcasts, and the save succeeded; it then has the cut-out's shape and every pixel is the blend of the cut-out with the resized background |
| StillPipeline.Broadcasts | remover.py:58 | the blend goes through only if numpy's broadcasting rule admits the product's shape and the background array's shape; an RGBA background never does, so that blend raises; two admissible shapes with no dimension of size 1 always go through |
| StillPipeline.ResizesToIsSatisfiable | remover.py:49 | some resize meets `ResizesTo`: asked for any picture's size, it returns a picture of that size in the same mode, so the lemmas that assume `ResizesTo` are not vacuous |
| StillPipeline.WrittenWhenEveryStepSucceeds | remover.py:36-62 | with a size-keeping segmentation, an RGB background resized to the input size and a working save, the composite is written |
| StillPipeline.FailuresWriteNothing | remover.py:34-69 | an unreadable input, a raising segmentation, an unreadable background or a failed save is reported and nothing is written, whatever the later inputs |
| StillPipeline.RgbaBackgroundIsReported | remover.py:46-58 | an RGBA background cannot be broadcast against the three-channel product: the error is reported |
| StillPipeline.OpaqueCutoutKeepsInput | remover.py:39-62 | a segmentation that keeps the whole image opaque saves the input unchanged, whatever the background |
| LivePipeline.StopRequested | remover.py:101 | no contract of its own: the quit test `key % 256 == ord('q')`; StopRequestedReadsLowByte ties it to the bit-by-bit `& 0xFF`, StopKeyCodes gives the key codes that do and do not stop |
| LivePipeline.StopRequestedReadsLowByte | remover.py:101 | the quit test holds exactly when the low 8 bits of the key code, taken bit by bit from its two's complement as `& 0xFF` takes them, equal ord('q') |
| LivePipeline.LowBitsIsRemainder | remover.py:101 | the n low bits of x, read as a number, are x mod 2^n, negative x included |
| LivePipeline.StopKeyCodes | remover.py:101 | no key (-1) and 'Q' do not stop the loop; 'q', and any code whose low byte is 'q', do |
| LivePipeline.Session | remover.py:82-103 | no contract of its own: one shown frame per successful read and process, ending at a failed read, at the quit key after a shown frame, or at a raise; SessionReads, ShownInCaptureOrder, EveryFrameShownUntilEndOfStream, StopAfterFrame and RaisingFrameEndsSession state its laws |
| LivePipeline.SessionReads | remover.py:82-103 | a session never ends as "not opened"; it shows at most as many frames as it reads, and reads at most the frames available; it shows every frame when it ends at a failed read, and leaves at least one frame unshown when processing raises (that the raising read consumed exactly one frame more than were shown is the `cap.pending` clause of StreamFrames) |
| LivePipeline.Releases | remover.py:104 | the camera is released at most once: exactly on the two `break` exits (a failed read, the quit key), never when it did not open or processing raised |
| LivePipeline.Live | remover.py:72-78 | a camera that does not open ends the function at once with nothing shown, and only then |
| LivePipeline.Capture.IsOpened | remover.py:76 | reports whether the source is open |
| LivePipeline.Capture.Read | remover.py:83-85 | an open source with frames left yields the next one and advances; otherwise the read fails (no frame) and nothing changes |
| LivePipeline.Capture.Release | remover.py:104 | the source is closed and its release count goes up by one |
| LivePipeline.Window.Show | remover.py:98 | the shown frame replaces the one on screen and is appended to the history |
| LivePipeline.OnScreenCompose | remover.py:98 | each `imshow` replaces what is on screen, so two runs of calls one after the other leave what the single combined run leaves: the last frame shown, or what was there before when nothing was shown |
| LivePipeline.StreamFrames | remover.py:82-104 | on an open camera, the frames shown, the exit taken, the frame left on screen, the frames consumed and the release count are exactly those `Session` gives; the camera is released and closed unless processing raised |
| LivePipeline.CaptureAndModifyBackground | remover.py:72-105 | the frames shown, the exit taken, the frames read, the frame left on screen and the release count are exactly those the session specification gives; the camera stays open only after processing raised |
| LivePipeline.ShownInCaptureOrder | remover.py:82-98 | the i-th shown frame is the processed i-th captured frame: capture order, no skipping |
| LivePipeline.EveryFrameShownUntilEndOfStream | remover.py:82-104 | given N frames then a failed read, with no quit key and no raise, exactly the N processed frames are shown and the camera is released once |
| LivePipeline.StopAfterFrame | remover.py:98-104 | if the quit key first comes after the n-th frame, exactly n frames are shown and the camera is released once |
| LivePipeline.RaisingFrameEndsSession | remover.py:91-104 | if processing raises on frame n, the n frames before it are shown and the camera is not released |
| LivePipeline.ShownFramesKeepShape | remover.py:88-98 | with a shape-keeping frame processor, every shown frame has the height and width of the frame it came from |

## Left out

- `remove_background` (extraction only, lines 11-30): load, segment and save, with no logic of its own.
- The Tkinter menu, file dialogs, message boxes and `print` calls: user-interface glue.
- The segmentation model behind `rembg.remove`. It is a parameter that returns an RGBA cut-out or
  raises. That it keeps the image size is only a lemma hypothesis (`KeepsSize`, `KeepsShape`).
- PIL's `open`, `convert`, `resize`, `fromarray` and `save`. Loads are parameters that are either
  the decoded picture or a failure. Saving is a boolean parameter: does the write succeed. `resize`
  is a parameter, and its contract appears only as a lemma hypothesis (`ResizesTo`): asked for the
  size of some picture, as line 49 asks for the input's size, it returns a picture of that size in
  the same mode. Sizes no picture has (no rows but a positive width) are left unconstrained.
- Image modes other than RGB and RGBA (greyscale, palette, CMYK) for the background: numpy's
  broadcasting of their arrays is not modelled.
- Broadcasts: any difference in height or width counts as a broadcast error, in
  RemoveBackgroundAndReplace too. numpy would also broadcast a dimension of size 1. That can happen
  only if the segmentation changes the image size, which `rembg` does not.
- The float64 rounding of the real mask and blend. The model computes in exact real arithmetic, so
  a value that float64 puts just below an integer (and then truncates one lower) is not captured.
- The colour conversions of the live loop (`cv2.cvtColor` at lines 88 and 95) and the segmentation
  between them. Together they form the frame processor parameter: a frame to show, or a raise.
- A frame source that never runs dry. `Capture.pending` is a finite sequence, so every modelled
  session ends. A webcam whose reads never fail, with 'q' never pressed, keeps the code's loop running
  forever; neither `Session` nor the loop's `decreases |cap.pending|` can represent that run.
- `cv2.VideoCapture(0)` (the device is the `Capture` object's initial state), the timing of
  `cv2.waitKey(1)` (its key codes are a parameter), and `cv2.destroyAllWindows()` (no window state
  beyond the frame on screen is modelled).
