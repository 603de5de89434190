/**
  The frame buffer the monitor reads from its off-screen canvas: a flat
  sequence of RGBA samples, four per pixel, row by row. The canvas size is
  fixed for the whole session, so every captured frame has the same length.
 */
module Frames {

  /** Canvas width and height in pixels (script.js sets them once). */
  const Width: nat := 640
  const Height: nat := 480

  /** Number of pixels in a frame; the motion score is normalised by it. */
  const Area: nat := Width * Height

  /** Number of samples in a captured frame: R, G, B and alpha per pixel. */
  const FrameLen: nat := 4 * Area

  /** One 8-bit colour sample, as stored in canvas image data. */
  type Sample = x: int | 0 <= x < 256

  type Buffer = seq<Sample>

  /** A frame as the canvas delivers it: exactly one RGBA quadruple per pixel. */
  predicate IsFrame(f: Buffer) {
    |f| == FrameLen
  }

  /** The fourth sample of every pixel is the alpha channel. */
  predicate IsAlpha(k: int) {
    k % 4 == 3
  }
}
