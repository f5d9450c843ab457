/**
 * The frame bookkeeping of `main` (src/main.rs): scaling the alpha channel of
 * a warped RGBA buffer, the opacity each morph frame uses, and the looping
 * order in which frames are handed to the GIF encoder.
 *
 * Warping, compositing, resizing and encoding are library calls and are not
 * modelled; frames are opaque values of a type parameter.
 */
module Morph {
  import opened Points
  import opened CommandLine
  import opened Ints

  /** The `interpolation` crate's `Lerp` for `u8`, as `0.lerp(a, opacity)`: passed in. */
  type AlphaLerp = (byte, real) -> byte

  // ---------------------------------------------------------------------------
  // change_alpha

  /** One pixel `[r, g, b, a]`: a zero alpha stays, any other becomes `lerp(a, opacity)`. */
  function ScalePixel(px: seq<byte>, opacity: real, lerp: AlphaLerp): (r: seq<byte>)
    requires |px| == 4
  {
    if px[3] == 0 then px else px[..3] + [lerp(px[3], opacity)]
  }

  /**
   * The buffer after `change_alpha`, chunk by chunk as `par_chunks_mut(4)`
   * cuts it: a trailing chunk of fewer than four bytes matches no pixel arm.
   */
  function ScaledAlpha(buf: seq<byte>, opacity: real, lerp: AlphaLerp): (r: seq<byte>)
    ensures |r| == |buf|
  {
    if |buf| < 4 then buf
    else ScalePixel(buf[..4], opacity, lerp) + ScaledAlpha(buf[4..], opacity, lerp)
  }

  /**
   * Byte by byte: only the alpha byte of a full pixel changes, a zero alpha
   * stays zero, and a non-zero alpha `a` becomes `lerp(a, opacity)`.
   */
  lemma {:induction false} ScaledAlphaAt(buf: seq<byte>, opacity: real, lerp: AlphaLerp, j: nat)
    requires j < |buf|
    ensures ScaledAlpha(buf, opacity, lerp)[j] ==
      if j % 4 == 3 && buf[j] != 0 then lerp(buf[j], opacity) else buf[j]
  {
    if |buf| >= 4 && j >= 4 {
      ScaledAlphaAt(buf[4..], opacity, lerp, j - 4);
    }
  }

  /** The bytes of a trailing partial chunk are never touched. */
  lemma TrailingBytesUnchanged(buf: seq<byte>, opacity: real, lerp: AlphaLerp, j: nat)
    requires |buf| - |buf| % 4 <= j < |buf|
    ensures ScaledAlpha(buf, opacity, lerp)[j] == buf[j]
  {
    ScaledAlphaAt(buf, opacity, lerp, j);
    var q := |buf| / 4;
    assert 4 * q <= j < 4 * q + 4;
    assert j % 4 == j - 4 * q < |buf| % 4 <= 3;
  }

  /**
   * `change_alpha`: scales every non-zero alpha of the RGBA buffer in place.
   * The chunks are disjoint, so the parallel loop of the source is run here
   * one chunk after another.
   */
  method ChangeAlpha(img: array<byte>, opacity: real, lerp: AlphaLerp)
    requires 0.0 <= opacity <= 1.0
    modifies img
    ensures img[..] == ScaledAlpha(old(img[..]), opacity, lerp)
  {
    ghost var orig := img[..];
    var chunks := img.Length / 4;
    var c := 0;
    while c < chunks
      invariant 0 <= c <= chunks
      invariant forall j :: 0 <= j < img.Length && j >= 4 * c ==> img[j] == orig[j]
      invariant forall j :: 0 <= j < 4 * c ==>
        img[j] == if j % 4 == 3 && orig[j] != 0 then lerp(orig[j], opacity) else orig[j]
    {
      var a := 4 * c + 3;
      if img[a] != 0 {
        img[a] := lerp(img[a], opacity);
      }
      c := c + 1;
    }
    forall j | 0 <= j < img.Length
      ensures img[j] == ScaledAlpha(orig, opacity, lerp)[j]
    {
      ScaledAlphaAt(orig, opacity, lerp, j);
      if j >= 4 * chunks {
        TrailingBytesUnchanged(orig, opacity, lerp, j);
      }
    }
  }

  /**
   * The opacity handed to `change_alpha` for each morph frame, `1 - ratio`:
   * within [0, 1], so the debug assertions hold, and running from fully
   * opaque at the first frame to fully transparent at the last.
   */
  function Opacities(steps: nat): (ops: seq<real>)
    requires steps != 1
    ensures |ops| == steps
    ensures forall k :: 0 <= k < steps ==> ops[k] == 1.0 - Ratios(steps)[k]
    ensures forall k :: 0 <= k < steps ==> 0.0 <= ops[k] <= 1.0
    ensures steps >= 2 ==> ops[0] == 1.0 && ops[steps - 1] == 0.0
  {
    var ratios := Ratios(steps);
    if steps >= 2 then RatiosSpan(steps); seq(steps, k requires 0 <= k < steps => 1.0 - ratios[k])
    else []
  }

  // ---------------------------------------------------------------------------
  // The looping frame order

  function Repeat<F>(f: F, n: nat): (r: seq<F>)
    ensures |r| == n && forall i :: 0 <= i < n ==> r[i] == f
  {
    seq(n, _ => f)
  }

  function Reverse<F>(s: seq<F>): (r: seq<F>)
    ensures |r| == |s|
    ensures forall i :: 0 <= i < |s| ==> r[i] == s[|s| - 1 - i]
  {
    seq(|s|, i requires 0 <= i < |s| => s[|s| - 1 - i])
  }

  /**
   * `compo`: `pauseLen` copies of the first frame, the frames forward,
   * `pauseLen` copies of the last frame, then the frames backward.
   */
  function Compo<F>(frames: seq<F>, pauseLen: nat): (compo: seq<F>)
    requires |frames| > 0
    ensures |compo| == 2 * pauseLen + 2 * |frames|
  {
    Repeat(frames[0], pauseLen) + frames + Repeat(frames[|frames| - 1], pauseLen) + Reverse(frames)
  }

  /** Which frame sits at position `i` of the loop. */
  function CompoSource(n: nat, pauseLen: nat, i: nat): (k: nat)
    requires n > 0 && i < 2 * pauseLen + 2 * n
    ensures k < n
  {
    if i < pauseLen then 0
    else if i < pauseLen + n then i - pauseLen
    else if i < 2 * pauseLen + n then n - 1
    else n - 1 - (i - 2 * pauseLen - n)
  }

  /** The four parts of the loop, position by position. */
  lemma CompoAt<F>(frames: seq<F>, pauseLen: nat, i: nat)
    requires |frames| > 0 && i < 2 * pauseLen + 2 * |frames|
    ensures Compo(frames, pauseLen)[i] == frames[CompoSource(|frames|, pauseLen, i)]
  {
  }

  /**
   * The loop is seamless: consecutive positions show the same or neighbouring
   * frames, and the last position and the first both show the first frame,
   * so the wrap-around does not jump either.
   */
  lemma CompoSeamless(n: nat, pauseLen: nat, i: nat)
    requires n > 0 && i + 1 < 2 * pauseLen + 2 * n
    ensures var k, k' := CompoSource(n, pauseLen, i), CompoSource(n, pauseLen, i + 1);
      k' == k || k' == k + 1 || k' + 1 == k
    ensures CompoSource(n, pauseLen, 0) == CompoSource(n, pauseLen, 2 * pauseLen + 2 * n - 1) == 0
  {
  }

  /** A frame as `Frame::from_parts(image, 0, 0, delay)` builds it. */
  datatype GifFrame<F> = GifFrame(image: F, left: nat, top: nat, delay: Delay)

  /** The frames handed to the encoder, in order, each with the single-frame delay. */
  function GifFrames<F>(frames: seq<F>, cli: Cli): (gif: seq<GifFrame<F>>)
    requires |frames| > 0
    ensures |gif| == 2 * cli.pauseLen as nat + 2 * |frames|
    ensures forall i :: 0 <= i < |gif| ==>
      gif[i] == GifFrame(Compo(frames, cli.pauseLen as nat)[i], 0, 0, cli.FrameDuration())
  {
    var compo := Compo(frames, cli.pauseLen as nat);
    seq(|compo|, i requires 0 <= i < |compo| => GifFrame(compo[i], 0, 0, cli.FrameDuration()))
  }

  /** The summed display time, in milliseconds, of frames whose delays have denominator 1. */
  function TotalMs<F>(gif: seq<GifFrame<F>>): nat {
    if gif == [] then 0 else gif[0].delay.numerMs + TotalMs(gif[1..])
  }

  lemma {:induction false} TotalMsUniform<F>(gif: seq<GifFrame<F>>, ms: nat)
    requires forall i :: 0 <= i < |gif| ==> gif[i].delay.numerMs == ms
    ensures TotalMs(gif) == |gif| * ms
  {
    if gif != [] {
      TotalMsUniform(gif[1..], ms);
    }
  }

  /**
   * Displayed time: the lead-in pause lasts as long as `pause_duration()`,
   * and the whole loop lasts `2 * pauseLen + 2 * |frames|` frame durations.
   */
  lemma LoopDuration<F>(frames: seq<F>, cli: Cli)
    requires |frames| > 0
    requires cli.frameDuration as int * cli.pauseLen as int < 0x1_0000_0000
    ensures var gif := GifFrames(frames, cli);
      TotalMs(gif[..cli.pauseLen]) == cli.PauseDuration().numerMs &&
      TotalMs(gif) == (2 * cli.pauseLen as nat + 2 * |frames|) * cli.frameDuration as nat
  {
    var gif := GifFrames(frames, cli);
    var ms := cli.frameDuration as nat;
    TotalMsUniform(gif, ms);
    TotalMsUniform(gif[..cli.pauseLen], ms);
  }

  /** With the defaults, the animation has 2 * 15 + 2 * 30 = 90 frames of 50 ms. */
  lemma DefaultAnimation<F>(cli: Cli, frames: seq<F>)
    requires cli == WithDefaults(cli.imgHuman, cli.imgOtter, cli.pointsCsv)
    requires |frames| == cli.interpLen
    ensures |GifFrames(frames, cli)| == 90
    ensures TotalMs(GifFrames(frames, cli)) == 4500
    ensures cli.PauseDuration() == Delay(750, 1)
  {
    LoopDuration(frames, cli);
  }
}
