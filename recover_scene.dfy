/** `getRecoverScene`: the whole dehazing pipeline. Min channel, dark
    channel and atmospheric light as in the other modules; then the
    transmission 1 - omega * dark / light floored at t0, and per channel the
    inverted scattering model (I - light) / t + light clamped to [0, 255] and
    truncated to 8 bits. Floating point is modelled by exact `real`
    arithmetic. */
module RecoverScene {
  import opened Grids
  import opened MinChannel
  import opened DarkChannel
  import opened AtmosphericLight

  /** `getRecoverScene` calls `getAtomsphericLight` with its default percent. */
  const DefaultPercent: real := 0.001

  // ---------------------------------------------------------------------
  // Per-pixel arithmetic
  // ---------------------------------------------------------------------

  /** The transmission of a pixel whose dark-channel value is `d`: the raw
      value 1 - omega * d / light, raised to t0 where it falls below it. */
  function RawTransmission(d: Byte, light: Byte, omega: real): real
    requires light > 0
  {
    1.0 - omega * (d as real) / (light as real)
  }

  function Transmission(d: Byte, light: Byte, omega: real, t0: real): (t: real)
    requires light > 0
    ensures t >= t0
    ensures t >= RawTransmission(d, light, omega)
    ensures t == t0 || t == RawTransmission(d, light, omega)
  {
    var raw := RawTransmission(d, light, omega);
    if raw < t0 then t0 else raw
  }

  /** With omega >= 0 and t0 <= 1 the transmission is a fraction: in [t0, 1]. */
  lemma TransmissionAtMostOne(d: Byte, light: Byte, omega: real, t0: real)
    requires light > 0 && omega >= 0.0 && t0 <= 1.0
    ensures t0 <= Transmission(d, light, omega, t0) <= 1.0
  {
    var q := omega * (d as real);
    assert q >= 0.0;
    assert q / (light as real) >= 0.0;
  }

  /** Hazier pixels (a larger dark channel) never get a larger transmission. */
  lemma TransmissionAntitone(d1: Byte, d2: Byte, light: Byte, omega: real, t0: real)
    requires light > 0 && omega >= 0.0 && d1 <= d2
    ensures Transmission(d2, light, omega, t0) <= Transmission(d1, light, omega, t0)
  {
    var l := light as real;
    assert omega * (d1 as real) <= omega * (d2 as real) by {
      assert omega * (d2 as real) - omega * (d1 as real) == omega * ((d2 - d1) as real);
    }
    assert omega * (d1 as real) / l <= omega * (d2 as real) / l;
  }

  /** Lines 59-60: values above 255 become 255, then values below 0 become 0. */
  function Clamp255(v: real): (c: real)
    ensures 0.0 <= c <= 255.0
    ensures 0.0 <= v <= 255.0 ==> c == v
    ensures v > 255.0 ==> c == 255.0
    ensures v < 0.0 ==> c == 0.0
  {
    var high := if v > 255.0 then 255.0 else v;
    if high < 0.0 then 0.0 else high
  }

  /** The inverted scattering model for one sample, before clamping. */
  function RawRadiance(i: Byte, light: Byte, t: real): real
    requires t > 0.0
  {
    ((i as real) - (light as real)) / t + (light as real)
  }

  /** One sample of the output image: the clamped radiance truncated to uint8. */
  function RecoveredSample(i: Byte, light: Byte, t: real): (s: Byte)
    requires t > 0.0
    ensures RawRadiance(i, light, t) >= 255.0 ==> s == 255
    ensures RawRadiance(i, light, t) <= 0.0 ==> s == 0
    ensures 0.0 <= RawRadiance(i, light, t) <= 255.0 ==>
      s as real <= RawRadiance(i, light, t) < s as real + 1.0
  {
    Clamp255(RawRadiance(i, light, t)).Floor
  }

  /** A sample equal to the atmospheric light is recovered unchanged. */
  lemma {:induction false} RecoveredSampleAtLight(v: Byte, t: real)
    requires t > 0.0
    ensures RecoveredSample(v, v, t) == v
  {
    assert RawRadiance(v, v, t) == v as real;
  }

  /** With t <= 1 the inversion stretches contrast away from the light: a
      sample brighter than the light never gets darker, a darker one never
      gets brighter. */
  lemma RecoveredSampleStretches(i: Byte, light: Byte, t: real)
    requires 0.0 < t <= 1.0
    ensures i >= light ==> RecoveredSample(i, light, t) >= i
    ensures i <= light ==> RecoveredSample(i, light, t) <= i
  {
    var diff := (i as real) - (light as real);
    var y := diff / t;
    assert y * t == diff;
    assert y - diff == y * (1.0 - t);
    assert RawRadiance(i, light, t) == y + (light as real);
    if diff >= 0.0 {
      assert y >= 0.0;
      ProductNonNegative(y, 1.0 - t);
    }
    if diff <= 0.0 {
      assert -y >= 0.0;
      ProductNonNegative(-y, 1.0 - t);
      assert y * (1.0 - t) == -((-y) * (1.0 - t));
    }
  }

  // ---------------------------------------------------------------------
  // The pipeline as a function of the input image
  // ---------------------------------------------------------------------

  /** The recovered image for a given dark channel and atmospheric light. */
  function DehazedImage(img: Image, dark: Grid, light: Byte, omega: real, t0: real): (out: Image)
    requires IsImage(img) && IsGrid(dark, |img|, Width(img))
    requires light > 0 && t0 > 0.0
    ensures IsGrid(out, |img|, Width(img))
    ensures forall i, j | 0 <= i < |img| && 0 <= j < Width(img) :: |out[i][j]| == 3
  {
    seq(|img|, i requires 0 <= i < |img| =>
      seq(Width(img), j requires 0 <= j < Width(img) =>
        seq(3, c requires 0 <= c < 3 =>
          RecoveredSample(img[i][j][c], light, Transmission(dark[i][j], light, omega, t0)))))
  }

  lemma DehazedImageAt(img: Image, dark: Grid, light: Byte, omega: real, t0: real, i: nat, j: nat, c: nat)
    requires IsImage(img) && IsGrid(dark, |img|, Width(img))
    requires light > 0 && t0 > 0.0
    requires i < |img| && j < Width(img) && c < 3
    ensures DehazedImage(img, dark, light, omega, t0)[i][j][c] ==
      RecoveredSample(img[i][j][c], light, Transmission(dark[i][j], light, omega, t0))
  {
  }

  /** The default percent never asks for more pixels than the image has. */
  lemma {:induction false} DefaultSelectionFits(size: nat)
    ensures SelectionCount(DefaultPercent, size) <= size
  {
    assert DefaultPercent * size as real <= size as real;
  }

  /** The default percent takes one pixel in a thousand, rounded down: an
      image of fewer than 1000 pixels selects none. */
  lemma {:induction false} DefaultSelectionCount(size: nat)
    ensures Taken(DefaultPercent, size) == size / 1000
  {
    var q, r := size / 1000, size % 1000;
    assert size == 1000 * q + r;
    var x := DefaultPercent * size as real;
    assert x == q as real + (r as real) / 1000.0;
    assert q as real <= x < q as real + 1.0;
    assert x.Floor == q;
  }

  /** What `getRecoverScene` computes, or None where the atmospheric light is
      0, that is where every sample of the selected pixels is 0. */
  function RecoverSceneOf(img: Image, omega: real, t0: real, blockSize: int): (r: Option<Image>)
    requires IsImage(img) && blockSize >= 1 && t0 > 0.0
    ensures r.None? <==>
      SelectionIsBlack(img, DarkChannelOf(GetMinChannel(img), blockSize), Taken(DefaultPercent, |img| * Width(img)))
    ensures r.Some? ==> IsGrid(r.value, |img|, Width(img))
  {
    var dark := DarkChannelOf(GetMinChannel(img), blockSize);
    var k := Taken(DefaultPercent, |img| * Width(img));
    var light := AtmosphericLightOf(img, dark, k);
    LightZeroIffBlack(img, dark, k);
    if light == 0 then None else Some(DehazedImage(img, dark, light, omega, t0))
  }

  /** An image of fewer than 1000 pixels selects no pixel, so its light is 0
      and the pipeline has no result. */
  lemma SmallImageHasNoResult(img: Image, omega: real, t0: real, blockSize: int)
    requires IsImage(img) && blockSize >= 1 && t0 > 0.0
    requires |img| * Width(img) < 1000
    ensures RecoverSceneOf(img, omega, t0, blockSize) == None
  {
    DefaultSelectionCount(|img| * Width(img));
  }

  // ---------------------------------------------------------------------
  // getRecoverScene as written
  // ---------------------------------------------------------------------

  /** The transmission map of lines 52-54: computed elementwise, then every
      entry below t0 overwritten with t0. */
  method TransmissionMap(dark: array2<Byte>, light: Byte, omega: real, t0: real) returns (transmission: array2<real>)
    requires light > 0
    ensures fresh(transmission)
    ensures transmission.Length0 == dark.Length0 && transmission.Length1 == dark.Length1
    ensures forall i, j | 0 <= i < dark.Length0 && 0 <= j < dark.Length1 ::
      transmission[i, j] == Transmission(dark[i, j], light, omega, t0)
  {
    transmission := new real[dark.Length0, dark.Length1];
    forall i, j | 0 <= i < dark.Length0 && 0 <= j < dark.Length1 {
      transmission[i, j] := RawTransmission(dark[i, j], light, omega);
    }
    assert forall i, j | 0 <= i < dark.Length0 && 0 <= j < dark.Length1 ::
      transmission[i, j] == RawTransmission(dark[i, j], light, omega);
    forall i, j | 0 <= i < dark.Length0 && 0 <= j < dark.Length1 && transmission[i, j] < t0 {
      transmission[i, j] := t0;
    }
  }

  /** Lines 55-61: per channel, the inverted model clamped to [0, 255], then
      the conversion to uint8. */
  method Radiance(img: Image, transmission: array2<real>, light: Byte) returns (out: array3<Byte>)
    requires IsImage(img)
    requires transmission.Length0 == |img| && transmission.Length1 == Width(img)
    requires forall i, j | 0 <= i < |img| && 0 <= j < Width(img) :: transmission[i, j] > 0.0
    ensures fresh(out)
    ensures out.Length0 == |img| && out.Length1 == Width(img) && out.Length2 == 3
    ensures forall i, j, c | 0 <= i < |img| && 0 <= j < Width(img) && 0 <= c < 3 ::
      out[i, j, c] == RecoveredSample(img[i][j][c], light, transmission[i, j])
  {
    var h, w := |img|, Width(img);
    var scene := new real[h, w, 3];
    for c := 0 to 3
      invariant forall i, j, c' | 0 <= i < h && 0 <= j < w && 0 <= c' < c ::
        scene[i, j, c'] == Clamp255(RawRadiance(img[i][j][c'], light, transmission[i, j]))
    {
      forall i, j | 0 <= i < h && 0 <= j < w {
        scene[i, j, c] := ((img[i][j][c] as real) - (light as real)) / transmission[i, j] + (light as real);
      }
      forall i, j | 0 <= i < h && 0 <= j < w && scene[i, j, c] > 255.0 {
        scene[i, j, c] := 255.0;
      }
      forall i, j | 0 <= i < h && 0 <= j < w && scene[i, j, c] < 0.0 {
        scene[i, j, c] := 0.0;
      }
    }
    out := new Byte[h, w, 3];
    forall i, j, c | 0 <= i < h && 0 <= j < w && 0 <= c < 3 {
      out[i, j, c] := scene[i, j, c].Floor;
    }
  }

  /** RecoverSceneOf unfolded for a given dark channel and atmospheric light. */
  lemma RecoverSceneOfUnfold(img: Image, omega: real, t0: real, blockSize: int, dark: Grid, light: Byte)
    requires IsImage(img) && blockSize >= 1 && t0 > 0.0
    requires dark == DarkChannelOf(GetMinChannel(img), blockSize)
    requires Taken(DefaultPercent, |img| * Width(img)) <= |img| * Width(img)
    requires light == AtmosphericLightOf(img, dark, Taken(DefaultPercent, |img| * Width(img)))
    ensures light == 0 ==> RecoverSceneOf(img, omega, t0, blockSize) == None
    ensures light > 0 ==> RecoverSceneOf(img, omega, t0, blockSize) == Some(DehazedImage(img, dark, light, omega, t0))
  {
  }

  /** Lines 52-61 for a known dark channel and a non-zero atmospheric light. */
  method Dehaze(img: Image, imgDark: array2<Byte>, ghost dark: Grid, light: Byte, omega: real, t0: real)
    returns (out: array3<Byte>)
    requires IsImage(img) && IsGrid(dark, |img|, Width(img)) && light > 0 && t0 > 0.0
    requires imgDark.Length0 == |img| && imgDark.Length1 == Width(img)
    requires forall i, j | 0 <= i < |img| && 0 <= j < Width(img) :: imgDark[i, j] == dark[i][j]
    ensures fresh(out)
    ensures out.Length0 == |img| && out.Length1 == Width(img) && out.Length2 == 3
    ensures forall i, j, c | 0 <= i < |img| && 0 <= j < Width(img) && 0 <= c < 3 ::
      out[i, j, c] == DehazedImage(img, dark, light, omega, t0)[i][j][c]
  {
    var transmission := TransmissionMap(imgDark, light, omega, t0);
    out := Radiance(img, transmission, light);
    forall i, j, c | 0 <= i < |img| && 0 <= j < Width(img) && 0 <= c < 3
      ensures out[i, j, c] == DehazedImage(img, dark, light, omega, t0)[i][j][c]
    {
      DehazedImageAt(img, dark, light, omega, t0, i, j, c);
    }
  }

  method GetRecoverScene(img: Image, omega: real, t0: real, blockSize: int) returns (r: Option<array3<Byte>>)
    requires IsImage(img) && blockSize >= 1 && blockSize % 2 == 1 && t0 > 0.0
    ensures r.None? <==> RecoverSceneOf(img, omega, t0, blockSize).None?
    ensures r.Some? ==> fresh(r.value)
    ensures r.Some? ==>
      r.value.Length0 == |img| && r.value.Length1 == Width(img) && r.value.Length2 == 3 &&
      forall i, j, c | 0 <= i < |img| && 0 <= j < Width(img) && 0 <= c < 3 ::
        r.value[i, j, c] == RecoverSceneOf(img, omega, t0, blockSize).value[i][j][c]
  {
    var imgGray := GetMinChannel(img);
    var imgDark := GetDarkChannel(imgGray, blockSize);
    ghost var dark := DarkChannelOf(imgGray, blockSize);
    assert forall i, j | 0 <= i < |img| && 0 <= j < Width(img) :: imgDark[i, j] == dark[i][j];
    assert forall i, j | 0 <= i < |img| && 0 <= j < Width(img) :: GridOf(imgDark)[i][j] == dark[i][j];
    GridExtensionality(GridOf(imgDark), dark, |img|, Width(img));
    DefaultSelectionFits(|img| * Width(img));
    var light := GetAtmosphericLight(imgDark, img, DefaultPercent);
    RecoverSceneOfUnfold(img, omega, t0, blockSize, dark, light);
    if light == 0 {
      return None;
    }
    var out := Dehaze(img, imgDark, dark, light, omega, t0);
    r := Some(out);
  }

  // ---------------------------------------------------------------------
  // The uniform image
  // ---------------------------------------------------------------------

  /** Dehazing a uniform image against its own value as the light changes
      nothing, whatever the transmission. */
  lemma {:induction false} DehazedUniform(img: Image, dark: Grid, v: Byte, omega: real, t0: real)
    requires IsImage(img) && IsGrid(dark, |img|, Width(img)) && v > 0 && t0 > 0.0
    requires forall i, j, c | 0 <= i < |img| && 0 <= j < Width(img) && 0 <= c < 3 :: img[i][j][c] == v
    ensures DehazedImage(img, dark, v, omega, t0) == img
  {
    var out := DehazedImage(img, dark, v, omega, t0);
    forall i | 0 <= i < |img|
      ensures out[i] == img[i]
    {
      forall j | 0 <= j < Width(img)
        ensures out[i][j] == img[i][j]
      {
        forall c | 0 <= c < 3
          ensures out[i][j][c] == img[i][j][c]
        {
          DehazedImageAt(img, dark, v, omega, t0, i, j, c);
          RecoveredSampleAtLight(v, Transmission(dark[i][j], v, omega, t0));
        }
      }
    }
  }

  /** A uniform image of a non-zero value is its own dehazed image, whenever
      at least one pixel is selected for the atmospheric light. */
  lemma UniformImageIsFixedPoint(img: Image, v: Byte, omega: real, t0: real, blockSize: int)
    requires IsImage(img) && blockSize >= 1 && t0 > 0.0
    requires forall i, j, c | 0 <= i < |img| && 0 <= j < Width(img) && 0 <= c < 3 :: img[i][j][c] == v
    requires v > 0 && Taken(DefaultPercent, |img| * Width(img)) >= 1
    ensures RecoverSceneOf(img, omega, t0, blockSize) == Some(img)
  {
    var dark := DarkChannelOf(GetMinChannel(img), blockSize);
    var k := Taken(DefaultPercent, |img| * Width(img));
    DefaultSelectionFits(|img| * Width(img));
    var light := AtmosphericLightOf(img, dark, k);
    assert light == v by {
      var sel := Selected(img, dark, k);
      var p :| 0 <= p < k && light in img[sel[p].x][sel[p].y];
    }
    RecoverSceneOfUnfold(img, omega, t0, blockSize, dark, light);
    DehazedUniform(img, dark, v, omega, t0);
  }
}
