// water.py: find_rainclouds, the per-forecast analysis that turns the
// precipitable-water field into the rainbow mask.  The cloud mask (contrast
// push, threshold 191) is moved so that the point under the sun sits in the
// middle column, inverted, barrel distorted by ImageMagick, pasted onto
// itself, moved back, and finally blanked (255) wherever the sun window mask
// is black.  Black (0) pixels of the result are predicted rainbows.
//
// Opaque inputs: the greyscale values prec2color gives for the GRIB data
// (already clipped to 0..255 by putdata), the contrast enhancement, the
// solar altitude function (pysolar, at the forecast's instant) and the
// barrel distortion (an external process whose output may be missing).

module Water {
  import opened Raster
  import opened Text
  import opened Listing
  import Settings

  /** The GRIB header fields find_rainclouds reads: origin, spacing, size. */
  datatype Header = Header(l0: real, ph0: real, dl: real, dph: real, ni: nat, nj: nat)

  // ---- the altitude loop (lines 139-144) ----

  /** The latitude of call number k: the latitude advances once per row of ni calls. */
  function CallLatitude(h: Header, k: nat): real {
    if h.ni == 0 then h.ph0 else h.ph0 + (k / h.ni) as real * h.dph
  }

  /** The longitude of call number k: it advances once per call and is never reset at
      the start of a row. */
  function CallLongitude(h: Header, k: nat): real {
    h.l0 + k as real * h.dl
  }

  /** alts holds one altitude per grid point, call k made at (CallLatitude, CallLongitude). */
  predicate AltitudesOf(h: Header, altitude: (real, real) -> real, alts: seq<real>) {
    |alts| == h.ni * h.nj &&
    forall k :: 0 <= k < |alts| ==> alts[k] == altitude(CallLatitude(h, k), CallLongitude(h, k))
  }

  /** Call j * ni + i, the i-th of row j, receives latitude ph0 + j * dph and longitude
      l0 + (j * ni + i) * dl. */
  lemma CallOfRowAndColumn(h: Header, j: nat, i: nat)
    requires i < h.ni
    ensures CallLatitude(h, j * h.ni + i) == h.ph0 + j as real * h.dph
    ensures CallLongitude(h, j * h.ni + i) == h.l0 + (j * h.ni + i) as real * h.dl
  {
    DivModUnique(j * h.ni + i, h.ni, j, i);
  }

  /** The nested loop that appends get_altitude_fast(latitude, longitude, DATE). */
  method SolarAltitudes(h: Header, altitude: (real, real) -> real) returns (alts: seq<real>)
    ensures AltitudesOf(h, altitude, alts)
  {
    alts := [];
    var latitude, longitude := h.ph0, h.l0;
    for j := 0 to h.nj
      invariant |alts| == j * h.ni
      invariant latitude == h.ph0 + j as real * h.dph
      invariant longitude == h.l0 + (j * h.ni) as real * h.dl
      invariant forall k :: 0 <= k < |alts| ==> alts[k] == altitude(CallLatitude(h, k), CallLongitude(h, k))
    {
      for i := 0 to h.ni
        invariant |alts| == j * h.ni + i
        invariant longitude == h.l0 + (j * h.ni + i) as real * h.dl
        invariant forall k :: 0 <= k < |alts| ==> alts[k] == altitude(CallLatitude(h, k), CallLongitude(h, k))
      {
        CallOfRowAndColumn(h, j, i);
        alts := alts + [altitude(latitude, longitude)];
        longitude := longitude + h.dl;
      }
      assert (j + 1) * h.ni == j * h.ni + h.ni;
      latitude := latitude + h.dph;
    }
  }

  // ---- altitude2colors and the sun window mask (lines 146-157) ----

  /** altitude2colors: white where the sun is up but lower than 42 degrees. */
  function SunColor(altitude: real): (c: Pixel)
    ensures c == 0 || c == 255
  {
    if 42.0 > altitude > 0.0 then 255 else 0
  }

  function SunColors(alts: seq<real>): (colors: seq<Pixel>)
    ensures |colors| == |alts|
    ensures forall k :: 0 <= k < |alts| ==> (colors[k] == 255 <==> 0.0 < alts[k] < 42.0)
  {
    seq(|alts|, k requires 0 <= k < |alts| => SunColor(alts[k]))
  }

  // ---- the sun's cell (lines 163-171) ----

  /** altitudes.index(max(altitudes)): the first index of the largest altitude. */
  method IndexOfMax(alts: seq<real>) returns (k: nat)
    requires |alts| > 0
    ensures k < |alts|
    ensures forall j :: 0 <= j < |alts| ==> alts[j] <= alts[k]
    ensures forall j :: 0 <= j < k ==> alts[j] < alts[k]
  {
    k := 0;
    for j := 1 to |alts|
      invariant k < j
      invariant forall j' :: 0 <= j' < j ==> alts[j'] <= alts[k]
      invariant forall j' :: 0 <= j' < k ==> alts[j'] < alts[k]
    {
      if alts[j] > alts[k] {
        k := j;
      }
    }
  }

  /** sun_y = sun_i // ni */
  function SunY(sunI: nat, ni: nat): nat
    requires ni > 0
  {
    sunI / ni
  }

  /** sun_x = (sun_i + ni // 2) % ni */
  function SunX(sunI: nat, ni: nat): nat
    requires ni > 0
  {
    (sunI + ni / 2) % ni
  }

  /** translate_x = middle - sun_x */
  function TranslateX(sunX: nat, ni: nat): int {
    ni / 2 - sunX
  }

  /** The sun's cell lies on the grid, and sun_x is the column the half-width offset of
      the sun mask moves the sun's own column sun_i % ni to. */
  lemma SunCellOnGrid(sunI: nat, ni: nat, nj: nat)
    requires ni > 0 && sunI < ni * nj
    ensures SunY(sunI, ni) < nj && SunX(sunI, ni) < ni
    ensures SunX(sunI, ni) == (sunI % ni + ni / 2) % ni
    ensures sunI == SunY(sunI, ni) * ni + sunI % ni
  {
    var y, c := sunI / ni, sunI % ni;
    assert sunI == y * ni + c;
    if y >= nj {
      MulMono(nj, y, ni);
      assert false;
    }
    DivModUnique(sunI + ni / 2, ni, y + (c + ni / 2) / ni, (c + ni / 2) % ni);
  }

  /** Moving by translate_x takes the sun's column to the middle column, the centre handed
      to the barrel distortion (sun_x + translate_x == ni // 2). */
  lemma TranslationCentresSun(img: Image, ni: nat, sunX: nat, y: nat)
    requires IsImage(img, ni, |img|) && sunX < ni && y < |img|
    ensures sunX + TranslateX(sunX, ni) == ni / 2
    ensures Offset(img, TranslateX(sunX, ni))[y][ni / 2] == img[y][sunX]
  {
    OffsetMoves(img, TranslateX(sunX, ni), y, sunX);
    DivModUnique(ni / 2, ni, 0, ni / 2);
  }

  // ---- the masks, as functions of the inputs ----

  /** The sun mask after putdata, offset by half the width and putpixel at the sun. */
  function SunMask(alts: seq<real>, ni: nat, nj: nat, sunX: nat, sunY: nat): (m: Image)
    requires sunX < ni && sunY < nj
    ensures IsImage(m, ni, nj)
  {
    WithPixel(Offset(PutData(Blank(ni, nj), ni, SunColors(alts)), ni / 2), sunX, sunY, 255)
  }

  /** The thresholded cloud mask moved by translate_x and inverted: the image handed to
      the barrel distortion (line 178). */
  function CentredClouds(enhanced: Image, t: int): (img: Image)
    ensures SameShape(img, enhanced)
  {
    Invert(Offset(Threshold(enhanced), t))
  }

  /** The final mask: the distorted clouds pasted onto the centred ones with themselves
      as mask (line 193), moved back (line 196), and the inverted sun mask pasted with
      itself as mask (line 201). */
  function RainbowMask(centred: Image, extruded: Image, t: int, sunMask: Image): (m: Image)
    requires SameShape(centred, extruded) && SameShape(centred, sunMask)
    ensures SameShape(m, centred)
  {
    var back := Offset(Pasted(centred, extruded, extruded), -t);
    Pasted(back, Invert(sunMask), Invert(sunMask))
  }

  /** A sun-mask pixel is white exactly at the sun's own cell and where the altitude of
      the cell half a width to the left (with wrap-around) is strictly between 0 and 42;
      every other pixel is black. */
  lemma {:induction false} SunMaskMeaning(alts: seq<real>, ni: nat, nj: nat, sunX: nat, sunY: nat, y: nat, x: nat)
    requires |alts| == ni * nj && sunX < ni && sunY < nj && y < nj && x < ni
    ensures y * ni + (x - ni / 2) % ni < |alts|
    ensures var m := SunMask(alts, ni, nj, sunX, sunY)[y][x];
      && (m == 0 || m == 255)
      && (m == 255 <==> (x == sunX && y == sunY) || 0.0 < alts[y * ni + (x - ni / 2) % ni] < 42.0)
  {
    var c := (x - ni / 2) % ni;
    var colors := SunColors(alts);
    PutDataFull(Blank(ni, nj), ni, nj, colors, y, c);
  }

  /** The sun mask is two-valued. */
  lemma SunMaskIsBinary(alts: seq<real>, ni: nat, nj: nat, sunX: nat, sunY: nat)
    requires |alts| == ni * nj && sunX < ni && sunY < nj
    ensures IsBinary(SunMask(alts, ni, nj, sunX, sunY))
  {
    forall y, x | 0 <= y < nj && 0 <= x < ni
      ensures SunMask(alts, ni, nj, sunX, sunY)[y][x] in {0, 255}
    {
      SunMaskMeaning(alts, ni, nj, sunX, sunY, y, x);
    }
  }

  /** A pixel of the final mask, for any centred image: white where the sun mask is
      black or the distorted image is white at the matching centred column, else the
      centred image's pixel there. */
  lemma RainbowMaskAt(centred: Image, extruded: Image, t: int, sunMask: Image, w: nat, h: nat, y: nat, x: nat)
    requires IsImage(centred, w, h) && IsImage(extruded, w, h) && IsImage(sunMask, w, h)
    requires IsBinary(extruded) && IsBinary(sunMask) && y < h && x < w
    ensures (x + t) % w < w
    ensures RainbowMask(centred, extruded, t, sunMask)[y][x] ==
      if sunMask[y][x] == 0 || extruded[y][(x + t) % w] == 255 then 255 else centred[y][(x + t) % w]
  {
    var c := (x + t) % w;
    ModShift(x, t, w);
    var inner := Pasted(centred, extruded, extruded);
    PastedSelects(centred, extruded, extruded, y, c);
    var back := Offset(inner, -t);
    OffsetAt(inner, -t, y, x);
    var inv := Invert(sunMask);
    InvertInvolution(sunMask);
    PastedSelects(back, inv, inv, y, x);
  }

  /** A pixel of the final mask, for a two-valued distortion and sun mask: white (no
      rainbow) where the sun mask is black, where the enhanced image is not brighter than
      the threshold (no cloud), or where the distorted image, seen from the centred
      frame, is white; black (a rainbow) otherwise. */
  lemma RainbowPixel(enhanced: Image, extruded: Image, t: int, sunMask: Image,
                     w: nat, h: nat, y: nat, x: nat)
    requires IsImage(enhanced, w, h) && IsImage(extruded, w, h) && IsImage(sunMask, w, h)
    requires IsBinary(extruded) && IsBinary(sunMask) && y < h && x < w
    ensures (x + t) % w < w
    ensures RainbowMask(CentredClouds(enhanced, t), extruded, t, sunMask)[y][x] ==
      if sunMask[y][x] == 0 || enhanced[y][x] <= CloudThreshold || extruded[y][(x + t) % w] == 255
      then 255 else 0
  {
    var c := (x + t) % w;
    ModShift(x, t, w);
    var th := Threshold(enhanced);
    OffsetAt(th, t, y, c);
    var centred := CentredClouds(enhanced, t);
    assert centred[y][c] == 255 - th[y][x];
    RainbowMaskAt(centred, extruded, t, sunMask, w, h, y, x);
  }

  /** The final mask is two-valued whenever the distortion and the sun mask are. */
  lemma RainbowMaskIsBinary(enhanced: Image, extruded: Image, t: int, sunMask: Image, w: nat, h: nat)
    requires IsImage(enhanced, w, h) && IsImage(extruded, w, h) && IsImage(sunMask, w, h)
    requires IsBinary(extruded) && IsBinary(sunMask)
    ensures IsBinary(RainbowMask(CentredClouds(enhanced, t), extruded, t, sunMask))
  {
    var m := RainbowMask(CentredClouds(enhanced, t), extruded, t, sunMask);
    forall y, x | 0 <= y < |m| && 0 <= x < |m[y]|
      ensures m[y][x] == 0 || m[y][x] == 255
    {
      RainbowPixel(enhanced, extruded, t, sunMask, w, h, y, x);
    }
  }

  // ---- files written ----

  function PwatPng(kind: string, slug: string): string {
    "GFS_half_degree." + kind + slug + ".pwat.png"
  }

  /** The files the analysis writes before the barrel distortion, in order (lines 120,
      125, 160, 173 and 178). */
  function EarlyArtifacts(slug: string): seq<string> {
    [PwatPng("clouds_greyscale.", slug), PwatPng("clouds_alpha.", slug), PwatPng("sun_mask.", slug),
     "GFS_half_degree.cloud_mask." + slug + ".pwat.not-inverted.png", PwatPng("cloud_mask.", slug)]
  }

  /** The files written from the distortion on (lines 188, 199, 209 and 213). */
  function LateArtifacts(slug: string): seq<string> {
    [PwatPng("cloud_mask.extruded.", slug), "GFS_half_degree." + slug + ".pwat.without-sun-mask.png",
     PwatPng("", slug), PwatPng("clouds_greymasked.", slug)]
  }

  function JsonName(slug: string): string {
    "GFS_half_degree." + slug + ".pwat.json"
  }

  datatype Outcome =
    | BadSlug
      // the slug is not a "%Y%m%d%H" date: strptime raises ValueError (line 43)
    | GribMissing
      // the GRIB file is absent: return False before writing anything
    | ConversionFailed
      // grib2json missing or failing: sys.exit()
    | Crashed(written: seq<string>, altitudes: seq<real>, sunI: nat, sunX: nat, sunY: nat)
      // the distortion produced no readable image: Image.open raises
    | Finished(written: seq<string>, altitudes: seq<real>, sunI: nat, sunX: nat, sunY: nat,
               sunMask: Image, mask: Image, greymasked: Image)

  /** The inputs of one analysis besides the GRIB header. */
  datatype Inputs = Inputs(
    gribPresent: bool, jsonPresent: bool, conversionOk: bool,
    greyData: seq<Pixel>,
    enhance: Image -> Image,
    altitude: (real, real) -> real,
    barrel: (Image, int, int) -> Option<Image>)

  /** The opaque image operations keep the size of the image they are given. */
  ghost predicate SizePreserving(h: Header, inp: Inputs) {
    (forall img :: IsImage(img, h.ni, h.nj) ==> IsImage(inp.enhance(img), h.ni, h.nj)) &&
    (forall img, cx, cy :: IsImage(img, h.ni, h.nj) && inp.barrel(img, cx, cy).Some? ==>
       IsImage(inp.barrel(img, cx, cy).value, h.ni, h.nj))
  }

  /** Lines 152-167: the sun window mask, offset by half the width, with the sun's own
      cell forced white. */
  method SunMaskOf(alts: seq<real>, ni: nat, nj: nat) returns (sunI: nat, sunX: nat, sunY: nat, sunMask: Image)
    requires ni > 0 && nj > 0 && |alts| == ni * nj
    ensures sunI < |alts|
    ensures forall k :: 0 <= k < |alts| ==> alts[k] <= alts[sunI]
    ensures forall k :: 0 <= k < sunI ==> alts[k] < alts[sunI]
    ensures sunX == SunX(sunI, ni) && sunY == SunY(sunI, ni) && sunX < ni && sunY < nj
    ensures sunMask == SunMask(alts, ni, nj, sunX, sunY)
  {
    var sunCanvas := new Canvas.New(ni, nj);
    sunCanvas.PutDataIn(SunColors(alts));
    var shifted := new Canvas.FromPixels(Offset(sunCanvas.Content(), ni / 2), ni, nj);
    sunI := IndexOfMax(alts);
    SunCellOnGrid(sunI, ni, nj);
    sunY := sunI / ni;
    sunX := (sunI + ni / 2) % ni;
    shifted.PutPixel(sunX, sunY, 255);
    sunMask := shifted.Content();
  }

  /** Lines 193-201: paste the distorted clouds onto the centred ones, move the result
      back and blank it where the sun mask is black. */
  method Composite(centred: Image, extruded: Image, t: int, sunMask: Image, ni: nat, nj: nat) returns (mask: Image)
    requires IsImage(centred, ni, nj) && IsImage(extruded, ni, nj) && IsImage(sunMask, ni, nj)
    ensures mask == RainbowMask(centred, extruded, t, sunMask)
  {
    var cloudCanvas := new Canvas.FromPixels(centred, ni, nj);
    cloudCanvas.Paste(extruded, extruded);
    var finalCanvas := new Canvas.FromPixels(Offset(cloudCanvas.Content(), -t), ni, nj);
    var sunInverted := Invert(sunMask);
    finalCanvas.Paste(sunInverted, sunInverted);
    mask := finalCanvas.Content();
  }

  /** The greyscale image after the paste of line 133 and the sun mask of line 211. */
  function GreyMasked(grey: Image, cloud: Image, sunMask: Image): Image
    requires SameShape(grey, cloud) && SameShape(grey, sunMask)
  {
    Pasted(Pasted(grey, cloud, cloud), Invert(sunMask), Invert(sunMask))
  }

  /** The greyscale image of the GRIB data (line 116). */
  function GreyOf(h: Header, inp: Inputs): Image {
    PutData(Blank(h.ni, h.nj), h.ni, inp.greyData)
  }

  /** The altitudes of the loop, and the sun's index (the first maximum) and cell. */
  ghost predicate SunFoundAs(h: Header, inp: Inputs, alts: seq<real>, sunI: nat, sunX: nat, sunY: nat)
    requires h.ni > 0
  {
    && AltitudesOf(h, inp.altitude, alts)
    && sunI < |alts|
    && (forall k :: 0 <= k < |alts| ==> alts[k] <= alts[sunI])
    && (forall k :: 0 <= k < sunI ==> alts[k] < alts[sunI])
    && sunX == SunX(sunI, h.ni) && sunY == SunY(sunI, h.ni) && sunX < h.ni && sunY < h.nj
  }

  /** A crash: the sun was found, and the distortion of the centred clouds around it
      yields no image. */
  ghost predicate CrashedAs(h: Header, inp: Inputs, o: Outcome)
    requires o.Crashed? && h.ni > 0
  {
    && SunFoundAs(h, inp, o.altitudes, o.sunI, o.sunX, o.sunY)
    && inp.barrel(CentredClouds(inp.enhance(GreyOf(h, inp)), TranslateX(o.sunX, h.ni)), h.ni / 2, o.sunY).None?
  }

  /** The result of the analysis, stated on the values it starts from. */
  ghost predicate FinishedAs(slug: string, h: Header, inp: Inputs, o: Outcome)
    requires o.Finished? && h.ni > 0
  {
    var grey := GreyOf(h, inp);
    var cloud := Threshold(inp.enhance(grey));
    var t := TranslateX(o.sunX, h.ni);
    var centred := CentredClouds(inp.enhance(grey), t);
    && SunFoundAs(h, inp, o.altitudes, o.sunI, o.sunX, o.sunY)
    && o.sunMask == SunMask(o.altitudes, h.ni, h.nj, o.sunX, o.sunY)
    && IsImage(cloud, h.ni, h.nj) && IsImage(grey, h.ni, h.nj)
    && inp.barrel(centred, h.ni / 2, o.sunY).Some?
    && IsImage(inp.barrel(centred, h.ni / 2, o.sunY).value, h.ni, h.nj)
    && o.mask == RainbowMask(centred, inp.barrel(centred, h.ni / 2, o.sunY).value, t, o.sunMask)
    && o.greymasked == GreyMasked(grey, cloud, o.sunMask)
  }

  /** Lines 130-133: the greyscale precipitable-water image, contrast-enhanced and
      thresholded into the cloud image, which is pasted onto the greyscale through itself. */
  method CloudsOf(h: Header, inp: Inputs) returns (greyCanvas: Canvas, grey: Image, cloud: Image)
    requires h.ni > 0 && h.nj > 0 && |inp.greyData| == h.ni * h.nj
    requires SizePreserving(h, inp)
    ensures fresh(greyCanvas) && fresh(greyCanvas.px) && greyCanvas.Valid()
    ensures greyCanvas.width == h.ni && greyCanvas.height == h.nj
    ensures grey == GreyOf(h, inp) && IsImage(grey, h.ni, h.nj)
    ensures cloud == Threshold(inp.enhance(grey)) && IsImage(cloud, h.ni, h.nj)
    ensures greyCanvas.Content() == Pasted(grey, cloud, cloud)
  {
    greyCanvas := new Canvas.New(h.ni, h.nj);
    greyCanvas.PutDataIn(inp.greyData);
    grey := greyCanvas.Content();
    var enhanced := inp.enhance(grey);
    assert IsImage(enhanced, h.ni, h.nj);
    cloud := Threshold(enhanced);
    greyCanvas.Paste(cloud, cloud);
  }

  /** Lines 180-213: distort the centred clouds around the sun, build the rainbow mask and
      mask the greyscale image with the sun window; None when the distortion yields no image. */
  method Distort(h: Header, inp: Inputs, greyCanvas: Canvas, cloud: Image,
                 sunX: nat, sunY: nat, sunMask: Image)
      returns (mask: Option<Image>, greymasked: Image)
    requires h.ni > 0 && SizePreserving(h, inp)
    requires greyCanvas.Valid() && greyCanvas.width == h.ni && greyCanvas.height == h.nj
    requires IsImage(cloud, h.ni, h.nj) && IsImage(sunMask, h.ni, h.nj) && sunX < h.ni
    modifies greyCanvas.px
    ensures var centred := Invert(Offset(cloud, TranslateX(sunX, h.ni)));
      && (mask.None? <==> inp.barrel(centred, h.ni / 2, sunY).None?)
      && (mask.Some? ==>
            IsImage(inp.barrel(centred, h.ni / 2, sunY).value, h.ni, h.nj) &&
            mask.value == RainbowMask(centred, inp.barrel(centred, h.ni / 2, sunY).value, TranslateX(sunX, h.ni), sunMask) &&
            greymasked == Pasted(old(greyCanvas.Content()), Invert(sunMask), Invert(sunMask)))
  {
    var ni, nj := h.ni, h.nj;
    var translateX: int := ni / 2 - sunX;
    var centred := Invert(Offset(cloud, translateX));
    assert sunX + translateX == ni / 2;
    var extruded := inp.barrel(centred, ni / 2, sunY);
    if extruded.None? {
      return None, [];
    }
    assert IsImage(extruded.value, ni, nj);
    var m := Composite(centred, extruded.value, translateX, sunMask, ni, nj);
    var sunInverted := Invert(sunMask);
    greyCanvas.Paste(sunInverted, sunInverted);
    greymasked := greyCanvas.Content();
    mask := Some(m);
  }

  /** find_rainclouds(slug) */
  method FindRainclouds(slug: string, h: Header, inp: Inputs) returns (o: Outcome)
    requires h.ni > 0 && h.nj > 0 && |inp.greyData| == h.ni * h.nj
    requires SizePreserving(h, inp)
    ensures o == BadSlug <==> Settings.ParseSlugDate(slug).None?
    ensures o == GribMissing <==> Settings.ParseSlugDate(slug).Some? && !inp.gribPresent
    ensures o == ConversionFailed <==>
              Settings.ParseSlugDate(slug).Some? && inp.gribPresent && !inp.jsonPresent && !inp.conversionOk
    ensures o.Crashed? ==> o.written == (if inp.jsonPresent then [] else [JsonName(slug)]) + EarlyArtifacts(slug)
    ensures o.Crashed? ==> CrashedAs(h, inp, o)
    ensures o.Finished? ==> o.written == (if inp.jsonPresent then [] else [JsonName(slug)]) + EarlyArtifacts(slug) + LateArtifacts(slug)
    ensures o.Finished? ==> FinishedAs(slug, h, inp, o)
  {
    if Settings.ParseSlugDate(slug).None? {
      return BadSlug;
    }
    if !inp.gribPresent {
      return GribMissing;
    }
    if !inp.jsonPresent && !inp.conversionOk {
      return ConversionFailed;
    }
    var pre: seq<string> := if inp.jsonPresent then [] else [JsonName(slug)];
    o := AnalyseConverted(slug, h, inp, pre);
  }

  /** Lines 81-213, once the JSON file exists: the images, the sun and the distortion. */
  method AnalyseConverted(slug: string, h: Header, inp: Inputs, pre: seq<string>) returns (o: Outcome)
    requires h.ni > 0 && h.nj > 0 && |inp.greyData| == h.ni * h.nj
    requires SizePreserving(h, inp)
    ensures o.Crashed? || o.Finished?
    ensures o.Crashed? ==> o.written == pre + EarlyArtifacts(slug) && CrashedAs(h, inp, o)
    ensures o.Finished? ==> o.written == pre + EarlyArtifacts(slug) + LateArtifacts(slug)
    ensures o.Finished? ==> FinishedAs(slug, h, inp, o)
  {
    var greyCanvas, grey, cloud := CloudsOf(h, inp);
    var alts := SolarAltitudes(h, inp.altitude);
    var sunI, sunX, sunY, sunMask := SunMaskOf(alts, h.ni, h.nj);
    var mask, greymasked := Distort(h, inp, greyCanvas, cloud, sunX, sunY, sunMask);
    assert CentredClouds(inp.enhance(grey), TranslateX(sunX, h.ni)) == Invert(Offset(cloud, TranslateX(sunX, h.ni)));
    if mask.None? {
      return Crashed(pre + EarlyArtifacts(slug), alts, sunI, sunX, sunY);
    }
    o := Finished(pre + EarlyArtifacts(slug) + LateArtifacts(slug), alts, sunI, sunX, sunY, sunMask, mask.value, greymasked);
  }

  // ---- the __main__ block (lines 218-236) ----

  /** What FindRainclouds promises about one analysis. */
  ghost predicate AnalysedAs(slug: string, h: Header, inp: Inputs, o: Outcome)
    requires h.ni > 0
  {
    && (o == BadSlug <==> Settings.ParseSlugDate(slug).None?)
    && (o == GribMissing <==> Settings.ParseSlugDate(slug).Some? && !inp.gribPresent)
    && (o == ConversionFailed <==>
          Settings.ParseSlugDate(slug).Some? && inp.gribPresent && !inp.jsonPresent && !inp.conversionOk)
    && (o.Crashed? ==> o.written == (if inp.jsonPresent then [] else [JsonName(slug)]) + EarlyArtifacts(slug))
    && (o.Crashed? ==> CrashedAs(h, inp, o))
    && (o.Finished? ==> o.written == (if inp.jsonPresent then [] else [JsonName(slug)]) + EarlyArtifacts(slug) + LateArtifacts(slug))
    && (o.Finished? ==> FinishedAs(slug, h, inp, o))
  }

  /** The inputs of an analysis meet what FindRainclouds needs. */
  ghost predicate Runnable(a: (Header, Inputs)) {
    a.0.ni > 0 && a.0.nj > 0 && |a.1.greyData| == a.0.ni * a.0.nj && SizePreserving(a.0, a.1)
  }

  /** sys.exit() and an uncaught exception both end the script. */
  predicate EndsScript(o: Outcome) {
    o.BadSlug? || o.ConversionFailed? || o.Crashed?
  }

  /** Every analysis so far went as FindRainclouds promises, and none but the last ended
      the script. */
  ghost predicate ScanSoFar(visited: seq<string>, outcomes: seq<Outcome>, analysis: string -> (Header, Inputs)) {
    && |visited| == |outcomes|
    && (forall k :: 0 <= k < |outcomes| - 1 ==> !EndsScript(outcomes[k]))
    && (forall k :: 0 <= k < |outcomes| ==>
          analysis(visited[k]).0.ni > 0 &&
          AnalysedAs(visited[k], analysis(visited[k]).0, analysis(visited[k]).1, outcomes[k]))
  }

  /** The script: with slugs on the command line, analyse each in turn; otherwise scan the
      listing.  Either way the first analysis that exits or raises ends the script.
      Returns the slugs analysed and the outcomes. */
  method MainScan(args: seq<string>, listing: seq<Entry>, analysis: string -> (Header, Inputs))
      returns (visited: seq<string>, outcomes: seq<Outcome>)
    requires forall slug :: Runnable(analysis(slug))
    ensures ScanSoFar(visited, outcomes, analysis)
    ensures var all := if args != [] then args else Targets(Sorted(listing), PwatPngMarker);
      && visited <= all
      && (visited != all ==> outcomes != [] && EndsScript(outcomes[|outcomes| - 1]))
  {
    if args != [] {
      visited, outcomes := ArgsScan(args, analysis);
    } else {
      visited, outcomes := ListingScan(listing, analysis);
    }
  }

  /** Lines 221-222: analyse the slugs given on the command line, in order. */
  method ArgsScan(args: seq<string>, analysis: string -> (Header, Inputs))
      returns (visited: seq<string>, outcomes: seq<Outcome>)
    requires forall slug :: Runnable(analysis(slug))
    ensures ScanSoFar(visited, outcomes, analysis)
    ensures visited <= args
    ensures visited != args ==> outcomes != [] && EndsScript(outcomes[|outcomes| - 1])
  {
    visited, outcomes := [], [];
    for i := 0 to |args|
      invariant visited == args[..i] && ScanSoFar(visited, outcomes, analysis)
      invariant forall k :: 0 <= k < |outcomes| ==> !EndsScript(outcomes[k])
    {
      var o := Analyse(args[i], analysis);
      visited, outcomes := visited + [args[i]], outcomes + [o];
      if EndsScript(o) {
        return;
      }
    }
    assert args[..|args|] == args;
  }

  /** Lines 227-236: in descending name order, stop at the first eligible folder holding a
      pwat.png and analyse each folder holding a pwat.grib before it. */
  method ListingScan(listing: seq<Entry>, analysis: string -> (Header, Inputs))
      returns (visited: seq<string>, outcomes: seq<Outcome>)
    requires forall slug :: Runnable(analysis(slug))
    ensures ScanSoFar(visited, outcomes, analysis)
    ensures visited <= Targets(Sorted(listing), PwatPngMarker)
    ensures visited != Targets(Sorted(listing), PwatPngMarker) ==>
              outcomes != [] && EndsScript(outcomes[|outcomes| - 1])
  {
    visited, outcomes := [], [];
    var sorted := Sorted(listing);
    ghost var all := Targets(sorted, PwatPngMarker);
    assert sorted[0..] == sorted;
    var i := 0;
    while i < |sorted|
      invariant i <= |sorted| && ScanSoFar(visited, outcomes, analysis)
      invariant all == visited + Targets(sorted[i..], PwatPngMarker)
      invariant forall k :: 0 <= k < |outcomes| ==> !EndsScript(outcomes[k])
    {
      var rest := sorted[i..];
      assert rest[0] == sorted[i] && rest[1..] == sorted[i + 1..];
      var slug := sorted[i].name;
      if TenDigitPrefix(slug) && sorted[i].isDir {
        if sorted[i].hasPwatPng {
          assert Targets(rest, PwatPngMarker) == [];
          assert visited + [] == visited;
          return;
        }
        if sorted[i].hasGrib {
          var o := Analyse(slug, analysis);
          assert Targets(rest, PwatPngMarker) == [slug] + Targets(sorted[i + 1..], PwatPngMarker);
          assert all == (visited + [slug]) + Targets(sorted[i + 1..], PwatPngMarker);
          visited, outcomes := visited + [slug], outcomes + [o];
          if EndsScript(o) {
            return;
          }
        } else {
          assert Targets(rest, PwatPngMarker) == Targets(sorted[i + 1..], PwatPngMarker);
        }
      } else {
        assert Targets(rest, PwatPngMarker) == Targets(sorted[i + 1..], PwatPngMarker);
      }
      i := i + 1;
    }
    assert sorted[i..] == [] && visited + [] == visited;
  }

  /** find_rainclouds(slug) on that slug's inputs. */
  method Analyse(slug: string, analysis: string -> (Header, Inputs)) returns (o: Outcome)
    requires Runnable(analysis(slug))
    ensures analysis(slug).0.ni > 0 && AnalysedAs(slug, analysis(slug).0, analysis(slug).1, o)
  {
    var (h, inp) := analysis(slug);
    o := FindRainclouds(slug, h, inp);
  }

  /** Past the date, the GRIB check and the conversion, the analysis finishes exactly when
      the barrel distortion of the clouds centred on the sun yields an image, and crashes
      otherwise; the sun is the first maximum of the altitudes of the loop. */
  lemma FinishesWhenDistortionYields(slug: string, h: Header, inp: Inputs, o: Outcome,
                                     alts: seq<real>, sunI: nat)
    requires h.ni > 0 && AnalysedAs(slug, h, inp, o)
    requires Settings.ParseSlugDate(slug).Some? && inp.gribPresent && (inp.jsonPresent || inp.conversionOk)
    requires AltitudesOf(h, inp.altitude, alts) && sunI < |alts|
    requires forall k :: 0 <= k < |alts| ==> alts[k] <= alts[sunI]
    requires forall k :: 0 <= k < sunI ==> alts[k] < alts[sunI]
    ensures o.Crashed? || o.Finished?
    ensures o.Finished? <==>
      inp.barrel(CentredClouds(inp.enhance(GreyOf(h, inp)), TranslateX(SunX(sunI, h.ni), h.ni)),
                 h.ni / 2, SunY(sunI, h.ni)).Some?
  {
    assert o.Crashed? || o.Finished?;
    assert o.altitudes == alts;
    assert alts[o.sunI] <= alts[sunI] && alts[sunI] <= alts[o.sunI];
  }

  /** With the files FindRainclouds states it writes, an analysis that got past the
      conversion leaves a pwat.png behind even when the
      distortion crashes, so the next scan stops at that folder; a crashed one lacks the
      final rainbow image that cities.py opens. */
  lemma AnalysisMarksFolder(slug: string, jsonPresent: bool, o: Outcome)
    requires o.Crashed? ==> o.written == (if jsonPresent then [] else [JsonName(slug)]) + EarlyArtifacts(slug)
    requires o.Finished? ==>
      o.written == (if jsonPresent then [] else [JsonName(slug)]) + EarlyArtifacts(slug) + LateArtifacts(slug)
    ensures o.Crashed? || o.Finished? ==> exists f :: f in o.written && EndsWith(f, "pwat.png")
    ensures o.Crashed? ==> PwatPng("", slug) !in o.written
    ensures o.Finished? ==> PwatPng("", slug) in o.written
  {
    var first := PwatPng("clouds_greyscale.", slug);
    var pre: seq<string> := if jsonPresent then [] else [JsonName(slug)];
    if o.Crashed? || o.Finished? {
      assert first[|first| - 8..] == "pwat.png";
      assert first in EarlyArtifacts(slug);
      assert first in o.written;
    }
    if o.Crashed? {
      forall f | f in o.written
        ensures f != PwatPng("", slug)
      {
        NotFinalImage(slug, f, pre);
      }
    }
    if o.Finished? {
      assert PwatPng("", slug) in LateArtifacts(slug);
    }
  }

  /** No file written before the distortion is the final rainbow image: each is longer,
      or (the JSON file) ends differently. */
  lemma NotFinalImage(slug: string, f: string, pre: seq<string>)
    requires pre == [] || pre == [JsonName(slug)]
    requires f in pre + EarlyArtifacts(slug)
    ensures f != PwatPng("", slug)
  {
    var fin := PwatPng("", slug);
    if f in pre {
      assert f == JsonName(slug);
      assert f[|f| - 1] == 'n' && fin[|fin| - 1] == 'g';
    } else {
      assert |f| > |fin|;
    }
  }
}

