/** The RLE24 payload decoder (logo_gen_decoder.py, decodeRLE24).

    A payload is a sequence of tokens, each a control byte b followed by colours
    stored blue, green, red:
      b >= 128: a run, one colour repeated b + 1 - 128 times;
      b <= 127: a literal, b + 1 colours, one per pixel.
    Pixels fill a width x height raster in row-major order from (0, 0). Decoding
    stops after the token that fills the raster, or when the stream ends where a
    control byte is expected; the pixels not reached stay black. */
module Rle24 {
  import opened Outcomes
  import opened Wire
  import opened Pixels
  import opened Raster
  import opened Streams

  /** The pixels some tokens wrote, and the stream position after them. */
  datatype Decoded = Decoded(pixels: seq<Rgb>, next: nat)

  /** The colour of the triple at `q`: blue, green, red on the wire. */
  function ColorAt(data: seq<Byte>, q: nat): Rgb
    requires q + 3 <= |data|
  {
    Rgb(data[q + 2], data[q + 1], data[q])
  }

  /** The colours of the `n` consecutive triples from `q`. */
  function Colors(data: seq<Byte>, q: nat, n: nat): (cs: seq<Rgb>)
    requires q + 3 * n <= |data|
    ensures |cs| == n
  {
    if n == 0 then [] else Colors(data, q, n - 1) + [ColorAt(data, q + 3 * (n - 1))]
  }

  /** The k-th colour is the k-th triple. */
  lemma {:induction false} ColorsIndex(data: seq<Byte>, q: nat, n: nat, k: nat)
    requires q + 3 * n <= |data| && k < n
    ensures Colors(data, q, n)[k] == ColorAt(data, q + 3 * k)
  {
    if k < n - 1 {
      ColorsIndex(data, q, n - 1, k);
    }
  }

  /** `n` copies of one colour. */
  function Repeat(c: Rgb, n: nat): (cs: seq<Rgb>)
    ensures |cs| == n
  {
    if n == 0 then [] else Repeat(c, n - 1) + [c]
  }

  /** Every copy is the colour. */
  lemma {:induction false} RepeatIndex(c: Rgb, n: nat, k: nat)
    requires k < n
    ensures Repeat(c, n)[k] == c
  {
    if k < n - 1 {
      RepeatIndex(c, n - 1, k);
    }
  }

  /** The token whose control byte is at `p`, when at most `room` more pixels fit.
      A literal reads and writes colour by colour, so it fails at its first colour
      that is either cut short by the end of the stream or falls outside the
      raster, whichever comes first; a run reads its colour before writing. */
  function DecodeToken(data: seq<Byte>, p: nat, room: nat): (r: Result<Decoded>)
    requires p < |data|
    ensures r.Ok? ==> p < r.value.next <= |data| && 0 < |r.value.pixels| <= room
  {
    var n := data[p] as int + 1;
    if n > 128 then
      if p + 4 > |data| then Err(TruncatedPayload)
      else if room < n - 128 then Err(RasterOverrun)
      else Ok(Decoded(Repeat(ColorAt(data, p + 1), n - 128), p + 4))
    else
      // the stream runs out within the n colours (fewer than n whole triples are
      // left) no later than the raster does (at most room whole triples are left)
      if |data| < p + 1 + 3 * n && |data| < p + 4 + 3 * room then Err(TruncatedPayload)
      else if room < n then Err(RasterOverrun)
      else Ok(Decoded(Colors(data, p + 1, n), p + 1 + 3 * n))
  }

  /** What one token consumes and writes. A control byte b >= 128 is a run: three
      colour bytes, then b + 1 - 128 copies of one colour, which the wire gives as
      blue, green, red. Any other b is a literal: 3 * (b + 1) colour bytes, one
      colour per pixel in stream order. Either fails when its bytes are cut short or
      its pixels do not fit. */
  lemma TokenPixels(data: seq<Byte>, p: nat, room: nat)
    requires p < |data|
    ensures var r := DecodeToken(data, p, room);
      (data[p] >= 128 ==> (r.Ok? <==> p + 4 <= |data| && data[p] - 127 <= room)) &&
      (data[p] >= 128 && r.Ok? ==>
        r.value.next == p + 4 && |r.value.pixels| == data[p] - 127 &&
        forall k :: 0 <= k < |r.value.pixels| ==> r.value.pixels[k] == Rgb(data[p + 3], data[p + 2], data[p + 1])) &&
      (data[p] >= 128 && p + 4 > |data| ==> r == Err(TruncatedPayload)) &&
      (data[p] < 128 ==> (r.Ok? <==> p + 1 + 3 * (data[p] as int + 1) <= |data| && data[p] + 1 <= room)) &&
      (data[p] < 128 && r.Ok? ==>
        r.value.next == p + 1 + 3 * (data[p] as int + 1) && |r.value.pixels| == data[p] + 1 &&
        forall k :: 0 <= k < |r.value.pixels| ==>
          r.value.pixels[k] == Rgb(data[p + 3 * k + 3], data[p + 3 * k + 2], data[p + 3 * k + 1]))
  {
    var n := data[p] as int + 1;
    if n > 128 && p + 4 <= |data| {
      var c, m := ColorAt(data, p + 1), n - 128;
      forall k | 0 <= k < m ensures Repeat(c, m)[k] == c {
        RepeatIndex(c, m, k);
      }
    } else if n <= 128 && p + 1 + 3 * n <= |data| {
      forall k | 0 <= k < n ensures Colors(data, p + 1, n)[k] == ColorAt(data, p + 1 + 3 * k) {
        ColorsIndex(data, p + 1, n, k);
      }
    }
  }

  /** Which error a failing token reports. A run reads its colour before it
      writes: a cut-short colour is TruncatedPayload, a colour that is there but
      too many copies for the raster is RasterOverrun. A literal reads colour k,
      then writes it: with `whole` triples left in the stream it fails at colour
      min(whole, room), as TruncatedPayload when the stream runs out first or
      together with the raster, and as RasterOverrun when the raster fills first. */
  lemma TokenError(data: seq<Byte>, p: nat, room: nat)
    requires p < |data|
    ensures var r, n, whole := DecodeToken(data, p, room), data[p] as int + 1, (|data| - p - 1) / 3;
      (n > 128 && p + 4 > |data| ==> r == Err(TruncatedPayload)) &&
      (n > 128 && p + 4 <= |data| && room < n - 128 ==> r == Err(RasterOverrun)) &&
      (n <= 128 && whole < n && whole <= room ==> r == Err(TruncatedPayload)) &&
      (n <= 128 && room < n && room < whole ==> r == Err(RasterOverrun))
  {
    var whole := (|data| - p - 1) / 3;
    DivUnique(|data| - p - 1, 3, whole, (|data| - p - 1) % 3);
  }

  /** Puts `written` in front of the pixels of a successful outcome. */
  function Prepend(written: seq<Rgb>, r: Result<Decoded>): Result<Decoded>
  {
    match r
    case Err(e) => Err(e)
    case Ok(d) => Ok(Decoded(written + d.pixels, d.next))
  }

  lemma PrependTwice(a: seq<Rgb>, b: seq<Rgb>, r: Result<Decoded>)
    ensures Prepend(a, Prepend(b, r)) == Prepend(a + b, r)
  {
    if r.Ok? {
      assert a + (b + r.value.pixels) == (a + b) + r.value.pixels;
    }
  }

  /** Decoding from the control byte at `p` while `room` pixels of the raster are
      still unwritten. */
  function DecodeFrom(data: seq<Byte>, p: nat, room: nat): (r: Result<Decoded>)
    decreases |data| - p
    ensures r.Ok? ==> |r.value.pixels| <= room && p <= r.value.next
    // a raster left short means the stream ran out where a control byte was due
    ensures r.Ok? && |r.value.pixels| < room ==> r.value.next == if p <= |data| then |data| else p
    ensures r.Ok? && 0 < |r.value.pixels| ==> r.value.next <= |data|
  {
    if p >= |data| then Ok(Decoded([], p))
    else
      match DecodeToken(data, p, room)
      case Err(e) => Err(e)
      case Ok(t) =>
        if |t.pixels| == room then Ok(t)
        else Prepend(t.pixels, DecodeFrom(data, t.next, room - |t.pixels|))
  }

  /** Decoding is the first token followed by decoding the rest. `left` names
      the room after the token, so that callers' goals match this ensures term
      for term instead of the solver re-deriving the subtraction. */
  lemma DecodeFromStep(data: seq<Byte>, p: nat, room: nat, d: Decoded, left: nat)
    requires p < |data| && DecodeToken(data, p, room) == Ok(d)
    requires |d.pixels| < room && left == room - |d.pixels|
    ensures DecodeFrom(data, p, room) == Prepend(d.pixels, DecodeFrom(data, d.next, left))
  {
  }

  /** The payload of a width x height image whose first control byte is at `p`. */
  function Decode(data: seq<Byte>, p: nat, width: nat, height: nat): Result<Decoded>
  {
    DecodeFrom(data, p, width * height)
  }

  /** Where the decoder leaves the stream: `start + size` when the payload bounds
      are given, otherwise just after the last byte it consumed. */
  datatype Bounds = Bounds(start: nat, size: nat)

  /** `read(1)[0]`: one byte, or a failure at the end of the stream. */
  method ReadByte(f: Stream) returns (b: Option<Byte>)
    modifies f
    ensures old(f.pos) < |f.data| ==> b == Some(f.data[old(f.pos)]) && f.pos == old(f.pos) + 1
    ensures old(f.pos) >= |f.data| ==> b == None && f.pos == old(f.pos)
  {
    var s := f.Read(1);
    b := if s == [] then None else Some(s[0]);
  }

  /** Three `read(1)[0]` calls for blue, green and red, as the (r, g, b) colour. */
  method ReadColor(f: Stream) returns (c: Option<Rgb>)
    modifies f
    ensures old(f.pos) + 3 <= |f.data| ==> c == Some(ColorAt(f.data, old(f.pos))) && f.pos == old(f.pos) + 3
    ensures old(f.pos) + 3 > |f.data| ==> c == None
  {
    var b := ReadByte(f);
    if b.None? { return None; }
    var g := ReadByte(f);
    if g.None? { return None; }
    var r := ReadByte(f);
    if r.None? { return None; }
    return Some(Rgb(r.value, g.value, b.value));
  }

  /** The fill position (i, j) has written `count` pixels of a raster `width` wide. */
  ghost predicate FillPosition(i: nat, j: nat, width: nat, count: nat)
  {
    count == j * width + i && (i < width || (i == 0 && j == 0 && count == 0))
  }

  /** The write guard: PIL rejects a pixel outside the raster, which with the fill
      position in row-major order means `width * height` pixels are already written. */
  lemma OutsideMeansFull(i: nat, j: nat, width: nat, height: nat, count: nat)
    requires FillPosition(i, j, width, count) && count <= width * height
    ensures !(i < width && j < height) <==> count == width * height
  {
    if i < width {
      InsideRaster(i, j, width, height);
    }
  }

  /** The stop test `j == columns and i == 0`, after at least one pixel. */
  lemma StopMeansFull(i: nat, j: nat, width: nat, height: nat, count: nat)
    requires FillPosition(i, j, width, count) && 0 < count <= width * height
    ensures (j == height && i == 0) <==> count == width * height
  {
    if count == width * height {
      RowMajorInjective(i, j, 0, height, width);
    }
  }

  /** The raster shows `written` in row-major order and (i, j) is where the next
      pixel goes. */
  ghost predicate Filling(raster: array2<Rgb>, i: nat, j: nat, written: seq<Rgb>)
    reads raster
  {
    FillPosition(i, j, raster.Length0, |written|) &&
    |written| <= raster.Length0 * raster.Length1 &&
    Shows(raster, written)
  }

  /** The pixels of a raster not yet written. */
  function Room(raster: array2<Rgb>, written: seq<Rgb>): nat
    requires |written| <= raster.Length0 * raster.Length1
  {
    raster.Length0 * raster.Length1 - |written|
  }

  /** The write loop of a run token (logo_gen_decoder.py:36-43): one colour read
      blue, green, red, then written `pixel_count - 128` times. */
  method PlotRun(f: Stream, raster: array2<Rgb>, pixelCount: nat, i: nat, j: nat,
                 ghost p: nat, ghost written: seq<Rgb>)
    returns (i': nat, j': nat, ghost written': seq<Rgb>, failure: Option<Error>)
    requires p < |f.data| && f.pos == p + 1 && pixelCount == f.data[p] as int + 1 > 128
    requires Filling(raster, i, j, written)
    modifies f, raster
    ensures var t := DecodeToken(f.data, p, Room(raster, written));
      match t
      case Err(e) => failure == Some(e)
      case Ok(d) =>
        failure == None && f.pos == d.next && written' == written + d.pixels &&
        Filling(raster, i', j', written')
  {
    i', j', written' := i, j, written;
    var color := ReadColor(f);
    if color.None? {
      return i', j', written', Some(TruncatedPayload);
    }
    var width, height := raster.Length0, raster.Length1;
    ghost var room := Room(raster, written);
    var k := 0;
    while k < pixelCount - 128
      invariant 0 <= k <= pixelCount - 128 && k <= room
      invariant f.pos == p + 4 && color.value == ColorAt(f.data, p + 1)
      invariant written' == written + Repeat(color.value, k)
      invariant Filling(raster, i', j', written')
    {
      OutsideMeansFull(i', j', width, height, |written'|);
      if !(i' < width && j' < height) {
        return i', j', written', Some(RasterOverrun);
      }
      Put(raster, i', j', color.value, written');
      assert Repeat(color.value, k + 1) == Repeat(color.value, k) + [color.value];
      written' := written' + [color.value];
      var next := Advance(i', j', width);
      i', j' := next.0, next.1;
      k := k + 1;
    }
    failure := None;
  }

  /** The loop of a literal token (logo_gen_decoder.py:44-51): `pixel_count`
      colours, each read blue, green, red and written at once. */
  method PlotLiteral(f: Stream, raster: array2<Rgb>, pixelCount: nat, i: nat, j: nat,
                     ghost p: nat, ghost written: seq<Rgb>)
    returns (i': nat, j': nat, ghost written': seq<Rgb>, failure: Option<Error>)
    requires p < |f.data| && f.pos == p + 1 && pixelCount == f.data[p] as int + 1 <= 128
    requires Filling(raster, i, j, written)
    modifies f, raster
    ensures var t := DecodeToken(f.data, p, Room(raster, written));
      match t
      case Err(e) => failure == Some(e)
      case Ok(d) =>
        failure == None && f.pos == d.next && written' == written + d.pixels &&
        Filling(raster, i', j', written')
  {
    i', j', written' := i, j, written;
    var width, height := raster.Length0, raster.Length1;
    ghost var room := Room(raster, written);
    var k := 0;
    while k < pixelCount
      invariant 0 <= k <= pixelCount && k <= room
      invariant f.pos == p + 1 + 3 * k <= |f.data|
      invariant written' == written + Colors(f.data, p + 1, k)
      invariant Filling(raster, i', j', written')
    {
      var color := ReadColor(f);
      if color.None? {
        return i', j', written', Some(TruncatedPayload);
      }
      OutsideMeansFull(i', j', width, height, |written'|);
      if !(i' < width && j' < height) {
        return i', j', written', Some(RasterOverrun);
      }
      Put(raster, i', j', color.value, written');
      assert Colors(f.data, p + 1, k + 1) == Colors(f.data, p + 1, k) + [color.value];
      written' := written' + [color.value];
      var next := Advance(i', j', width);
      i', j' := next.0, next.1;
      k := k + 1;
    }
    failure := None;
  }

  /** One token of decodeRLE24 (logo_gen_decoder.py:34-51), its control byte
      already read: `pixel_count > 128` is a run, anything else a literal. */
  method PlotToken(f: Stream, raster: array2<Rgb>, pixelCount: nat, i: nat, j: nat,
                   ghost p: nat, ghost written: seq<Rgb>)
    returns (i': nat, j': nat, ghost written': seq<Rgb>, failure: Option<Error>)
    requires p < |f.data| && f.pos == p + 1 && pixelCount == f.data[p] as int + 1
    requires Filling(raster, i, j, written)
    modifies f, raster
    ensures var t := DecodeToken(f.data, p, Room(raster, written));
      match t
      case Err(e) => failure == Some(e)
      case Ok(d) =>
        failure == None && f.pos == d.next && written' == written + d.pixels &&
        Filling(raster, i', j', written')
  {
    if pixelCount > 128 {
      i', j', written', failure := PlotRun(f, raster, pixelCount, i, j, p, written);
    } else {
      i', j', written', failure := PlotLiteral(f, raster, pixelCount, i, j, p, written);
    }
  }

  /** A failing token ends the whole decoding with its error. */
  lemma TokenFails(data: seq<Byte>, p: nat, room: nat, before: seq<Rgb>, whole: Result<Decoded>, e: Error)
    requires p < |data| && DecodeToken(data, p, room) == Err(e)
    requires whole == Prepend(before, DecodeFrom(data, p, room))
    ensures whole == Err(e)
  {
  }

  /** A token that fills the raster completes the decoding. `next` names the
      cursor the caller holds, so that its goal matches this ensures term for term. */
  lemma TokenCompletes(data: seq<Byte>, p: nat, room: nat, before: seq<Rgb>, whole: Result<Decoded>,
                       d: Decoded, written: seq<Rgb>, next: nat)
    requires p < |data| && DecodeToken(data, p, room) == Ok(d) && |d.pixels| == room
    requires whole == Prepend(before, DecodeFrom(data, p, room)) && written == before + d.pixels
    requires next == d.next
    ensures whole == Ok(Decoded(written, next))
  {
  }

  /** A token that leaves room hands over to the decoding of what follows it.
      `next` and `left` name the cursor and room the caller holds, so that its
      goal matches this ensures term for term. */
  lemma TokenContinues(data: seq<Byte>, p: nat, room: nat, before: seq<Rgb>, whole: Result<Decoded>,
                       d: Decoded, written: seq<Rgb>, next: nat, left: nat)
    requires p < |data| && DecodeToken(data, p, room) == Ok(d) && |d.pixels| < room
    requires whole == Prepend(before, DecodeFrom(data, p, room)) && written == before + d.pixels
    requires next == d.next && left == room - |d.pixels|
    ensures whole == Prepend(written, DecodeFrom(data, next, left))
  {
    DecodeFromStep(data, p, room, d, left);
    PrependTwice(before, d.pixels, DecodeFrom(data, next, left));
  }

  /** The end of the stream where a control byte is due completes the decoding. */
  lemma StreamEnds(data: seq<Byte>, p: nat, room: nat, written: seq<Rgb>, whole: Result<Decoded>)
    requires p >= |data| && whole == Prepend(written, DecodeFrom(data, p, room))
    ensures whole == Ok(Decoded(written, p))
  {
    assert written + [] == written;
  }

  /** One pass of decodeRLE24's loop (logo_gen_decoder.py:34-54), its control byte
      `b` already read from `p`: the token's pixels, then the test whether the
      raster is complete. `whole` is the decoding of the entire payload; the pass
      either ends it (`done`, or a failure) or leaves the rest to decode from the cursor. */
  method DecodeStep(f: Stream, raster: array2<Rgb>, b: Byte, i: nat, j: nat,
                    ghost p: nat, ghost written: seq<Rgb>, ghost whole: Result<Decoded>)
    returns (i': nat, j': nat, ghost written': seq<Rgb>, failure: Option<Error>, done: bool)
    requires p < |f.data| && f.pos == p + 1 && b == f.data[p]
    requires Filling(raster, i, j, written)
    requires whole == Prepend(written, DecodeFrom(f.data, p, Room(raster, written)))
    modifies f, raster
    ensures failure.Some? ==> whole == Err(failure.value)
    ensures failure.None? ==> p < f.pos && Filling(raster, i', j', written')
    ensures failure.None? && done ==> whole == Ok(Decoded(written', f.pos))
    ensures failure.None? && !done ==>
      whole == Prepend(written', DecodeFrom(f.data, f.pos, Room(raster, written')))
  {
    ghost var room := Room(raster, written);
    ghost var token := DecodeToken(f.data, p, room);
    done := false;
    i', j', written', failure := PlotToken(f, raster, b as int + 1, i, j, p, written);
    if failure.Some? {
      TokenFails(f.data, p, room, written, whole, token.error);
      return;
    }
    StopMeansFull(i', j', raster.Length0, raster.Length1, |written'|);
    done := j' == raster.Length1 && i' == 0;
    if done {
      TokenCompletes(f.data, p, room, written, whole, token.value, written', f.pos);
    } else {
      TokenContinues(f.data, p, room, written, whole, token.value, written', f.pos, Room(raster, written'));
    }
  }

  /** The token loop of decodeRLE24 (logo_gen_decoder.py:32-55): reads a control
      byte, decodes its token, and stops after the pixel that completes the raster
      or at the end of the stream. */
  method DecodeTokens(f: Stream, raster: array2<Rgb>) returns (failure: Option<Error>)
    requires Shows(raster, [])
    modifies f, raster
    ensures var spec := Decode(f.data, old(f.pos), raster.Length0, raster.Length1);
      match spec
      case Err(e) => failure == Some(e)
      case Ok(d) => failure == None && Shows(raster, d.pixels) && f.pos == d.next
  {
    ghost var whole := Decode(f.data, f.pos, raster.Length0, raster.Length1);
    var i: nat, j: nat := 0, 0;
    ghost var written: seq<Rgb> := [];
    ghost var p: nat := f.pos;
    var c := ReadByte(f);
    assert whole.Ok? ==> [] + whole.value.pixels == whole.value.pixels;
    while c.Some?
      invariant c.Some? ==> p < |f.data| && f.pos == p + 1 && c.value == f.data[p]
      invariant c.None? ==> p >= |f.data| && f.pos == p
      invariant Filling(raster, i, j, written)
      invariant whole == Prepend(written, DecodeFrom(f.data, p, Room(raster, written)))
      decreases |f.data| - f.pos
    {
      var done;
      i, j, written, failure, done := DecodeStep(f, raster, c.value, i, j, p, written, whole);
      if failure.Some? || done {
        return;
      }
      p := f.pos;
      c := ReadByte(f);
    }
    StreamEnds(f.data, p, Room(raster, written), written, whole);
    return None;
  }

  /** decodeRLE24: decodes the payload at the cursor into a new black `width` x
      `height` raster. On success the cursor ends at `start + size` when bounds are
      given (however many bytes the tokens used), else after the last token. */
  method DecodeRle24(f: Stream, width: nat, height: nat, bounds: Option<Bounds>)
    returns (raster: array2<Rgb>, failure: Option<Error>)
    modifies f
    ensures fresh(raster) && raster.Length0 == width && raster.Length1 == height
    ensures var spec := Decode(f.data, old(f.pos), width, height);
      match spec
      case Err(e) => failure == Some(e)
      case Ok(d) =>
        failure == None && Shows(raster, d.pixels) &&
        f.pos == if bounds.Some? then bounds.value.start + bounds.value.size else d.next
  {
    raster := new Rgb[width, height]((x, y) => Black);
    failure := DecodeTokens(f, raster);
    if failure.None? && bounds.Some? {
      f.SeekBy(bounds.value.start + bounds.value.size - f.pos);
    }
  }
}
