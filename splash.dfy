/** The splash.img container walker (logo_gen_decoder.py, process_splashimg).

    After a 1024-byte reserved region, the file holds records, each made of:
      the 8-byte tag "SPLASH!!";
      width, height, encoding flag and block count, each a little-endian u32;
      padding up to the next 512-byte boundary;
      an RLE24 payload of `block count` 512-byte blocks;
      possibly a run of zero bytes.
    Every record decodes to one image; the walk ends at the first position that
    does not hold the tag. */
module Splash {
  import opened Outcomes
  import opened Wire
  import opened Pixels
  import opened Raster
  import opened Streams
  import opened Rle24
  import opened Naming

  /** The reserved bytes skipped before the first record. */
  const ReservedSize: nat := 1024
  /** The unit of payload sizes and of header padding. */
  const BlockSize: nat := 512
  /** The tag "SPLASH!!" in ASCII. */
  const Magic: seq<Byte> := [83, 80, 76, 65, 83, 72, 33, 33]

  /** The header fields after the tag; the flag is checked, not kept. */
  datatype Header = Header(width: nat, height: nat, blocks: nat)

  /** The u32 stored little-endian at q: b0 + 256*b1 + 65536*b2 + 16777216*b3. */
  function U32At(data: seq<Byte>, q: nat): nat
    requires q + 4 <= |data|
  {
    data[q] as int + 256 * data[q + 1] as int + 65536 * data[q + 2] as int + 16777216 * data[q + 3] as int
  }

  /** `read_int32(f.read(4))` at q: the field, or a failure when the stream ends
      within it. */
  function Field(data: seq<Byte>, q: nat): (r: Result<nat>)
    ensures r.Ok? ==> r.value < 0x1_0000_0000
  {
    if q + 4 <= |data| then Ok(U32At(data, q)) else Err(ShortField)
  }

  /** The header fields at q, read in the order width, height, flag, block count:
      a stream that ends within the first three fails short, a flag other than 1
      fails before the block count is read, and a stream that ends within the
      block count fails short. */
  function ParseHeader(data: seq<Byte>, q: nat): (r: Result<Header>)
    ensures q + 12 > |data| ==> r == Err(ShortField)
    ensures q + 12 <= |data| && U32At(data, q + 8) != 1 ==> r == Err(NotEncoded(U32At(data, q + 8)))
    ensures q + 12 <= |data| && U32At(data, q + 8) == 1 ==>
      (r.Ok? <==> q + 16 <= |data|) && (r.Err? ==> r.error == ShortField)
  {
    if q + 12 > |data| then Err(ShortField)
    else if U32At(data, q + 8) != 1 then Err(NotEncoded(U32At(data, q + 8)))
    else if q + 16 > |data| then Err(ShortField)
    else Ok(Header(U32At(data, q), U32At(data, q + 4), U32At(data, q + 12)))
  }

  /** The 16 header bytes that describe `h`: width, height, the flag 1 and the block
      count, each little-endian. */
  function HeaderBytes(h: Header): (s: seq<Byte>)
    ensures |s| == 16
  {
    ToLittleEndian(h.width, 4) + ToLittleEndian(h.height, 4) + ToLittleEndian(1, 4) + ToLittleEndian(h.blocks, 4)
  }

  /** The field at q holds a 32-bit v exactly when its four bytes are v's encoding. */
  lemma FieldHolds(data: seq<Byte>, q: nat, v: nat)
    requires q + 4 <= |data| && v < 0x1_0000_0000
    ensures U32At(data, q) == v <==> data[q..q + 4] == ToLittleEndian(v, 4)
  {
    var s := data[q..q + 4];
    Le32Value(s);
    assert U32At(data, q) == LittleEndian(s);
    EncodingOfLittleEndian(s);
    assert Pow256(4) == 0x1_0000_0000;
    LittleEndianOfEncoding(v, 4);
  }

  /** The 16 bytes at q are `e` exactly when each of their four 4-byte fields is the
      matching field of `e`. */
  lemma FieldsAt(data: seq<Byte>, q: nat, e: seq<Byte>)
    requires q + 16 <= |data| && |e| == 16
    ensures data[q..q + 16] == e <==>
      data[q..q + 4] == e[0..4] && data[q + 4..q + 8] == e[4..8] &&
      data[q + 8..q + 12] == e[8..12] && data[q + 12..q + 16] == e[12..16]
  {
    if data[q..q + 16] == e {
      assert forall k :: 0 <= k < 16 ==> data[q + k] == e[k];
      assert data[q..q + 4] == e[0..4];
      assert data[q + 4..q + 8] == e[4..8];
      assert data[q + 8..q + 12] == e[8..12];
      assert data[q + 12..q + 16] == e[12..16];
    }
    if data[q..q + 4] == e[0..4] && data[q + 4..q + 8] == e[4..8] &&
       data[q + 8..q + 12] == e[8..12] && data[q + 12..q + 16] == e[12..16] {
      forall k | 0 <= k < 16
        ensures data[q + k] == e[k]
      {
        if k < 4 {
          assert data[q..q + 4][k] == e[0..4][k];
        } else if k < 8 {
          assert data[q + 4..q + 8][k - 4] == e[4..8][k - 4];
        } else if k < 12 {
          assert data[q + 8..q + 12][k - 8] == e[8..12][k - 8];
        } else {
          assert data[q + 12..q + 16][k - 12] == e[12..16][k - 12];
        }
      }
      assert data[q..q + 16] == e;
    }
  }

  /** The four fields of HeaderBytes(h). */
  lemma HeaderFields(h: Header)
    ensures var e := HeaderBytes(h);
      e[0..4] == ToLittleEndian(h.width, 4) && e[4..8] == ToLittleEndian(h.height, 4) &&
      e[8..12] == ToLittleEndian(1, 4) && e[12..16] == ToLittleEndian(h.blocks, 4)
  {
  }

  /** A header parses to h exactly when its 16 bytes are h's encoding: the parser
      and the layout it reads agree in both directions. */
  lemma HeaderRoundTrip(data: seq<Byte>, q: nat, h: Header)
    requires q + 16 <= |data|
    requires h.width < 0x1_0000_0000 && h.height < 0x1_0000_0000 && h.blocks < 0x1_0000_0000
    ensures ParseHeader(data, q) == Ok(h) <==> data[q..q + 16] == HeaderBytes(h)
  {
    FieldHolds(data, q, h.width);
    FieldHolds(data, q + 4, h.height);
    FieldHolds(data, q + 8, 1);
    FieldHolds(data, q + 12, h.blocks);
    FieldsAt(data, q, HeaderBytes(h));
    HeaderFields(h);
  }

  /** `p + 512 - p % 512`: the header padding ends at the next block boundary. */
  function NextBoundary(p: nat): (r: nat)
    ensures r % BlockSize == 0 && p < r <= p + BlockSize
  {
    DivUnique(p + BlockSize - p % BlockSize, BlockSize, p / BlockSize + 1, 0);
    p + BlockSize - p % BlockSize
  }

  /** ... and it is the first boundary strictly after p. */
  lemma NextBoundaryLeast(p: nat, m: nat)
    requires p < m && m % BlockSize == 0
    ensures NextBoundary(p) <= m
  {
    var b := p / BlockSize;
    if m < NextBoundary(p) {
      DivUnique(m, BlockSize, b, m - BlockSize * b);
    }
  }

  /** The zero skip (logo_gen_decoder.py:110-113): one-byte reads while they give a
      zero byte, then one step back, so the cursor ends on the byte that stopped
      the reads. From q that is the first non-zero byte; after zeros up to the end
      it is the last byte; at or past the end, where every read is empty, it is
      the byte before q. */
  function Resume(data: seq<Byte>, q: nat): (r: nat)
    requires 0 < q
    ensures q < |data| ==> q <= r < |data|
    ensures q >= |data| ==> r == q - 1
    decreases |data| - q
  {
    if q >= |data| then q - 1
    else if data[q] != 0 || q + 1 == |data| then q
    else Resume(data, q + 1)
  }

  /** Where the zero skip leaves the cursor: on the first non-zero byte at or after
      q, on the last byte when only zeros follow q, and just before q when q is at
      or past the end. */
  lemma {:induction false} ResumeLands(data: seq<Byte>, q: nat)
    requires 0 < q
    ensures q >= |data| ==> Resume(data, q) == q - 1
    ensures q < |data| ==> q <= Resume(data, q) < |data|
    ensures forall m :: q <= m < Resume(data, q) ==> data[m] == 0
    ensures q < |data| && data[Resume(data, q)] == 0 ==>
      Resume(data, q) == |data| - 1 && forall m :: q <= m < |data| ==> data[m] == 0
    decreases |data| - q
  {
    if q < |data| && data[q] == 0 && q + 1 < |data| {
      ResumeLands(data, q + 1);
    }
  }

  /** One decoded record, as handed to the image library to save. */
  datatype Emitted = Emitted(number: nat, width: nat, height: nat, pixels: seq<Rgb>)

  /** How a walk ends: the first position held no tag ("This file is not
      supported."), a later one held none (the normal end), or a failure. */
  datatype Status = Unsupported | Finished | Failed(error: Error)

  /** The images saved, in order, and how the walk ended. */
  datatype Walked = Walked(images: seq<Emitted>, status: Status)

  /** What one pass of the loop does: end the walk, or save an image and go on
      from `next`. */
  datatype Step = Stop(status: Status) | Continue(image: Emitted, next: nat)

  /** The 8 bytes at pos are the tag; a short read is a mismatch. */
  predicate TagAt(data: seq<Byte>, pos: nat)
  {
    pos + |Magic| <= |data| && data[pos..pos + |Magic|] == Magic
  }

  /** The record at pos, numbered index (logo_gen_decoder.py:86-113): tag, header,
      padding to the next block boundary, payload, output name, zero skip. */
  function Record(data: seq<Byte>, pos: nat, index: nat): (r: Step)
    ensures r == Stop(Unsupported) <==> index == 1 && !TagAt(data, pos)
    ensures r.Continue? ==> pos + |Magic| <= |data| && pos < r.next
    ensures r.Continue? ==> |r.image.pixels| <= r.image.width * r.image.height
    ensures r.Continue? ==> r.image.number == index
  {
    if !TagAt(data, pos) then Stop(if index == 1 then Unsupported else Finished)
    else
      match ParseHeader(data, pos + 8)
      case Err(e) => Stop(Failed(e))
      case Ok(h) =>
        var start := NextBoundary(pos + 24);
        match Decode(data, start, h.width, h.height)
        case Err(e) => Stop(Failed(e))
        case Ok(d) =>
          var q := start + h.blocks * BlockSize;
          ResumeLands(data, q);
          Continue(Emitted(index, h.width, h.height, d.pixels), Resume(data, q))
  }

  /** `images` saved before the walk `w`. */
  function Then(images: seq<Emitted>, w: Walked): Walked
  {
    Walked(images + w.images, w.status)
  }

  /** The walk from the record at pos, numbered index. */
  function Walk(data: seq<Byte>, pos: nat, index: nat): (w: Walked)
    ensures forall k :: 0 <= k < |w.images| ==>
      |w.images[k].pixels| <= w.images[k].width * w.images[k].height
    ensures forall k :: 0 <= k < |w.images| ==> w.images[k].number == index + k
    ensures 1 <= index ==> (w.status == Unsupported <==> index == 1 && !TagAt(data, pos))
    ensures 1 <= index && w.status == Unsupported ==> w.images == []
    decreases if pos <= |data| then |data| - pos else 0
  {
    match Record(data, pos, index)
    case Stop(status) => Walked([], status)
    case Continue(image, next) => Then([image], Walk(data, next, index + 1))
  }

  /** The splash.img walk: records from just after the reserved region, numbered from 1. */
  function WalkFile(data: seq<Byte>): (w: Walked)
    ensures forall k :: 0 <= k < |w.images| ==> w.images[k].number == k + 1
    ensures w.status == Unsupported <==> !TagAt(data, ReservedSize)
    ensures w.status == Unsupported ==> w.images == []
  {
    Walk(data, ReservedSize, 1)
  }

  /** No two images of a walk are saved under the same name. */
  lemma WalkNamesDistinct(data: seq<Byte>, template: string, pos: nat, index: nat, k: nat, l: nat)
    requires var w := Walk(data, pos, index); k < l < |w.images|
    ensures var w := Walk(data, pos, index);
      OutputName(template, w.images[k].number) != OutputName(template, w.images[l].number)
  {
    var w := Walk(data, pos, index);
    if OutputName(template, w.images[k].number) == OutputName(template, w.images[l].number) {
      NamesDistinct(template, w.images[k].number, w.images[l].number);
    }
  }

  /** A record that decodes: its tag, header, payload and the zero skip after it. */
  lemma RecordDecodes(data: seq<Byte>, pos: nat, index: nat, h: Header, start: nat,
                      d: Decoded, image: Emitted, next: nat)
    requires TagAt(data, pos) && ParseHeader(data, pos + 8) == Ok(h) && start == NextBoundary(pos + 24)
    requires Decode(data, start, h.width, h.height) == Ok(d)
    requires image == Emitted(index, h.width, h.height, d.pixels)
    requires next == Resume(data, start + h.blocks * BlockSize)
    ensures Record(data, pos, index) == Continue(image, next)
  {
  }

  /** A walk through a record that decodes saves its image and goes on after it. */
  lemma WalkContinues(data: seq<Byte>, pos: nat, index: nat, image: Emitted, next: nat)
    requires Record(data, pos, index) == Continue(image, next)
    ensures Walk(data, pos, index) == Then([image], Walk(data, next, index + 1))
  {
  }

  /** A walk through a record that ends it saves nothing more. */
  lemma WalkStops(data: seq<Byte>, pos: nat, index: nat, status: Status)
    requires Record(data, pos, index) == Stop(status)
    ensures Walk(data, pos, index) == Walked([], status)
  {
  }

  /** Images saved before the images saved before a walk. */
  lemma ThenThen(images: seq<Emitted>, more: seq<Emitted>, w: Walked)
    ensures Then(images, Then(more, w)) == Then(images + more, w)
  {
    assert images + (more + w.images) == (images + more) + w.images;
  }

  /** A record without the tag ends the walk. */
  lemma RecordUntagged(data: seq<Byte>, pos: nat, index: nat)
    requires !TagAt(data, pos)
    ensures Record(data, pos, index) == Stop(if index == 1 then Unsupported else Finished)
  {
  }

  /** A record whose header does not parse ends the walk with the header's failure. */
  lemma RecordHeaderFails(data: seq<Byte>, pos: nat, index: nat, e: Error)
    requires TagAt(data, pos) && ParseHeader(data, pos + 8) == Err(e)
    ensures Record(data, pos, index) == Stop(Failed(e))
  {
  }

  /** A record whose payload does not decode ends the walk with the decoder's failure. */
  lemma RecordPayloadFails(data: seq<Byte>, pos: nat, index: nat, h: Header, start: nat, e: Error)
    requires TagAt(data, pos) && ParseHeader(data, pos + 8) == Ok(h) && start == NextBoundary(pos + 24)
    requires Decode(data, start, h.width, h.height) == Err(e)
    ensures Record(data, pos, index) == Stop(Failed(e))
  {
  }

  /** Reads the 8-byte tag and compares it with "SPLASH!!". */
  method MatchTag(f: Stream) returns (matched: bool)
    modifies f
    ensures matched == TagAt(f.data, old(f.pos))
    ensures matched ==> f.pos == old(f.pos) + |Magic|
  {
    var tag := f.Read(|Magic|);
    matched := tag == Magic;
    if |tag| == |Magic| {
      assert tag == f.data[old(f.pos)..old(f.pos) + |Magic|];
    }
  }

  /** `read_int32(f.read(4))`. */
  method ReadField(f: Stream) returns (r: Result<nat>)
    modifies f
    ensures r == Field(f.data, old(f.pos))
    ensures r.Ok? ==> f.pos == old(f.pos) + 4
  {
    var bytes := f.Read(4);
    r := ReadInt32(bytes);
    if |bytes| == 4 {
      Le32Value(bytes);
    }
  }

  /** The header after the tag (logo_gen_decoder.py:92-96). */
  method ReadHeader(f: Stream) returns (r: Result<Header>)
    modifies f
    ensures r == ParseHeader(f.data, old(f.pos))
    ensures r.Ok? ==> f.pos == old(f.pos) + 16
  {
    var width := ReadField(f);
    if width.Err? {
      return Err(width.error);
    }
    var height := ReadField(f);
    if height.Err? {
      return Err(height.error);
    }
    var flag := ReadField(f);
    if flag.Err? {
      return Err(flag.error);
    }
    if flag.value != 1 {
      return Err(NotEncoded(flag.value));
    }
    var blocks := ReadField(f);
    if blocks.Err? {
      return Err(blocks.error);
    }
    return Ok(Header(width.value, height.value, blocks.value));
  }

  /** The zero skip (logo_gen_decoder.py:110-113). */
  method SkipZeros(f: Stream)
    requires 0 < f.pos
    modifies f
    ensures f.pos == Resume(f.data, old(f.pos))
  {
    ghost var q := f.pos;
    var b := f.Read(1);
    while b != [] && b[0] == 0
      invariant q >= |f.data| ==> b == [] && f.pos == q
      invariant q < |f.data| ==> q < f.pos <= |f.data| && Resume(f.data, q) == Resume(f.data, f.pos - 1)
      invariant b != [] ==> b == [f.data[f.pos - 1]]
      invariant q < |f.data| && b == [] ==> f.pos == |f.data| && f.data[f.pos - 1] == 0
      decreases |f.data| - f.pos + |b|
    {
      b := f.Read(1);
    }
    f.SeekBy(-1);
  }

  /** The payload of a record whose header is `h`, read with the cursor just past
      the header (logo_gen_decoder.py:97-113): seek to the next block boundary,
      decode, and on success move past the payload's blocks and the zeros after
      them. */
  method ProcessPayload(f: Stream, h: Header) returns (raster: array2<Rgb>, failure: Option<Error>)
    modifies f
    ensures fresh(raster) && raster.Length0 == h.width && raster.Length1 == h.height
    ensures var start := NextBoundary(old(f.pos));
      match Decode(f.data, start, h.width, h.height)
      case Err(e) => failure == Some(e)
      case Ok(d) =>
        failure == None && Shows(raster, d.pixels) && f.pos == Resume(f.data, start + h.blocks * BlockSize)
  {
    var payloadSize := h.blocks * BlockSize;
    f.SeekBy(BlockSize - f.pos % BlockSize);
    var start := f.pos;
    raster, failure := DecodeRle24(f, h.width, h.height, Some(Bounds(start, payloadSize)));
    if failure.None? {
      SkipZeros(f);
    }
  }

  /** One pass of process_splashimg's loop (logo_gen_decoder.py:86-113) over the
      record at the cursor, numbered `index`: on success, the decoded raster, with
      the cursor moved past the zeros after the payload. */
  method ProcessRecord(f: Stream, index: nat)
    returns (stop: Option<Status>, raster: array2<Rgb>, ghost image: Emitted)
    modifies f
    ensures fresh(raster)
    ensures stop.Some? ==> Record(f.data, old(f.pos), index) == Stop(stop.value)
    ensures stop.None? ==> Record(f.data, old(f.pos), index) == Continue(image, f.pos)
    ensures stop.None? ==>
      raster.Length0 == image.width && raster.Length1 == image.height && Shows(raster, image.pixels)
  {
    ghost var pos := f.pos;
    raster := new Rgb[0, 0];
    image := Emitted(index, 0, 0, []);
    var matched := MatchTag(f);
    if !matched {
      RecordUntagged(f.data, pos, index);
      return Some(if index == 1 then Unsupported else Finished), raster, image;
    }
    var header := ReadHeader(f);
    if header.Err? {
      RecordHeaderFails(f.data, pos, index, header.error);
      return Some(Failed(header.error)), raster, image;
    }
    var h := header.value;
    ghost var start := NextBoundary(f.pos);
    var failure;
    raster, failure := ProcessPayload(f, h);
    if failure.Some? {
      RecordPayloadFails(f.data, pos, index, h, start, failure.value);
      return Some(Failed(failure.value)), raster, image;
    }
    ghost var d := Decode(f.data, start, h.width, h.height).value;
    image := Emitted(index, h.width, h.height, d.pixels);
    RecordDecodes(f.data, pos, index, h, start, d, image, f.pos);
    stop := None;
  }

  /** Each of `images` saved, in order: under the output name of its number, as a
      raster of its size that shows its pixels. */
  ghost predicate Saved(template: string, names: seq<string>, rasters: seq<array2<Rgb>>, images: seq<Emitted>)
    reads rasters
  {
    |names| == |rasters| == |images| &&
    forall k :: 0 <= k < |images| ==>
      names[k] == OutputName(template, images[k].number) &&
      rasters[k].Length0 == images[k].width && rasters[k].Length1 == images[k].height &&
      Shows(rasters[k], images[k].pixels)
  }

  /** Saving the image numbered like the next one extends what is saved. */
  lemma SavedAppend(template: string, names: seq<string>, rasters: seq<array2<Rgb>>, images: seq<Emitted>,
                    name: string, raster: array2<Rgb>, image: Emitted)
    requires Saved(template, names, rasters, images)
    requires name == OutputName(template, image.number)
    requires raster.Length0 == image.width && raster.Length1 == image.height && Shows(raster, image.pixels)
    ensures Saved(template, names + [name], rasters + [raster], images + [image])
  {
  }

  /** One pass of process_splashimg's loop, adding what it saves to `names` and
      `rasters`: the walk from the cursor is what the pass saves followed by the
      walk from where it leaves the cursor. */
  method SaveNext(f: Stream, template: string, index: nat,
                  names: seq<string>, rasters: seq<array2<Rgb>>, ghost images: seq<Emitted>)
    returns (stop: Option<Status>, names': seq<string>, rasters': seq<array2<Rgb>>, ghost images': seq<Emitted>)
    requires Saved(template, names, rasters, images)
    modifies f
    ensures Saved(template, names', rasters', images')
    ensures stop.Some? ==> Then(images, Walk(f.data, old(f.pos), index)) == Walked(images', stop.value)
    ensures stop.None? ==>
      Then(images, Walk(f.data, old(f.pos), index)) == Then(images', Walk(f.data, f.pos, index + 1)) &&
      old(f.pos) + |Magic| <= |f.data| && old(f.pos) < f.pos
  {
    ghost var pos := f.pos;
    var raster;
    ghost var image;
    stop, raster, image := ProcessRecord(f, index);
    if stop.Some? {
      WalkStops(f.data, pos, index, stop.value);
      assert images + [] == images;
      return stop, names, rasters, images;
    }
    WalkContinues(f.data, pos, index, image, f.pos);
    ThenThen(images, [image], Walk(f.data, f.pos, index + 1));
    var name := OutputName(template, index);
    SavedAppend(template, names, rasters, images, name, raster, image);
    names', rasters', images' := names + [name], rasters + [raster], images + [image];
  }

  /** process_splashimg: walks the records of `data`, decoding each payload into a
      raster saved under the record's output name. Returns the names and rasters
      handed to the image library, in order, and how the walk ended. */
  method ProcessSplashImg(data: seq<Byte>, template: string)
    returns (names: seq<string>, rasters: seq<array2<Rgb>>, status: Status)
    ensures var w := WalkFile(data);
      status == w.status && Saved(template, names, rasters, w.images)
  {
    var f := new Stream(data);
    f.SeekTo(ReservedSize);
    var i: nat := 1;
    names, rasters := [], [];
    ghost var images: seq<Emitted> := [];
    while true
      invariant f.data == data
      invariant WalkFile(data) == Then(images, Walk(data, f.pos, i))
      invariant Saved(template, names, rasters, images)
      decreases |data| - f.pos
    {
      var stop;
      stop, names, rasters, images := SaveNext(f, template, i, names, rasters, images);
      if stop.Some? {
        return names, rasters, stop.value;
      }
      i := i + 1;
    }
  }
}
