/** The RLE24 token stream as a value, with the encoding its grammar implies, and
    the proof that decodeRLE24 inverts it (logo_gen_decoder.py:32-55). No encoder
    exists in the source; this one only serves as the reference the decoder is
    checked against. */
module Rle24Tokens {
  import opened Outcomes
  import opened Wire
  import opened Pixels
  import opened Rle24

  /** A run of `count` copies of one colour, or a literal list of colours. */
  datatype Token = Run(count: nat, color: Rgb) | Literal(colors: seq<Rgb>)

  /** A token one control byte can express: 1 to 128 pixels. */
  predicate WellFormed(t: Token)
  {
    match t
    case Run(n, _) => 1 <= n <= 128
    case Literal(cs) => 1 <= |cs| <= 128
  }

  /** The tokens the format can carry. */
  type Encodable = t: Token | WellFormed(t) witness Run(1, Black)

  /** The pixels a token stands for. */
  function Expand(t: Token): seq<Rgb>
  {
    match t
    case Run(n, c) => Repeat(c, n)
    case Literal(cs) => cs
  }

  /** A list of tokens, first to last. */
  datatype TokenList = Empty | Cons(head: Encodable, tail: TokenList)

  /** The pixels a list of tokens stands for, in order. */
  function ExpandAll(ts: TokenList): seq<Rgb>
  {
    match ts
    case Empty => []
    case Cons(t, tail) => Expand(t) + ExpandAll(tail)
  }

  /** Colours on the wire: blue, green, red each. */
  function EncodeColors(cs: seq<Rgb>): (s: seq<Byte>)
    ensures |s| == 3 * |cs|
  {
    if cs == [] then []
    else
      var c := cs[|cs| - 1];
      EncodeColors(cs[..|cs| - 1]) + [c.b, c.g, c.r]
  }

  /** The bytes a token takes on the wire: a control byte, then three per colour. */
  function TokenSize(t: Token): nat
  {
    match t
    case Run(_, _) => 4
    case Literal(cs) => 1 + 3 * |cs|
  }

  /** A run is control byte 127 + count, a literal |colors| - 1. */
  function EncodeToken(t: Encodable): (e: seq<Byte>)
    ensures |e| == TokenSize(t)
  {
    match t
    case Run(n, c) => [127 + n, c.b, c.g, c.r]
    case Literal(cs) => [|cs| - 1] + EncodeColors(cs)
  }

  /** A list of tokens on the wire: their encodings back to back. */
  function EncodeAll(ts: TokenList): seq<Byte>
  {
    match ts
    case Empty => []
    case Cons(t, tail) => EncodeToken(t) + EncodeAll(tail)
  }

  /** Colour k of a literal takes bytes 3k, 3k + 1 and 3k + 2 of its encoding. */
  lemma {:induction false} EncodeColorsAt(cs: seq<Rgb>, k: nat)
    requires k < |cs|
    ensures EncodeColors(cs)[3 * k] == cs[k].b
    ensures EncodeColors(cs)[3 * k + 1] == cs[k].g
    ensures EncodeColors(cs)[3 * k + 2] == cs[k].r
  {
    if k < |cs| - 1 {
      EncodeColorsAt(cs[..|cs| - 1], k);
    }
  }

  /** Colour k of the literal whose control byte is at `p`. */
  function LiteralColor(data: seq<Byte>, p: nat, k: nat): Rgb
    requires p + 4 + 3 * k <= |data|
  {
    ColorAt(data, p + 1 + 3 * k)
  }

  /** Token `t` sits in `data` at `p`: its control byte, then its colours. */
  predicate TokenAt(data: seq<Byte>, p: nat, t: Encodable)
  {
    match t
    case Run(n, c) =>
      p + 4 <= |data| && data[p] == 127 + n && ColorAt(data, p + 1) == c
    case Literal(cs) =>
      p + 1 + 3 * |cs| <= |data| && data[p] == |cs| - 1 &&
      forall k {:trigger LiteralColor(data, p, k)} :: 0 <= k < |cs| ==> LiteralColor(data, p, k) == cs[k]
  }

  /** The bytes of a token's encoding, wherever they sit between other bytes,
      are that token there. */
  lemma TokenInStream(pre: seq<Byte>, t: Encodable, post: seq<Byte>)
    ensures TokenAt(pre + EncodeToken(t) + post, |pre|, t)
  {
    var data, e, p := pre + EncodeToken(t) + post, EncodeToken(t), |pre|;
    assert data[p] == e[0];
    match t
    case Run(n, c) =>
      assert data[p + 1] == e[1] && data[p + 2] == e[2] && data[p + 3] == e[3];
    case Literal(cs) =>
      forall k | 0 <= k < |cs|
        ensures LiteralColor(data, p, k) == cs[k]
      {
        EncodeColorsAt(cs, k);
        assert data[p + 1 + 3 * k] == e[1 + 3 * k];
        assert data[p + 2 + 3 * k] == e[2 + 3 * k];
        assert data[p + 3 + 3 * k] == e[3 + 3 * k];
      }
  }

  /** The tokens `ts` sit in `data` one after another from `p`. */
  predicate EncodedAt(data: seq<Byte>, p: nat, ts: TokenList)
    decreases ts
  {
    match ts
    case Empty => true
    case Cons(t, tail) => TokenAt(data, p, t) && EncodedAt(data, p + TokenSize(t), tail)
  }

  /** Moving the front of the middle part over to the prefix. */
  lemma Regroup(pre: seq<Byte>, a: seq<Byte>, b: seq<Byte>, post: seq<Byte>)
    ensures pre + (a + b) + post == pre + a + b + post
    ensures pre + (a + b) + post == pre + a + (b + post)
  {
  }

  /** Wherever the encoding of `ts` sits in a stream, its tokens are there, one
      after another. */
  lemma {:induction false} EncodingLaidOut(pre: seq<Byte>, ts: TokenList, post: seq<Byte>)
    ensures EncodedAt(pre + EncodeAll(ts) + post, |pre|, ts)
    decreases ts
  {
    match ts
    case Empty =>
    case Cons(t, tail) =>
      Regroup(pre, EncodeToken(t), EncodeAll(tail), post);
      TokenInStream(pre, t, EncodeAll(tail) + post);
      EncodingLaidOut(pre + EncodeToken(t), tail, post);
  }

  /** An encoded run decodes to its copies of its colour. */
  lemma DecodeEncodedRun(data: seq<Byte>, p: nat, n: nat, c: Rgb, room: nat)
    requires 1 <= n <= 128 && n <= room && p + 4 <= |data|
    requires data[p] == 127 + n && ColorAt(data, p + 1) == c
    ensures DecodeToken(data, p, room) == Ok(Decoded(Repeat(c, n), p + 4))
  {
  }

  /** An encoded literal decodes to its colours. */
  lemma DecodeEncodedLiteral(data: seq<Byte>, p: nat, cs: seq<Rgb>, room: nat)
    requires 1 <= |cs| <= 128 && |cs| <= room && p + 1 + 3 * |cs| <= |data| && data[p] == |cs| - 1
    requires forall k {:trigger LiteralColor(data, p, k)} :: 0 <= k < |cs| ==> LiteralColor(data, p, k) == cs[k]
    ensures DecodeToken(data, p, room) == Ok(Decoded(cs, p + 1 + 3 * |cs|))
  {
    forall k | 0 <= k < |cs|
      ensures Colors(data, p + 1, |cs|)[k] == cs[k]
    {
      ColorsIndex(data, p + 1, |cs|, k);
      assert LiteralColor(data, p, k) == cs[k];
    }
    assert Colors(data, p + 1, |cs|) == cs;
  }

  /** One encoded token decodes to its pixels and ends where its encoding ends,
      whatever follows it, as long as its pixels fit. */
  lemma DecodeEncodedToken(data: seq<Byte>, p: nat, t: Encodable, room: nat)
    requires |Expand(t)| <= room && TokenAt(data, p, t)
    ensures p < p + TokenSize(t) <= |data|
    ensures DecodeToken(data, p, room) == Ok(Decoded(Expand(t), p + TokenSize(t)))
  {
    match t
    case Run(n, c) => DecodeEncodedRun(data, p, n, c, room);
    case Literal(cs) => DecodeEncodedLiteral(data, p, cs, room);
  }

  /** The number of pixels a list of tokens writes. */
  function TotalPixels(ts: TokenList): nat
  {
    match ts
    case Empty => 0
    case Cons(t, tail) => |Expand(t)| + TotalPixels(tail)
  }

  /** TotalPixels counts the pixels ExpandAll yields, and every token writes some. */
  lemma {:induction false} TotalPixelsCounts(ts: TokenList)
    ensures TotalPixels(ts) == |ExpandAll(ts)|
    ensures ts.Cons? ==> TotalPixels(ts) > 0
  {
    match ts
    case Empty =>
    case Cons(_, tail) => TotalPixelsCounts(tail);
  }

  /** The bytes the encoding of `ts` takes. */
  function EncodedSize(ts: TokenList): nat
  {
    match ts
    case Empty => 0
    case Cons(t, tail) => TokenSize(t) + EncodedSize(tail)
  }

  /** EncodedSize is the length of the encoding. */
  lemma {:induction false} EncodedSizeIsLength(ts: TokenList)
    ensures EncodedSize(ts) == |EncodeAll(ts)|
  {
    match ts
    case Empty =>
    case Cons(_, tail) => EncodedSizeIsLength(tail);
  }

  /** The pixels `total` either fill the room exactly, or fit in it and the
      stream of `size` bytes ends at `end`. */
  predicate Fits(total: nat, room: nat, end: nat, size: nat)
  {
    (0 < total == room) || (total <= room && end == size)
  }

  /** A token that fills the room ends the decoding. */
  lemma DecodeFromFull(data: seq<Byte>, p: nat, room: nat, pixels: seq<Rgb>, q: nat)
    requires p < |data| && DecodeToken(data, p, room) == Ok(Decoded(pixels, q)) && |pixels| == room
    ensures DecodeFrom(data, p, room) == Ok(Decoded(pixels, q))
  {
  }

  /** The first token of a list laid out from `p` decodes to its pixels, when
      they fit. `q`, the end of that token, is passed ready-made (here and in
      the lemmas below) so that goals and ensures match term for term instead
      of the solver re-deriving the sums. */
  lemma HeadDecodes(data: seq<Byte>, p: nat, ts: TokenList, room: nat, q: nat)
    requires ts.Cons? && EncodedAt(data, p, ts) && |Expand(ts.head)| <= room
    requires q == p + TokenSize(ts.head)
    ensures p < |data|
    ensures DecodeToken(data, p, room) == Ok(Decoded(Expand(ts.head), q))
  {
    DecodeEncodedToken(data, p, ts.head, room);
  }

  /** A first token that fills the room, in a list that fits, is the only one. */
  lemma OnlyToken(ts: TokenList, room: nat, p: nat, size: nat)
    requires ts.Cons? && |Expand(ts.head)| >= room
    requires Fits(TotalPixels(ts), room, p + EncodedSize(ts), size)
    ensures |Expand(ts.head)| == room
    ensures ExpandAll(ts) == Expand(ts.head) && EncodedSize(ts) == TokenSize(ts.head)
  {
    TotalPixelsCounts(ts.tail);
    assert Expand(ts.head) + [] == Expand(ts.head);
  }

  /** A first token that leaves room: the rest of the list is laid out after it
      and fits in what is left. */
  lemma RestFits(data: seq<Byte>, p: nat, ts: TokenList, room: nat, q: nat, left: nat)
    requires ts.Cons? && EncodedAt(data, p, ts) && |Expand(ts.head)| < room
    requires Fits(TotalPixels(ts), room, p + EncodedSize(ts), |data|)
    requires q == p + TokenSize(ts.head) && left == room - |Expand(ts.head)|
    ensures EncodedAt(data, q, ts.tail)
    ensures Fits(TotalPixels(ts.tail), left, q + EncodedSize(ts.tail), |data|)
  {
  }

  /** The pixels of a list are its first token's, then the rest's. */
  lemma PrependHead(ts: TokenList, p: nat, q: nat)
    requires ts.Cons? && q == p + TokenSize(ts.head)
    ensures Prepend(Expand(ts.head), Ok(Decoded(ExpandAll(ts.tail), q + EncodedSize(ts.tail))))
      == Ok(Decoded(ExpandAll(ts), p + EncodedSize(ts)))
  {
  }

  /** Decoding a list whose first token leaves room is that token, then the
      decoding of the rest. */
  lemma ConsThenRest(data: seq<Byte>, p: nat, ts: TokenList, room: nat, q: nat, left: nat)
    requires ts.Cons? && p < |data| && |Expand(ts.head)| < room
    requires q == p + TokenSize(ts.head) && left == room - |Expand(ts.head)|
    requires DecodeToken(data, p, room) == Ok(Decoded(Expand(ts.head), q))
    requires DecodeFrom(data, q, left) == Ok(Decoded(ExpandAll(ts.tail), q + EncodedSize(ts.tail)))
    ensures DecodeFrom(data, p, room) == Ok(Decoded(ExpandAll(ts), p + EncodedSize(ts)))
  {
    DecodeFromStep(data, p, room, Decoded(Expand(ts.head), q), left);
    PrependHead(ts, p, q);
  }

  /** Decoding a list whose first token fills the room stops right after it. */
  lemma ConsFills(data: seq<Byte>, p: nat, ts: TokenList, room: nat, q: nat)
    requires ts.Cons? && p < |data| && |Expand(ts.head)| == room && q == p + TokenSize(ts.head)
    requires DecodeToken(data, p, room) == Ok(Decoded(Expand(ts.head), q))
    requires ExpandAll(ts) == Expand(ts.head) && EncodedSize(ts) == TokenSize(ts.head)
    ensures DecodeFrom(data, p, room) == Ok(Decoded(ExpandAll(ts), p + EncodedSize(ts)))
  {
    DecodeFromFull(data, p, room, Expand(ts.head), q);
  }

  /** Tokens laid out from `p` decode to their pixels in order, and decoding
      stops right after them: either their last token fills the raster, whatever
      bytes follow, or the stream ends there. */
  lemma DecodeEncodedAt(data: seq<Byte>, p: nat, ts: TokenList, room: nat)
    requires EncodedAt(data, p, ts)
    requires Fits(TotalPixels(ts), room, p + EncodedSize(ts), |data|)
    ensures DecodeFrom(data, p, room) == Ok(Decoded(ExpandAll(ts), p + EncodedSize(ts)))
    decreases ts, 2
  {
    match ts
    case Empty =>
    case Cons(t, _) =>
      if |Expand(t)| < room {
        HeadLeavesRoom(data, p, ts, room);
      } else {
        HeadFillsRoom(data, p, ts, room);
      }
  }

  /** The first token fills the room: it is the whole list. */
  lemma HeadFillsRoom(data: seq<Byte>, p: nat, ts: TokenList, room: nat)
    requires ts.Cons? && EncodedAt(data, p, ts) && |Expand(ts.head)| >= room
    requires Fits(TotalPixels(ts), room, p + EncodedSize(ts), |data|)
    ensures DecodeFrom(data, p, room) == Ok(Decoded(ExpandAll(ts), p + EncodedSize(ts)))
  {
    var q := p + TokenSize(ts.head);
    OnlyToken(ts, room, p, |data|);
    HeadDecodes(data, p, ts, room, q);
    ConsFills(data, p, ts, room, q);
  }

  /** The first token leaves room: decoding goes on with the rest of the list. */
  lemma HeadLeavesRoom(data: seq<Byte>, p: nat, ts: TokenList, room: nat)
    requires ts.Cons? && EncodedAt(data, p, ts) && |Expand(ts.head)| < room
    requires Fits(TotalPixels(ts), room, p + EncodedSize(ts), |data|)
    ensures DecodeFrom(data, p, room) == Ok(Decoded(ExpandAll(ts), p + EncodedSize(ts)))
    decreases ts, 1
  {
    var q, left := p + TokenSize(ts.head), room - |Expand(ts.head)|;
    RestFits(data, p, ts, room, q, left);
    DecodeEncodedAt(data, q, ts.tail, left);
    HeadThenTail(data, p, ts, room, q, left);
  }

  /** The first token, then the decoding of the rest after it. */
  lemma HeadThenTail(data: seq<Byte>, p: nat, ts: TokenList, room: nat, q: nat, left: nat)
    requires ts.Cons? && EncodedAt(data, p, ts) && |Expand(ts.head)| < room
    requires q == p + TokenSize(ts.head) && left == room - |Expand(ts.head)|
    requires DecodeFrom(data, q, left) == Ok(Decoded(ExpandAll(ts.tail), q + EncodedSize(ts.tail)))
    ensures DecodeFrom(data, p, room) == Ok(Decoded(ExpandAll(ts), p + EncodedSize(ts)))
  {
    HeadDecodes(data, p, ts, room, q);
    ConsThenRest(data, p, ts, room, q, left);
  }

  /** DecodeEncodedAt, with the end of the encoding given: stating the goal with
      `end` keeps the caller's proof from re-deriving the sum (a solver-cost
      helper, no new fact). */
  lemma DecodesUpTo(data: seq<Byte>, p: nat, ts: TokenList, room: nat, end: nat)
    requires EncodedAt(data, p, ts) && end == p + EncodedSize(ts)
    requires Fits(TotalPixels(ts), room, p + EncodedSize(ts), |data|)
    ensures DecodeFrom(data, p, room) == Ok(Decoded(ExpandAll(ts), end))
  {
    DecodeEncodedAt(data, p, ts, room);
  }

  /** Where the encoding of `ts` sits between `pre` and `post`, its tokens end
      at its last byte, and they fit the room as decoding needs. Kept apart from
      LaidOutAndFits only to keep each proof small for the solver. */
  lemma EncodingFits(pre: seq<Byte>, ts: TokenList, post: seq<Byte>, room: nat)
    requires (0 < TotalPixels(ts) == room) || (TotalPixels(ts) <= room && post == [])
    ensures EncodedSize(ts) == |EncodeAll(ts)|
    ensures Fits(TotalPixels(ts), room, |pre| + EncodedSize(ts), |pre + EncodeAll(ts) + post|)
  {
    EncodedSizeIsLength(ts);
  }

  /** The encoding of `ts` between `pre` and `post` is laid out as decoding
      needs it: the preconditions of DecodesUpTo, gathered in one step so that
      DecodeEncoded makes only two calls (a solver-cost helper, no new fact). */
  lemma LaidOutAndFits(pre: seq<Byte>, ts: TokenList, post: seq<Byte>, room: nat)
    requires (0 < TotalPixels(ts) == room) || (TotalPixels(ts) <= room && post == [])
    ensures EncodedAt(pre + EncodeAll(ts) + post, |pre|, ts)
    ensures |pre| + |EncodeAll(ts)| == |pre| + EncodedSize(ts)
    ensures Fits(TotalPixels(ts), room, |pre| + EncodedSize(ts), |pre + EncodeAll(ts) + post|)
  {
    EncodingLaidOut(pre, ts, post);
    EncodingFits(pre, ts, post, room);
  }

  /** Decoding inverts encoding: wherever the encoding of `ts` sits in the
      stream `data`, between `pre` and `post`, decoding from its first byte
      yields the tokens' pixels in order and stops at `end`, right after them,
      when their last token fills the raster (whatever bytes follow: the rest of
      the payload block, the next record) or when the stream ends there.
      `data` and `end` name the stream and the end of the encoding, which keeps
      the proof cheap for the solver on every seed. */
  lemma DecodeEncoded(pre: seq<Byte>, ts: TokenList, post: seq<Byte>, room: nat, data: seq<Byte>, end: nat)
    requires (0 < TotalPixels(ts) == room) || (TotalPixels(ts) <= room && post == [])
    requires data == pre + EncodeAll(ts) + post && end == |pre| + |EncodeAll(ts)|
    ensures DecodeFrom(data, |pre|, room) == Ok(Decoded(ExpandAll(ts), end))
  {
    LaidOutAndFits(pre, ts, post, room);
    DecodesUpTo(data, |pre|, ts, room, end);
  }
}
