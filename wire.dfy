/** Bytes as they come off the stream and the little-endian integers built from them
    (logo_gen_decoder.py, read_int32). */
module Wire {
  import opened Outcomes

  type Byte = b: int | 0 <= b < 256

  /** What a Python `read(n)` at position `pos` returns: at most `n` bytes, fewer
      near the end of the stream, none once `pos` is at or beyond the end. */
  function Slice(data: seq<Byte>, pos: nat, n: nat): (s: seq<Byte>)
    ensures |s| <= n
    ensures n > 0 ==> (|s| == n <==> pos + n <= |data|)
    ensures pos < |data| ==> |s| == if pos + n <= |data| then n else |data| - pos
    ensures s == [] || pos + |s| <= |data|
    ensures forall k :: 0 <= k < |s| ==> s[k] == data[pos + k]
  {
    if pos >= |data| then []
    else if pos + n <= |data| then data[pos..pos + n]
    else data[pos..]
  }

  function Pow256(n: nat): (p: nat)
    ensures p >= 1
  {
    if n == 0 then 1 else 256 * Pow256(n - 1)
  }

  /** The unsigned value of `s` read least significant byte first. */
  function LittleEndian(s: seq<Byte>): nat
  {
    if s == [] then 0 else s[0] + 256 * LittleEndian(s[1..])
  }

  /** The `n` least significant bytes of `v`, least significant first: the encoder
      that LittleEndian inverts. */
  function ToLittleEndian(v: nat, n: nat): (s: seq<Byte>)
    ensures |s| == n
  {
    if n == 0 then [] else [v % 256] + ToLittleEndian(v / 256, n - 1)
  }

  lemma {:induction false} LittleEndianBound(s: seq<Byte>)
    ensures LittleEndian(s) < Pow256(|s|)
  {
    if s != [] {
      LittleEndianBound(s[1..]);
    }
  }

  lemma {:induction false} LittleEndianOfEncoding(v: nat, n: nat)
    requires v < Pow256(n)
    ensures LittleEndian(ToLittleEndian(v, n)) == v
  {
    if n > 0 {
      var s := ToLittleEndian(v, n);
      assert s[1..] == ToLittleEndian(v / 256, n - 1);
      LittleEndianOfEncoding(v / 256, n - 1);
    }
  }

  lemma {:induction false} EncodingOfLittleEndian(s: seq<Byte>)
    ensures ToLittleEndian(LittleEndian(s), |s|) == s
  {
    if s != [] {
      DivUnique(LittleEndian(s), 256, LittleEndian(s[1..]), s[0]);
      EncodingOfLittleEndian(s[1..]);
    }
  }

  /** The value of the bytes from index k on, accumulated from the most significant
      byte down as read_int32's loop does. */
  function LittleEndianAt(s: seq<Byte>, k: nat): nat
    requires k <= |s|
    decreases |s| - k
  {
    if k == |s| then 0 else LittleEndianAt(s, k + 1) * 256 + s[k]
  }

  lemma {:induction false} LittleEndianAtStart(s: seq<Byte>, k: nat)
    requires k <= |s|
    ensures LittleEndianAt(s, k) == LittleEndian(s[k..])
    decreases |s| - k
  {
    if k < |s| {
      LittleEndianAtStart(s, k + 1);
      assert s[k..][1..] == s[k + 1..];
    }
  }

  /** Four bytes hold an unsigned 32-bit value. */
  lemma Le32Bound(s: seq<Byte>)
    requires |s| == 4
    ensures LittleEndian(s) < 0x1_0000_0000
  {
    LittleEndianBound(s);
    assert Pow256(4) == 0x1_0000_0000;
  }

  /** A 4-byte field: b0 + 256*b1 + 65536*b2 + 16777216*b3, an unsigned 32-bit value. */
  lemma Le32Value(s: seq<Byte>)
    requires |s| == 4
    ensures LittleEndian(s) == s[0] as int + 256 * (s[1] as int) + 65536 * (s[2] as int) + 16777216 * (s[3] as int)
    ensures LittleEndian(s) < 0x1_0000_0000
  {
    calc {
      LittleEndian(s);
      s[0] + 256 * LittleEndian(s[1..]);
      { assert s[1..][1..] == s[2..]; }
      s[0] + 256 * (s[1] + 256 * LittleEndian(s[2..]));
      { assert s[2..][1..] == s[3..]; }
      s[0] + 256 * (s[1] + 256 * (s[2] + 256 * LittleEndian(s[3..])));
      { assert s[3..][1..] == []; }
      s[0] + 256 * (s[1] + 256 * (s[2] + 256 * (s[3] as int)));
    }
    LittleEndianBound(s);
  }

  /** read_int32: fails unless exactly four bytes are given; otherwise assembles
      them from the most significant byte down, shifting by 8 bits per step. The
      shifted value has its low 8 bits clear, so the source's bitwise `|` is `+`. */
  method ReadInt32(bytes: seq<Byte>) returns (r: Result<nat>)
    ensures r.Ok? <==> |bytes| == 4
    ensures r.Err? ==> r.error == ShortField
    ensures r.Ok? ==> r.value == LittleEndian(bytes) && r.value < 0x1_0000_0000
  {
    if |bytes| != 4 {
      return Err(ShortField);
    }
    var value: nat := bytes[3];
    var i := 2;
    while i >= 0
      invariant -1 <= i <= 2
      invariant value == LittleEndianAt(bytes, i + 1)
    {
      value := value * 256 + bytes[i];
      i := i - 1;
    }
    LittleEndianAtStart(bytes, 0);
    assert bytes[0..] == bytes;
    Le32Bound(bytes);
    return Ok(value);
  }

  /** Multiplying by a non-negative factor keeps the order. */
  lemma {:induction false} MulMonotone(d: nat, x: int, y: int)
    requires x <= y
    ensures d * x <= d * y
  {
    if d > 0 {
      MulMonotone(d - 1, x, y);
    }
  }

  /** Euclidean division has exactly one quotient and remainder. */
  lemma DivUnique(a: int, d: int, q: int, r: int)
    requires d > 0 && 0 <= r < d && a == d * q + r
    ensures a / d == q && a % d == r
  {
    var q' := a / d;
    var r' := a % d;
    assert a == d * q' + r';
    if q' < q {
      MulMonotone(d, q' + 1, q);
    } else if q < q' {
      MulMonotone(d, q + 1, q');
    }
  }
}
