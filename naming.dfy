/** The names the decoded images are saved under (logo_gen_decoder.py:102-106):
    the record number, written in decimal, goes in front of the template's last
    '.', or at its end when it has none. */
module Naming {
  import opened Outcomes

  /** `s.rfind('.')`: the position of the last '.', or None where Python gives -1. */
  function LastDot(s: string): (r: Option<nat>)
    ensures r.Some? ==> r.value < |s| && s[r.value] == '.'
    ensures r.Some? ==> forall k :: r.value < k < |s| ==> s[k] != '.'
    ensures r.None? ==> forall k :: 0 <= k < |s| ==> s[k] != '.'
  {
    if s == [] then None
    else if s[|s| - 1] == '.' then Some(|s| - 1)
    else LastDot(s[..|s| - 1])
  }

  /** A '.' with none after it is the last one, and a string without any has none. */
  lemma LastDotIs(s: string, r: Option<nat>)
    requires r.Some? ==> r.value < |s| && s[r.value] == '.'
    requires r.Some? ==> forall k :: r.value < k < |s| ==> s[k] != '.'
    requires r.None? ==> forall k :: 0 <= k < |s| ==> s[k] != '.'
    ensures LastDot(s) == r
  {
  }

  predicate IsDigit(c: char)
  {
    '0' <= c <= '9'
  }

  function Digit(d: nat): (c: char)
    requires d < 10
    ensures IsDigit(c)
  {
    ('0' as int + d) as char
  }

  function DigitValue(c: char): (d: nat)
    requires IsDigit(c)
    ensures d < 10
  {
    c as int - '0' as int
  }

  /** `str(n)` for a non-negative int: its decimal digits, most significant first,
      without leading zeros. */
  function Decimal(n: nat): (s: string)
    ensures 0 < |s|
    ensures forall k :: 0 <= k < |s| ==> IsDigit(s[k])
    ensures 1 < |s| ==> s[0] != '0'
  {
    if n < 10 then [Digit(n)] else Decimal(n / 10) + [Digit(n % 10)]
  }

  /** The number a string of decimal digits denotes: what `int(s)` parses. */
  function DecimalValue(s: string): nat
    requires forall k :: 0 <= k < |s| ==> IsDigit(s[k])
  {
    if s == [] then 0 else DecimalValue(s[..|s| - 1]) * 10 + DigitValue(s[|s| - 1])
  }

  lemma {:induction false} DecimalRoundTrip(n: nat)
    ensures DecimalValue(Decimal(n)) == n
  {
    if n >= 10 {
      var s := Decimal(n);
      assert s[..|s| - 1] == Decimal(n / 10);
      DecimalRoundTrip(n / 10);
    }
  }

  /** Different numbers are written differently. */
  lemma DecimalInjective(a: nat, b: nat)
    requires Decimal(a) == Decimal(b)
    ensures a == b
  {
    DecimalRoundTrip(a);
    DecimalRoundTrip(b);
  }

  /** The file name of the record numbered `index`. */
  function OutputName(template: string, index: nat): (name: string)
    ensures |name| == |template| + |Decimal(index)|
  {
    match LastDot(template)
    case None => template + Decimal(index)
    case Some(pos) => template[..pos] + Decimal(index) + template[pos..]
  }

  /** The number goes in front of the extension, so the name keeps the template's
      extension: its last '.' is the template's, shifted by the digits. */
  lemma NameKeepsExtension(template: string, index: nat)
    ensures LastDot(OutputName(template, index)) ==
      match LastDot(template)
      case None => None
      case Some(pos) => Some(pos + |Decimal(index)|)
  {
    var name, digits := OutputName(template, index), Decimal(index);
    match LastDot(template)
    case None =>
      assert forall k :: 0 <= k < |name| ==> name[k] != '.' by {
        forall k | 0 <= k < |name|
          ensures name[k] != '.'
        {
          if k >= |template| {
            assert name[k] == digits[k - |template|];
          }
        }
      }
      LastDotIs(name, None);
    case Some(pos) =>
      var at := pos + |digits|;
      assert name[at] == template[pos];
      assert forall k :: at < k < |name| ==> name[k] != '.' by {
        forall k | at < k < |name|
          ensures name[k] != '.'
        {
          assert name[k] == template[k - |digits|];
        }
      }
      LastDotIs(name, Some(at));
  }

  /** Different records never share an output file. */
  lemma NamesDistinct(template: string, a: nat, b: nat)
    requires OutputName(template, a) == OutputName(template, b)
    ensures a == b
  {
    var name, da, db := OutputName(template, a), Decimal(a), Decimal(b);
    assert |da| == |db|;
    match LastDot(template)
    case None =>
      assert name[|template|..] == da;
      assert OutputName(template, b)[|template|..] == db;
      DecimalInjective(a, b);
    case Some(pos) =>
      assert name[pos..pos + |da|] == da;
      assert OutputName(template, b)[pos..pos + |db|] == db;
      DecimalInjective(a, b);
  }
}
