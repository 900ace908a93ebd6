/** `get_color`: the CSS colour string `rgb(r, g, b)` of palette entry `num`, read
    from the foreign constant `PALETTE` (three bytes per colour). */
module Palette {
  import opened Wrappers

  type U8 = x: nat | x < 256

  function Digit(d: nat): (c: char)
    requires d < 10
    ensures '0' <= c <= '9' && DigitValue(c) == d
  {
    ('0' as int + d) as char
  }

  function DigitValue(c: char): nat
  {
    if '0' <= c <= '9' then (c - '0') as nat else 0
  }

  /** Decimal digits of n, most significant first, as `{}` formats an integer. */
  function Decimal(n: nat): (s: string)
    ensures |s| >= 1
    ensures forall i :: 0 <= i < |s| ==> '0' <= s[i] <= '9'
    ensures n > 0 ==> s[0] != '0'
    ensures |s| == 1 || s[0] != '0'
  {
    if n < 10 then [Digit(n)] else Decimal(n / 10) + [Digit(n % 10)]
  }

  function ParseDecimal(s: string): nat
  {
    if s == [] then 0 else 10 * ParseDecimal(s[..|s| - 1]) + DigitValue(s[|s| - 1])
  }

  /** Reading the decimal digits back gives the number. */
  lemma {:induction false} DecimalRoundTrip(n: nat)
    ensures ParseDecimal(Decimal(n)) == n
  {
    if n >= 10 {
      DecimalRoundTrip(n / 10);
      var s := Decimal(n);
      assert s[..|s| - 1] == Decimal(n / 10) && s[|s| - 1] == Digit(n % 10);
    }
  }

  /** The palette indices of colour `num` that the source reads, as written:
      `3 * num as usize` is computed in usize, but `(3 * num + 1) as usize` and
      `(3 * num + 2) as usize` are computed in u8 and wrap modulo 256. */
  function ColorIndicesAsWritten(num: U8): (nat, nat, nat)
  {
    (3 * num, (3 * num + 1) % 256, (3 * num + 2) % 256)
  }

  /** The intended indices: the three consecutive bytes of colour `num`. */
  function ColorIndices(num: U8): (r: (nat, nat, nat))
    ensures r.1 == r.0 + 1 && r.2 == r.0 + 2 && r.0 == 3 * num
  {
    (3 * num, 3 * num + 1, 3 * num + 2)
  }

  /** As written, colour 85 reads bytes 255, 0 and 1; the intended bytes are 255,
      256 and 257. The two agree for every colour below 85. */
  lemma ColorIndicesWrap()
    ensures ColorIndicesAsWritten(85) == (255, 0, 1)
    ensures ColorIndices(85) == (255, 256, 257)
    ensures forall num: U8 :: num < 85 <==> ColorIndicesAsWritten(num) == ColorIndices(num)
  {
  }

  /** Distinct colours read disjoint byte triples. */
  lemma ColorIndicesDisjoint(a: U8, b: U8)
    requires a != b
    ensures var (x, y) := (ColorIndices(a), ColorIndices(b));
      x.0 != y.0 && x.0 != y.1 && x.0 != y.2 && x.1 != y.1 && x.1 != y.2 && x.2 != y.2
      && x.1 != y.0 && x.2 != y.0 && x.2 != y.1
  {
  }

  function Rgb(r: nat, g: nat, b: nat): string
  {
    "rgb(" + Decimal(r) + ", " + Decimal(g) + ", " + Decimal(b) + ")"
  }

  /** `get_color` as written; None where an index is past the palette's end and the source panics. */
  function GetColorAsWritten(palette: seq<U8>, num: U8): (r: Option<string>)
    ensures var (i, j, k) := ColorIndicesAsWritten(num);
      r.Some? <==> i < |palette| && j < |palette| && k < |palette|
  {
    var (i, j, k) := ColorIndicesAsWritten(num);
    if i < |palette| && j < |palette| && k < |palette| then Some(Rgb(palette[i], palette[j], palette[k]))
    else None
  }

  /** A palette of 258 bytes on which the as-written `get_color` gives colour 85 the
      wrong green and blue components. */
  lemma GetColorAsWrittenWrong()
    ensures var palette := seq(258, (i: nat) => if i < 256 then 0 else 1);
      GetColorAsWritten(palette, 85) == Some(Rgb(0, 0, 0))
      && GetColor(palette, 85) == Some(Rgb(0, 1, 1))
      && GetColorAsWritten(palette, 85) != GetColor(palette, 85)
  {
    var palette: seq<U8> := seq(258, (i: nat) => if i < 256 then 0 else 1);
    assert Decimal(0) == "0" && Decimal(1) == "1";
    assert Rgb(0, 0, 0)[7] == '0';
    assert Rgb(0, 1, 1)[7] == '1';
  }

  /** `get_color` with the intended indices: defined exactly when the colour's three
      bytes exist, and then the CSS string of those bytes. */
  function GetColor(palette: seq<U8>, num: U8): (r: Option<string>)
    ensures r.Some? <==> 3 * num + 2 < |palette|
    ensures r.Some? ==> r.value == Rgb(palette[3 * num], palette[3 * num + 1], palette[3 * num + 2])
  {
    var (i, j, k) := ColorIndices(num);
    if k < |palette| then Some(Rgb(palette[i], palette[j], palette[k])) else None
  }
}
