/**
 * The colour palettes of config.c and `get_palette_color`, on exact reals:
 * the table, the stop count, the folding of the parameter into [0, 1), and
 * the per-channel blend between two neighbouring stops.
 */
module Palette {
  import opened Cells

  /** `MAX_PALETTE_COLORS`: every palette has room for this many stops. */
  const MaxColors: nat := 16

  /** A `ColorPalette`: a name and exactly `MaxColors` colour slots. */
  datatype Palette = Palette(name: string, colors: seq<Color>)

  predicate WellFormed(p: Palette) {
    |p.colors| == MaxColors
  }

  /** The slots a C initializer leaves unset are zero, that is black. */
  function Padded(cs: seq<Color>): (r: seq<Color>)
    requires |cs| <= MaxColors
    ensures |r| == MaxColors && r[..|cs|] == cs
    ensures forall i :: |cs| <= i < MaxColors ==> r[i] == Black
  {
    cs + seq(MaxColors - |cs|, _ => Black)
  }

  /** The four built-in palettes, in table order. */
  const Palettes: seq<Palette> := [
    Palette("default", Padded([Color(255, 0, 0), Color(255, 127, 0), Color(255, 255, 0), Color(0, 255, 0),
                               Color(0, 0, 255), Color(75, 0, 130), Color(148, 0, 211)])),
    Palette("pastel", Padded([Color(255, 179, 186), Color(255, 204, 186), Color(255, 229, 186), Color(255, 255, 186),
                              Color(229, 255, 186), Color(204, 255, 186), Color(179, 255, 186), Color(186, 255, 201),
                              Color(186, 255, 229), Color(186, 225, 255), Color(186, 201, 255), Color(204, 186, 255),
                              Color(229, 186, 255), Color(255, 186, 229), Color(255, 186, 204)])),
    Palette("vaporwave", Padded([Color(255, 110, 199), Color(255, 110, 229), Color(204, 110, 255), Color(14, 200, 240),
                                 Color(14, 220, 240), Color(14, 240, 220), Color(14, 240, 180)])),
    Palette("rainbow", Padded([Color(255, 0, 0), Color(255, 127, 0), Color(255, 255, 0), Color(0, 255, 0),
                               Color(0, 0, 255), Color(75, 0, 130), Color(148, 0, 211)]))
  ]

  // ---------------------------------------------------------------------
  // Stop count
  // ---------------------------------------------------------------------

  /** The number of leading non-black colours of `cs`. */
  function Leading(cs: seq<Color>): (k: nat)
    ensures k <= |cs|
  {
    if |cs| == 0 || cs[0] == Black then 0 else 1 + Leading(cs[1..])
  }

  /** The stops of a palette: the non-black colours before the first black slot. */
  function StopCount(cs: seq<Color>): nat
    requires |cs| == MaxColors
  {
    Leading(cs)
  }

  /**
   * The stop count is the first black slot, or all sixteen: every colour
   * before it is non-black, and the slot at it (if any) is black. A black
   * colour therefore ends a palette early.
   */
  lemma {:induction false} LeadingSpec(cs: seq<Color>)
    ensures forall i :: 0 <= i < Leading(cs) ==> cs[i] != Black
    ensures Leading(cs) < |cs| ==> cs[Leading(cs)] == Black
  {
    if |cs| > 0 && cs[0] != Black {
      LeadingSpec(cs[1..]);
      forall i | 0 < i < Leading(cs) ensures cs[i] != Black {
        assert cs[i] == cs[1..][i - 1];
      }
    }
  }

  /** Any count with the property of `LeadingSpec` is the stop count. */
  lemma {:induction false} LeadingUnique(cs: seq<Color>, k: nat)
    requires k <= |cs|
    requires forall i :: 0 <= i < k ==> cs[i] != Black
    requires k < |cs| ==> cs[k] == Black
    ensures Leading(cs) == k
  {
    if k > 0 {
      LeadingUnique(cs[1..], k - 1);
    }
  }

  /** The built-in palettes have 7, 15, 7 and 7 stops. */
  lemma TableStops()
    ensures |Palettes| == 4
    ensures forall i :: 0 <= i < |Palettes| ==> WellFormed(Palettes[i])
    ensures StopCount(Palettes[0].colors) == 7 && StopCount(Palettes[1].colors) == 15
    ensures StopCount(Palettes[2].colors) == 7 && StopCount(Palettes[3].colors) == 7
  {
    var ks := [7, 15, 7, 7];
    forall p | 0 <= p < 4 ensures WellFormed(Palettes[p]) && StopCount(Palettes[p].colors) == ks[p] {
      LeadingUnique(Palettes[p].colors, ks[p]);
    }
  }

  // ---------------------------------------------------------------------
  // Folding and truncation
  // ---------------------------------------------------------------------

  /** C's conversion of a real to an integer: truncation toward zero. */
  function Trunc(t: real): int {
    if t >= 0.0 then t.Floor else -((-t).Floor)
  }

  /** `fmodf(t, 1)`, then 1 added to a negative remainder. */
  function Fold(t: real): (r: real)
    ensures 0.0 <= r < 1.0
  {
    var m := t - Trunc(t) as real;
    if m < 0.0 then m + 1.0 else m
  }

  /** The fold is the fractional part `t - floor(t)`. */
  lemma FoldIsFraction(t: real)
    ensures Fold(t) == t - t.Floor as real
  {
    if t < 0.0 {
      var n := (-t).Floor;
      if n as real == -t {
        assert t.Floor == -n;
      } else {
        assert t.Floor == -n - 1;
      }
    }
  }

  /** Folding is periodic with period 1. */
  lemma FoldPeriodic(t: real)
    ensures Fold(t + 1.0) == Fold(t)
  {
    FoldIsFraction(t);
    FoldIsFraction(t + 1.0);
    assert (t + 1.0).Floor == t.Floor + 1;
  }

  /** A parameter already in [0, 1) is left alone. */
  lemma FoldFixes(t: real)
    requires 0.0 <= t < 1.0
    ensures Fold(t) == t
  {
    FoldIsFraction(t);
  }

  // ---------------------------------------------------------------------
  // Blending
  // ---------------------------------------------------------------------

  function Min(a: int, b: int): int { if a < b then a else b }
  function Max(a: int, b: int): int { if a < b then b else a }

  /** `m = f * d` for a fraction `f` lies between 0 and `d`. */
  lemma ScaleDown(f: real, d: real, m: real)
    requires 0.0 <= f <= 1.0 && d >= 0.0 && m == f * d
    ensures 0.0 <= m <= d
  {
  }

  /** The blend of two channels before the cast lies between their minimum and maximum. */
  lemma ConvexChannel(a: Channel, b: Channel, f: real)
    requires 0.0 <= f <= 1.0
    ensures Min(a, b) as real <= (1.0 - f) * a as real + f * b as real <= Max(a, b) as real
  {
    var x, y := a as real, b as real;
    var v := (1.0 - f) * x + f * y;
    if a <= b {
      ScaleDown(f, y - x, v - x);
    } else {
      ScaleDown(1.0 - f, x - y, v - y);
    }
  }

  /**
   * One channel of the blend, `(unsigned char)((1-f)*a + f*b)`: the cast
   * truncates, and the result lies between the two channels.
   */
  function Blend(a: Channel, b: Channel, f: real): (r: Channel)
    requires 0.0 <= f < 1.0
    ensures Min(a, b) <= r <= Max(a, b)
  {
    var v := (1.0 - f) * a as real + f * b as real;
    ConvexChannel(a, b, f);
    Trunc(v)
  }

  /** With no fraction the blend is the first channel exactly. */
  lemma BlendZero(a: Channel, b: Channel)
    ensures Blend(a, b, 0.0) == a
  {
  }

  /** The three channels blended with the same fraction. */
  function Mix(c1: Color, c2: Color, f: real): Color
    requires 0.0 <= f < 1.0
  {
    Color(Blend(c1.r, c2.r, f), Blend(c1.g, c2.g, f), Blend(c1.b, c2.b, f))
  }

  /** `(int)(t * (k-1))` for t in [0, 1) is a stop that has a successor. */
  lemma ScaledIndex(u: real, k: nat)
    requires 0.0 <= u < 1.0 && k >= 2
    ensures 0.0 <= u * (k - 1) as real < (k - 1) as real
    ensures 0 <= Trunc(u * (k - 1) as real) <= k - 2
  {
  }

  // ---------------------------------------------------------------------
  // The colour at a parameter
  // ---------------------------------------------------------------------

  /**
   * The index pair and fraction `get_palette_color` computes from the
   * folded parameter `u` for `k >= 2` stops.
   */
  function Split(u: real, k: nat): (s: (nat, nat, real))
    requires 0.0 <= u < 1.0 && k >= 2
    ensures s.0 <= k - 2 && s.1 < k && 0.0 <= s.2 < 1.0
  {
    ScaledIndex(u, k);
    Cut(u * (k - 1) as real, k)
  }

  /** The stop below a scaled parameter in [0, k-1), its successor, and the fraction between. */
  function Cut(scaled: real, k: nat): (s: (nat, nat, real))
    requires 0.0 <= scaled < (k - 1) as real && k >= 2
    ensures s.0 <= k - 2 && s.1 < k && 0.0 <= s.2 < 1.0
  {
    var i1 := Trunc(scaled);
    (i1, (i1 + 1) % k, scaled - i1 as real)
  }

  /** `get_palette_color(p, t)` in exact arithmetic. */
  function ColorAt(cs: seq<Color>, t: real): Color
    requires |cs| == MaxColors
  {
    var k := StopCount(cs);
    if k == 0 then Black
    else if k == 1 then cs[0]
    else
      var s := Split(Fold(t), k);
      Mix(cs[s.0], cs[s.1], s.2)
  }

  /** For two or more stops the colour is the mix that `Split` selects. */
  lemma ColorAtSplit(cs: seq<Color>, t: real, i1: nat, i2: nat, f: real)
    requires |cs| == MaxColors && StopCount(cs) >= 2
    requires (i1, i2, f) == Split(Fold(t), StopCount(cs))
    ensures ColorAt(cs, t) == Mix(cs[i1], cs[i2], f)
  {
  }

  /** The three locals `get_palette_color` computes are the components of `Split`. */
  lemma SplitIs(u: real, k: nat, i1: int, i2: int, f: real)
    requires 0.0 <= u < 1.0 && k >= 2
    requires i1 == Trunc(u * (k - 1) as real)
    requires i2 == (i1 + 1) % k && f == u * (k - 1) as real - i1 as real
    ensures i1 >= 0 && i2 >= 0 && (i1, i2, f) == Split(u, k)
  {
    ScaledIndex(u, k);
    var scaled := u * (k - 1) as real;
    assert Split(u, k) == Cut(scaled, k);
    assert Cut(scaled, k) == (i1, i2, f);
  }

  /** With no stops the colour is black; with one it is that stop, whatever `t` is. */
  lemma FewStops(cs: seq<Color>, t: real)
    requires |cs| == MaxColors
    ensures StopCount(cs) == 0 ==> ColorAt(cs, t) == Black
    ensures StopCount(cs) == 1 ==> ColorAt(cs, t) == cs[0]
  {
  }

  /** The colour is periodic in `t` with period 1. */
  lemma ColorPeriodic(cs: seq<Color>, t: real)
    requires |cs| == MaxColors
    ensures ColorAt(cs, t + 1.0) == ColorAt(cs, t)
  {
    FoldPeriodic(t);
  }

  /**
   * The second index never wraps: it is the first plus one, and both name
   * one of the `k` valid stops.
   */
  lemma NoWrap(u: real, k: nat)
    requires 0.0 <= u < 1.0 && k >= 2
    ensures Split(u, k).1 == Split(u, k).0 + 1 < k
  {
  }

  lemma BelowOne(j: real, d: real)
    requires 0.0 <= j < d
    ensures 0.0 <= j / d < 1.0 && (j / d) * d == j
  {
  }

  /** At `t = j/(k-1)`, for `j` below the last stop, the colour is stop `j` exactly. */
  lemma ExactStop(cs: seq<Color>, j: nat)
    requires |cs| == MaxColors && StopCount(cs) >= 2 && j <= StopCount(cs) - 2
    ensures ColorAt(cs, j as real / (StopCount(cs) - 1) as real) == cs[j]
  {
    var k := StopCount(cs);
    var t := j as real / (k - 1) as real;
    BelowOne(j as real, (k - 1) as real);
    FoldFixes(t);
    SplitAtStop(j, k);
    BlendZero(cs[j].r, cs[j + 1].r);
    BlendZero(cs[j].g, cs[j + 1].g);
    BlendZero(cs[j].b, cs[j + 1].b);
  }

  /** At `u = j/(k-1)` the split names stop `j`, its successor, and no fraction. */
  lemma SplitAtStop(j: nat, k: nat)
    requires k >= 2 && j <= k - 2
    ensures 0.0 <= j as real / (k - 1) as real < 1.0
    ensures Split(j as real / (k - 1) as real, k) == (j, j + 1, 0.0)
  {
    BelowOne(j as real, (k - 1) as real);
    SplitAt(j as real / (k - 1) as real, j, k);
  }

  /** A folded parameter that scales exactly onto stop `j` splits there with no fraction. */
  lemma SplitAt(u: real, j: nat, k: nat)
    requires k >= 2 && j <= k - 2 && 0.0 <= u < 1.0
    requires u * (k - 1) as real == j as real
    ensures Split(u, k) == (j, j + 1, 0.0)
  {
    CutAt(j, k);
  }

  /** A whole scaled parameter is its own stop. */
  lemma CutAt(j: nat, k: nat)
    requires k >= 2 && j <= k - 2
    ensures Cut(j as real, k) == (j, j + 1, 0.0)
  {
    assert (j as real).Floor == j;
    assert Trunc(j as real) == j;
    assert (j + 1) % k == j + 1;
  }

  /**
   * `t = 1` folds to 0 and gives the first stop, not the last: the last
   * stop is only approached from below.
   */
  lemma OneIsFirstStop(cs: seq<Color>)
    requires |cs| == MaxColors && StopCount(cs) >= 1
    ensures ColorAt(cs, 1.0) == cs[0]
  {
    FoldPeriodic(0.0);
    FoldFixes(0.0);
    if StopCount(cs) >= 2 {
      ExactStop(cs, 0);
    }
  }

  /** Every channel of the result lies between the two stops it blends. */
  lemma ColorBetween(cs: seq<Color>, t: real)
    requires |cs| == MaxColors && StopCount(cs) >= 2
    ensures var s := Split(Fold(t), StopCount(cs));
      && Min(cs[s.0].r, cs[s.1].r) <= ColorAt(cs, t).r <= Max(cs[s.0].r, cs[s.1].r)
      && Min(cs[s.0].g, cs[s.1].g) <= ColorAt(cs, t).g <= Max(cs[s.0].g, cs[s.1].g)
      && Min(cs[s.0].b, cs[s.1].b) <= ColorAt(cs, t).b <= Max(cs[s.0].b, cs[s.1].b)
  {
  }

  // ---------------------------------------------------------------------
  // The computation as the source writes it
  // ---------------------------------------------------------------------

  /** The counting loop at the top of `get_palette_color`. */
  method CountStops(cs: seq<Color>) returns (k: nat)
    requires |cs| == MaxColors
    ensures k <= MaxColors
    ensures forall i :: 0 <= i < k ==> cs[i] != Black
    ensures k < MaxColors ==> cs[k] == Black
  {
    k := 0;
    while k < MaxColors && (cs[k].r != 0 || cs[k].g != 0 || cs[k].b != 0)
      invariant k <= MaxColors
      invariant forall i :: 0 <= i < k ==> cs[i] != Black
    {
      k := k + 1;
    }
  }

  /** `get_palette_color`: fold, count, then return black, the only stop, or a blend. */
  method PaletteColor(p: Palette, t: real) returns (c: Color)
    requires WellFormed(p)
    ensures c == ColorAt(p.colors, t)
  {
    var u := t - Trunc(t) as real;
    if u < 0.0 {
      u := u + 1.0;
    }
    assert u == Fold(t);
    var k := CountStops(p.colors);
    LeadingUnique(p.colors, k);
    assert k == StopCount(p.colors);
    if k == 0 {
      return Black;
    }
    if k == 1 {
      return p.colors[0];
    }
    ScaledIndex(u, k);
    var scaled := u * (k - 1) as real;
    var index1 := Trunc(scaled);
    var index2 := (index1 + 1) % k;
    var fraction := scaled - index1 as real;
    SplitIs(u, k, index1, index2, fraction);
    c := Mix(p.colors[index1], p.colors[index2], fraction);
    ColorAtSplit(p.colors, t, index1, index2, fraction);
  }
}
