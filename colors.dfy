/** The `Color` value type: unclamped linear light intensity. */
module Colors {
  import opened Numerics

  datatype Color = Color(r: real, g: real, b: real)

  const White: Color := Color(1.0, 1.0, 1.0)
  const Grey: Color := Color(0.5, 0.5, 0.5)
  const Black: Color := Color(0.0, 0.0, 0.0)

  /** `Color.scale` */
  function Scale(k: real, c: Color): Color
  {
    Color(k * c.r, k * c.g, k * c.b)
  }

  /** `Color.plus` */
  function Plus(c1: Color, c2: Color): Color
  {
    Color(c1.r + c2.r, c1.g + c2.g, c1.b + c2.b)
  }

  /** `Color.times`: the component-wise product. */
  function Times(c1: Color, c2: Color): Color
  {
    Color(c1.r * c2.r, c1.g * c2.g, c1.b * c2.b)
  }

  /** `Color.lightness`: with a sound square root, the Euclidean norm of the
      colour, which is zero for black. */
  function Lightness(m: MathLib, c: Color): (l: real)
    ensures Sound(m) ==> 0.0 <= l
    ensures Sound(m) && c == Black ==> l == 0.0
  {
    assert 0.0 <= c.r * c.r && 0.0 <= c.g * c.g && 0.0 <= c.b * c.b;
    assert c == Black ==> c.r * c.r + c.g * c.g + c.b * c.b == 0.0 * 0.0;
    SqrtOfSquareZero(m);
    m.sqrt(c.r * c.r + c.g * c.g + c.b * c.b)
  }

  lemma SqrtOfSquareZero(m: MathLib)
    ensures Sound(m) ==> m.sqrt(0.0 * 0.0) == 0.0
  {
    if Sound(m) {
      SqrtOfSquare(m, 0.0);
    }
  }

  /** Every component is non-negative. */
  predicate NonNegative(c: Color)
  {
    0.0 <= c.r && 0.0 <= c.g && 0.0 <= c.b
  }

  /** Component-wise order. */
  predicate AtMost(c1: Color, c2: Color)
  {
    c1.r <= c2.r && c1.g <= c2.g && c1.b <= c2.b
  }

  /** Black is the identity of `plus`. */
  lemma PlusBlack(c: Color)
    ensures Plus(c, Black) == c && Plus(Black, c) == c
  {
  }

  /** Adding a non-negative colour does not decrease any component. */
  lemma PlusNonNegative(c: Color, d: Color)
    requires NonNegative(d)
    ensures AtMost(c, Plus(c, d))
  {
  }

  /** Scaling a non-negative colour by a non-negative factor keeps it non-negative. */
  lemma ScaleNonNegative(k: real, c: Color)
    ensures 0.0 <= k && NonNegative(c) ==> NonNegative(Scale(k, c))
  {
    if 0.0 <= k && NonNegative(c) {
      assert 0.0 <= k * c.r && 0.0 <= k * c.g && 0.0 <= k * c.b;
    }
  }

  /** The component-wise product of non-negative colours is non-negative. */
  lemma TimesNonNegative(c1: Color, c2: Color)
    ensures NonNegative(c1) && NonNegative(c2) ==> NonNegative(Times(c1, c2))
  {
    if NonNegative(c1) && NonNegative(c2) {
      assert 0.0 <= c1.r * c2.r && 0.0 <= c1.g * c2.g && 0.0 <= c1.b * c2.b;
    }
  }
}
