/** The coordinate transform between the 600 x 600 canvas and the math plane
    whose origin is the canvas centre and whose y axis points up. */
module Transform {

  const Width: int := 600
  const Height: int := 600

  /** The canvas centre, (width / 2, height / 2). */
  const CenterX: real := Width as real / 2.0
  const CenterY: real := Height as real / 2.0

  /** Canvas position to math position. Right of the centre is positive x,
      above the centre (smaller canvas y) is positive y. */
  function CanvasToMath(x: real, y: real): (m: (real, real))
    ensures m.0 > 0.0 <==> x > CenterX
    ensures m.0 < 0.0 <==> x < CenterX
    ensures m.1 > 0.0 <==> y < CenterY
    ensures m.1 < 0.0 <==> y > CenterY
  {
    (x - CenterX, CenterY - y)
  }

  /** Math position to canvas position; undoes CanvasToMath. */
  function MathToCanvas(mx: real, my: real): (c: (real, real))
    ensures CanvasToMath(c.0, c.1) == (mx, my)
  {
    (mx + CenterX, CenterY - my)
  }

  /** The other composition is the identity too, so the transform is a bijection. */
  lemma CanvasRoundTrip(x: real, y: real)
    ensures MathToCanvas(CanvasToMath(x, y).0, CanvasToMath(x, y).1) == (x, y)
  {
  }
}
