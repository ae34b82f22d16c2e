/** The rotation both scripts apply to an image, as an element of Z/4 (a number
    of counter-clockwise quarter turns), and its action on pixel positions. */
module Orientation {
  import opened PyJson

  /** A change of orientation, named by the counter-clockwise quarter turns it makes. */
  datatype Turn = Identity | QuarterCcw | Half | QuarterCw

  /** The number of counter-clockwise quarter turns of t. */
  function Ccw(t: Turn): (n: nat)
    ensures n < 4
  {
    match t
    case Identity => 0
    case QuarterCcw => 1
    case Half => 2
    case QuarterCw => 3
  }

  /** One more counter-clockwise quarter turn after t. */
  function Next(t: Turn): (u: Turn)
    ensures Ccw(u) == if Ccw(t) == 3 then 0 else Ccw(t) + 1
  {
    match t
    case Identity => QuarterCcw
    case QuarterCcw => Half
    case Half => QuarterCw
    case QuarterCw => Identity
  }

  /** b first, then a: the quarter turns add up modulo 4. */
  function Compose(a: Turn, b: Turn): (t: Turn)
    ensures Ccw(t) == if Ccw(a) + Ccw(b) < 4 then Ccw(a) + Ccw(b) else Ccw(a) + Ccw(b) - 4
  {
    match a
    case Identity => b
    case QuarterCcw => Next(b)
    case Half => Next(Next(b))
    case QuarterCw => Next(Next(Next(b)))
  }

  /** The turn that undoes t. */
  function Inverse(t: Turn): (u: Turn)
    ensures Compose(u, t) == Identity && Compose(t, u) == Identity
  {
    match t
    case Identity => Identity
    case QuarterCcw => QuarterCw
    case Half => Half
    case QuarterCw => QuarterCcw
  }

  /** The counter-clockwise angle of t in degrees. */
  function Degrees(t: Turn): (d: nat)
    ensures d == 0 || d == 90 || d == 180 || d == 270
  {
    90 * Ccw(t)
  }

  /** rotate_image: 90 is a counter-clockwise quarter turn, 180 a half turn,
      270 a clockwise quarter turn, and every other value leaves the image as it is. */
  function FromAngle(angle: Value): (t: Turn)
    ensures angle == Num(90) <==> t == QuarterCcw
    ensures angle == Num(180) <==> t == Half
    ensures angle == Num(270) <==> t == QuarterCw
  {
    if angle == Num(90) then QuarterCcw
    else if angle == Num(180) then Half
    else if angle == Num(270) then QuarterCw
    else Identity
  }

  /** The angles the review tool writes. */
  predicate IsReviewAngle(a: int) {
    a == 0 || a == 90 || a == 180 || a == 270
  }

  /** Angles and turns correspond one to one. */
  lemma AngleRoundTrip(t: Turn, a: int)
    ensures FromAngle(Num(Degrees(t))) == t
    ensures IsReviewAngle(a) ==> Degrees(FromAngle(Num(a))) == a
  {
  }

  /** Falsy values and unknown numbers leave the image unchanged, so the
      `if rotation:` guard before rotate_image changes nothing. */
  lemma FalsyIsIdentity(angle: Value)
    ensures !Truthy(angle) ==> FromAngle(angle) == Identity
    ensures angle.Num? && !IsReviewAngle(angle.n) ==> FromAngle(angle) == Identity
  {
  }

  /** Applying two review angles one after the other is applying their sum modulo 360. */
  lemma ComposeAngles(a: int, b: int)
    requires IsReviewAngle(a) && IsReviewAngle(b)
    ensures Compose(FromAngle(Num(b)), FromAngle(Num(a))) == FromAngle(Num((a + b) % 360))
  {
  }

  /** Four quarter turns, a quarter turn each way, and two half turns are the identity. */
  lemma QuarterTurnCycles()
    ensures var q := FromAngle(Num(90));
      Compose(q, Compose(q, Compose(q, q))) == Identity
    ensures Compose(FromAngle(Num(270)), FromAngle(Num(90))) == Identity
    ensures Compose(FromAngle(Num(180)), FromAngle(Num(180))) == Identity
  {
  }

  /** Z/4 is a commutative group under Compose. */
  lemma GroupLaws(a: Turn, b: Turn, c: Turn)
    ensures Compose(a, Compose(b, c)) == Compose(Compose(a, b), c)
    ensures Compose(a, b) == Compose(b, a)
    ensures Compose(Identity, a) == a
  {
  }

  /** A pixel position: column x from the left, row y from the top. */
  datatype Pixel = Pixel(x: nat, y: nat)

  /** Width and height after t turns a w-by-h image. */
  function Frame(t: Turn, w: nat, h: nat): (nat, nat) {
    if Ccw(t) % 2 == 0 then (w, h) else (h, w)
  }

  /** Where t moves the pixel at p of a w-by-h image. */
  function Move(t: Turn, w: nat, h: nat, p: Pixel): (q: Pixel)
    requires p.x < w && p.y < h
    ensures q.x < Frame(t, w, h).0 && q.y < Frame(t, w, h).1
  {
    match t
    case Identity => p
    case QuarterCcw => Pixel(p.y, w - 1 - p.x)
    case Half => Pixel(w - 1 - p.x, h - 1 - p.y)
    case QuarterCw => Pixel(h - 1 - p.y, p.x)
  }

  /** The direction of the quarter turns: counter-clockwise takes the top-right
      corner to the top-left one, clockwise takes the top-left corner to the top-right one. */
  lemma QuarterTurnDirections(w: nat, h: nat)
    requires w > 0 && h > 0
    ensures Move(QuarterCcw, w, h, Pixel(w - 1, 0)) == Pixel(0, 0)
    ensures Move(QuarterCw, w, h, Pixel(0, 0)) == Pixel(h - 1, 0)
    ensures Move(Half, w, h, Pixel(0, 0)) == Pixel(w - 1, h - 1)
  {
  }

  /** Moving pixels is an action of Z/4: turning by b and then by a moves every
      pixel where Compose(a, b) moves it. */
  lemma MoveComposes(a: Turn, b: Turn, w: nat, h: nat, p: Pixel)
    requires p.x < w && p.y < h
    ensures var (w', h') := Frame(b, w, h);
      Frame(a, w', h') == Frame(Compose(a, b), w, h) &&
      Move(a, w', h', Move(b, w, h, p)) == Move(Compose(a, b), w, h, p)
  {
  }

  /** Turning back undoes a turn: the inverse turn restores the original
      dimensions and takes every pixel back to where it started. */
  lemma MoveUndo(t: Turn, w: nat, h: nat, p: Pixel)
    requires p.x < w && p.y < h
    ensures var (w', h') := Frame(t, w, h);
      Frame(Inverse(t), w', h') == (w, h) &&
      Move(Inverse(t), w', h', Move(t, w, h, p)) == p
  {
    MoveComposes(Inverse(t), t, w, h, p);
  }
}
