/**
  The brick wall: a centred `rows x cols` grid stored row-major, some bricks special, and
  the ball-versus-wall collision with the special bricks' 3x3 explosion.
*/
module Bricks {
  import opened Geometry
  import opened Maybe
  import Colors
  import Arith

  /** One brick. `isHit` means destroyed; `row`/`col` are its grid coordinates. */
  datatype Brick = Brick(
    rect: Rect,
    color: Colors.Color,
    isHit: bool,
    row: int,
    col: int,
    isSpecial: bool)

  /** The wall's construction parameters. */
  datatype Layout = Layout(
    cols: nat,
    rows: nat,
    brickWidth: int,
    brickHeight: int,
    padding: int,
    topMargin: int,
    screenWidth: int)
  {
    function Count(): nat { rows * cols }

    function TotalWidth(): int { cols * brickWidth + (cols - 1) * padding }
  }

  /** A wall: its layout and its bricks in creation (row-major) order. */
  datatype Wall = Wall(layout: Layout, bricks: seq<Brick>)

  /**
    Left edge of the first column: `int((screenWidth - totalWidth) / 2)`, a true division
    truncated toward zero, so the margins left and right of the wall differ by at most one.
  */
  function StartX(l: Layout): (x: int)
    ensures -1 <= (l.screenWidth - (x + l.TotalWidth())) - x <= 1
  {
    Trunc((l.screenWidth - l.TotalWidth()) as real / 2.0)
  }

  /** The fresh brick at grid position `(row, col)`. */
  function Cell(l: Layout, row: int, col: int): Brick {
    Brick(
      Rect(StartX(l) + col * (l.brickWidth + l.padding),
           l.topMargin + row * (l.brickHeight + l.padding),
           l.brickWidth, l.brickHeight),
      Colors.BrickColorForColumn(col),
      false, row, col, false)
  }

  /** The fresh brick stored at row-major index `i`. */
  function CellAtIndex(l: Layout, i: int): Brick
    requires l.cols > 0
  {
    Cell(l, i / l.cols, i % l.cols)
  }

  /** The whole fresh grid, as a reference definition. */
  function Grid(l: Layout): (g: seq<Brick>)
    ensures |g| == l.Count()
  {
    seq(l.Count(), i requires 0 <= i < l.Count() => CellAtIndex(l, i))
  }

  /**
    Grid addressing: the brick at index `row * cols + col` is the fresh brick of that cell,
    with that row and column, the cell's rectangle and the column's colour.
  */
  lemma GridCellAt(l: Layout, row: int, col: int)
    requires 0 <= row < l.rows && 0 <= col < l.cols
    ensures 0 <= row * l.cols + col < |Grid(l)|
    ensures var b := Grid(l)[row * l.cols + col];
      && b.row == row && b.col == col && !b.isHit && !b.isSpecial
      && b.rect == Rect(StartX(l) + col * (l.brickWidth + l.padding),
                        l.topMargin + row * (l.brickHeight + l.padding),
                        l.brickWidth, l.brickHeight)
      && b.color == Colors.BrickColors[col % |Colors.BrickColors|]
  {
    Arith.RowMajorInRange(row, col, l.rows, l.cols);
    Arith.RowMajorSplit(row, col, l.cols);
  }

  /** Every grid cell occurs exactly once: distinct indices hold distinct `(row, col)` pairs in range. */
  lemma GridCellsDistinct(l: Layout, i: int, j: int)
    requires 0 <= i < j < |Grid(l)|
    ensures 0 <= Grid(l)[i].row < l.rows && 0 <= Grid(l)[i].col < l.cols
    ensures (Grid(l)[i].row, Grid(l)[i].col) != (Grid(l)[j].row, Grid(l)[j].col)
  {
    Arith.RowMajorOf(i, l.rows, l.cols);
    Arith.RowMajorOf(j, l.rows, l.cols);
  }

  /** The colour of a brick is a function of its column alone. */
  lemma GridColorByColumn(l: Layout, i: int, j: int)
    requires 0 <= i < |Grid(l)| && 0 <= j < |Grid(l)|
    requires Grid(l)[i].col == Grid(l)[j].col
    ensures Grid(l)[i].color == Grid(l)[j].color
  {
  }

  /** The nested row/column loops of the constructor build exactly the reference grid. */
  method BuildBricks(l: Layout) returns (bricks: seq<Brick>)
    ensures bricks == Grid(l)
  {
    bricks := [];
    var row := 0;
    while row < l.rows
      invariant 0 <= row <= l.rows
      invariant |bricks| == row * l.cols
      invariant forall i :: 0 <= i < |bricks| ==> l.cols > 0 && bricks[i] == CellAtIndex(l, i)
    {
      var col := 0;
      while col < l.cols
        invariant 0 <= col <= l.cols
        invariant |bricks| == row * l.cols + col
        invariant forall i :: 0 <= i < |bricks| ==> l.cols > 0 && bricks[i] == CellAtIndex(l, i)
      {
        Arith.RowMajorSplit(row, col, l.cols);
        bricks := bricks + [Cell(l, row, col)];
        col := col + 1;
      }
      row := row + 1;
    }
    assert |bricks| == l.Count();
  }

  /** What `random.sample(range(n), k=min(count, n))` may return: that many distinct indices. */
  predicate ValidSample(n: nat, count: nat, chosen: set<int>) {
    && |chosen| == Min(count, n)
    && forall i :: i in chosen ==> 0 <= i < n
  }

  /** The indices of the special bricks. */
  function SpecialIndices(bricks: seq<Brick>): set<int> {
    set i | 0 <= i < |bricks| && bricks[i].isSpecial
  }

  /** `_set_special_bricks`: flag the sampled indices as special. */
  function SetSpecialBricks(bricks: seq<Brick>, chosen: set<int>): (r: seq<Brick>)
    requires forall i :: i in chosen ==> 0 <= i < |bricks|
    requires forall i :: 0 <= i < |bricks| ==> !bricks[i].isSpecial
    ensures |r| == |bricks|
    ensures SpecialIndices(r) == chosen
    ensures forall i :: 0 <= i < |r| ==> r[i] == bricks[i].(isSpecial := r[i].isSpecial)
  {
    seq(|bricks|, i requires 0 <= i < |bricks| =>
      if i in chosen then bricks[i].(isSpecial := true) else bricks[i])
  }

  /**
    The constructor: the centred grid with every brick intact and exactly
    `min(specialCount, rows*cols)` distinct special bricks, the ones sampled.
  */
  function NewWall(l: Layout, specialCount: nat, chosen: set<int>): (w: Wall)
    requires ValidSample(l.Count(), specialCount, chosen)
    ensures w.layout == l
    ensures |w.bricks| == l.Count()
    ensures forall i :: 0 <= i < |w.bricks| ==> w.bricks[i] == Grid(l)[i].(isSpecial := i in chosen)
    ensures SpecialIndices(w.bricks) == chosen
    ensures |SpecialIndices(w.bricks)| == Min(specialCount, l.Count())
    ensures Remaining(w.bricks) == l.Count()
  {
    var grid := Grid(l);
    var bricks := SetSpecialBricks(grid, chosen);
    Wall(l, bricks)
  }

  /** `get_remaining_bricks_count`: how many bricks are not yet destroyed. */
  function Remaining(bricks: seq<Brick>): (n: nat)
    ensures n <= |bricks|
    ensures n == 0 <==> forall i :: 0 <= i < |bricks| ==> bricks[i].isHit
    ensures n == |bricks| <==> forall i :: 0 <= i < |bricks| ==> !bricks[i].isHit
  {
    if |bricks| == 0 then 0
    else
      var rest := Remaining(bricks[1..]);
      assert forall i :: 1 <= i < |bricks| ==> bricks[i] == bricks[1..][i - 1];
      (if bricks[0].isHit then 0 else 1) + rest
  }

  /** Destroying one intact brick lowers the remaining count by exactly one. */
  lemma {:induction false} RemainingMarkOne(bricks: seq<Brick>, i: int)
    requires 0 <= i < |bricks| && !bricks[i].isHit
    ensures Remaining(bricks[i := bricks[i].(isHit := true)]) == Remaining(bricks) - 1
  {
    var marked := bricks[i := bricks[i].(isHit := true)];
    if i > 0 {
      RemainingMarkOne(bricks[1..], i - 1);
      assert marked[1..] == bricks[1..][i - 1 := bricks[i].(isHit := true)];
    } else {
      assert marked[1..] == bricks[1..];
    }
  }

  /** Bricks no longer intact: what has been destroyed so far. */
  function Destroyed(bricks: seq<Brick>): nat {
    |bricks| - Remaining(bricks)
  }

  /** The ball box can hit this brick: it is intact and overlaps the box. */
  predicate Hittable(b: Brick, box: Rect) {
    !b.isHit && Collide(box, b.rect)
  }

  /** `i` is the first hittable brick in creation order. */
  predicate IsFirstHittable(bricks: seq<Brick>, box: Rect, i: int) {
    && 0 <= i < |bricks|
    && Hittable(bricks[i], box)
    && forall j :: 0 <= j < i ==> !Hittable(bricks[j], box)
  }

  /** The scan of `check_collision` from index `k`: the first hittable brick at or after `k`. */
  function FindHittableFrom(bricks: seq<Brick>, box: Rect, k: nat): (r: Option<nat>)
    requires k <= |bricks|
    decreases |bricks| - k
    ensures r.None? <==> forall j :: k <= j < |bricks| ==> !Hittable(bricks[j], box)
    ensures r.Some? ==>
              && k <= r.value < |bricks| && Hittable(bricks[r.value], box)
              && forall j :: k <= j < r.value ==> !Hittable(bricks[j], box)
  {
    if k == |bricks| then None
    else if Hittable(bricks[k], box) then Some(k)
    else FindHittableFrom(bricks, box, k + 1)
  }

  /** The brick a collision resolves against: the first hittable one, if any. */
  function FirstHittable(bricks: seq<Brick>, box: Rect): (r: Option<nat>)
    ensures r.None? <==> forall j :: 0 <= j < |bricks| ==> !Hittable(bricks[j], box)
    ensures r.Some? ==> IsFirstHittable(bricks, box, r.value)
  {
    FindHittableFrom(bricks, box, 0)
  }

  /** The first hittable brick is unique. */
  lemma FirstHittableUnique(bricks: seq<Brick>, box: Rect, i: int, j: int)
    requires IsFirstHittable(bricks, box, i) && IsFirstHittable(bricks, box, j)
    ensures i == j
  {
  }

  /** Chebyshev distance at most one from `(row, col)`: the 3x3 block around it. */
  predicate Near(b: Brick, row: int, col: int) {
    Abs(b.row - row) <= 1 && Abs(b.col - col) <= 1
  }

  /** How many intact bricks lie in the 3x3 block around `(row, col)`. */
  function CountIntactNear(bricks: seq<Brick>, row: int, col: int): (n: nat)
    ensures n <= Remaining(bricks)
  {
    if |bricks| == 0 then 0
    else (if !bricks[0].isHit && Near(bricks[0], row, col) then 1 else 0)
         + CountIntactNear(bricks[1..], row, col)
  }

  /**
    `_explode_around`: destroy every intact brick in the 3x3 block around `(row, col)` and
    count them. The block is decided by that centre only, so it never chains.
  */
  function ExplodeAround(bricks: seq<Brick>, row: int, col: int): (r: (seq<Brick>, nat))
    ensures |r.0| == |bricks|
    ensures forall j :: 0 <= j < |bricks| ==>
              && r.0[j] == bricks[j].(isHit := r.0[j].isHit)
              && (r.0[j].isHit <==> bricks[j].isHit || Near(bricks[j], row, col))
    ensures r.1 == CountIntactNear(bricks, row, col)
    ensures Remaining(r.0) == Remaining(bricks) - r.1
  {
    if |bricks| == 0 then ([], 0)
    else
      var first := bricks[0];
      var (rest, restHits) := ExplodeAround(bricks[1..], row, col);
      var blasted := !first.isHit && Near(first, row, col);
      var out := [if blasted then first.(isHit := true) else first] + rest;
      assert out[1..] == rest;
      (out, (if blasted then 1 else 0) + restHits)
  }

  /** Destroying the trigger first removes exactly one intact brick from its own block. */
  lemma {:induction false} CountIntactNearMarkOne(bricks: seq<Brick>, i: int)
    requires 0 <= i < |bricks| && !bricks[i].isHit
    ensures CountIntactNear(bricks[i := bricks[i].(isHit := true)], bricks[i].row, bricks[i].col)
            == CountIntactNear(bricks, bricks[i].row, bricks[i].col) - 1
  {
    var marked := bricks[i := bricks[i].(isHit := true)];
    var row, col := bricks[i].row, bricks[i].col;
    if i > 0 {
      CountIntactNearMarkOne(bricks[1..], i - 1);
      assert marked[1..] == bricks[1..][i - 1 := bricks[i].(isHit := true)];
    } else {
      assert marked[1..] == bricks[1..];
    }
  }

  datatype Direction = Horizontal | Vertical

  /**
    The ratio test: the offset `dx` measured in half widths exceeds `dy` measured in half
    heights. Ties count as vertical.
  */
  predicate MostlyHorizontal(dx: real, dy: real, w: int, h: int)
    requires w != 0 && h != 0
  {
    dx / (w as real / 2.0) > dy / (h as real / 2.0)
  }

  /** For positive sizes the ratio test is a cross-multiplied comparison. */
  lemma MostlyHorizontalCross(dx: real, dy: real, w: int, h: int)
    requires w > 0 && h > 0
    ensures MostlyHorizontal(dx, dy, w, h) <==> dx * (h as real) > dy * (w as real)
  {
    var hw, hh := w as real / 2.0, h as real / 2.0;
    var a, b := dx / hw, dy / hh;
    assert a * hw == dx && b * hh == dy;
    assert dx * (h as real) == 2.0 * a * hw * hh;
    assert dy * (w as real) == 2.0 * b * hw * hh;
    var k := 2.0 * hw * hh;
    assert k > 0.0;
    assert dx * (h as real) - dy * (w as real) == (a - b) * k;
    if a > b { assert (a - b) * k > 0.0; }
    if a <= b { assert (b - a) * k >= 0.0; }
  }

  /**
    `_calculate_collision_direction`: compare the centre offsets of ball box and brick
    (integer centres) relative to the brick's half width and half height.
  */
  function CollisionDirection(ball: Rect, brick: Rect): (d: Direction)
    requires brick.w > 0 && brick.h > 0
    ensures d == Horizontal <==>
              Abs(ball.CenterX() - brick.CenterX()) * brick.h > Abs(ball.CenterY() - brick.CenterY()) * brick.w
  {
    var dx := Abs(ball.CenterX() - brick.CenterX()) as real;
    var dy := Abs(ball.CenterY() - brick.CenterY()) as real;
    MostlyHorizontalCross(dx, dy, brick.w, brick.h);
    if MostlyHorizontal(dx, dy, brick.w, brick.h) then Horizontal else Vertical
  }

  /** The outcome of `check_collision`: the updated wall and the returned triple. */
  datatype Collision = Collision(wall: Wall, isHit: bool, hitCount: int, direction: Option<Direction>)

  /**
    `check_collision`: resolve the ball box against the first intact overlapping brick in
    row-major order; destroy it and, if it is special, its 3x3 block; report how many
    bricks fell and which way to bounce.
  */
  function CheckCollision(w: Wall, box: Rect): (c: Collision)
    ensures c.wall.layout == w.layout && |c.wall.bricks| == |w.bricks|
    ensures !c.isHit <==> forall j :: 0 <= j < |w.bricks| ==> !Hittable(w.bricks[j], box)
    ensures !c.isHit ==> c == Collision(w, false, 0, None)
    ensures c.isHit ==> c.hitCount >= 1 && c.direction.Some?
    ensures forall j :: 0 <= j < |w.bricks| ==>
              && c.wall.bricks[j] == w.bricks[j].(isHit := c.wall.bricks[j].isHit)
              && (w.bricks[j].isHit ==> c.wall.bricks[j].isHit)
    ensures Remaining(c.wall.bricks) == Remaining(w.bricks) - c.hitCount
  {
    match FirstHittable(w.bricks, box)
    case None => Collision(w, false, 0, None)
    case Some(i) =>
      var trigger := w.bricks[i];
      var marked := w.bricks[i := trigger.(isHit := true)];
      RemainingMarkOne(w.bricks, i);
      var (after, extra) :=
        if trigger.isSpecial then ExplodeAround(marked, trigger.row, trigger.col) else (marked, 0);
      Collision(w.(bricks := after), true, 1 + extra, Some(CollisionDirection(box, trigger.rect)))
  }

  /** An ordinary trigger: exactly that brick falls, count one. */
  lemma CollisionPlainTrigger(w: Wall, box: Rect, i: int)
    requires IsFirstHittable(w.bricks, box, i) && !w.bricks[i].isSpecial
    ensures w.bricks[i].rect.w > 0 && w.bricks[i].rect.h > 0
    ensures CheckCollision(w, box) ==
              Collision(w.(bricks := w.bricks[i := w.bricks[i].(isHit := true)]), true, 1,
                        Some(CollisionDirection(box, w.bricks[i].rect)))
  {
    FirstHittableUnique(w.bricks, box, i, FirstHittable(w.bricks, box).value);
  }

  /**
    A special trigger: the bricks destroyed are exactly the intact ones in its 3x3 block
    (itself included), the count is their number, and nothing outside the block changes.
  */
  lemma CollisionSpecialTrigger(w: Wall, box: Rect, i: int)
    requires IsFirstHittable(w.bricks, box, i) && w.bricks[i].isSpecial
    ensures var c := CheckCollision(w, box);
      && c.isHit
      && c.hitCount == CountIntactNear(w.bricks, w.bricks[i].row, w.bricks[i].col)
      && (forall j :: 0 <= j < |w.bricks| ==>
            (c.wall.bricks[j].isHit <==> w.bricks[j].isHit || Near(w.bricks[j], w.bricks[i].row, w.bricks[i].col)))
      && c.direction == Some(CollisionDirection(box, w.bricks[i].rect))
  {
    var trigger := w.bricks[i];
    var marked := w.bricks[i := trigger.(isHit := true)];
    var blast := ExplodeAround(marked, trigger.row, trigger.col);
    SpecialCollisionUnfold(w, box, i);
    CountIntactNearMarkOne(w.bricks, i);
    MarkedBlast(w.bricks, i, blast.0);
  }

  /** With a special trigger, `check_collision` marks the trigger and then blasts its block. */
  lemma SpecialCollisionUnfold(w: Wall, box: Rect, i: int)
    requires IsFirstHittable(w.bricks, box, i) && w.bricks[i].isSpecial
    ensures var trigger := w.bricks[i];
      var blast := ExplodeAround(w.bricks[i := trigger.(isHit := true)], trigger.row, trigger.col);
      CheckCollision(w, box)
        == Collision(w.(bricks := blast.0), true, 1 + blast.1, Some(CollisionDirection(box, trigger.rect)))
  {
    FirstHittableUnique(w.bricks, box, i, FirstHittable(w.bricks, box).value);
  }

  /** Blasting the block after marking its centre destroys exactly the block and what was already destroyed. */
  lemma MarkedBlast(bricks: seq<Brick>, i: int, after: seq<Brick>)
    requires 0 <= i < |bricks|
    requires after == ExplodeAround(bricks[i := bricks[i].(isHit := true)], bricks[i].row, bricks[i].col).0
    ensures |after| == |bricks|
    ensures forall j :: 0 <= j < |bricks| ==>
              (after[j].isHit <==> bricks[j].isHit || Near(bricks[j], bricks[i].row, bricks[i].col))
  {
    var trigger := bricks[i];
    var marked := bricks[i := trigger.(isHit := true)];
    forall j | 0 <= j < |bricks|
      ensures after[j].isHit <==> bricks[j].isHit || Near(bricks[j], trigger.row, trigger.col)
    {
      assert after[j].isHit <==> marked[j].isHit || Near(marked[j], trigger.row, trigger.col);
      if j == i {
        assert Near(bricks[j], trigger.row, trigger.col);
      } else {
        assert marked[j] == bricks[j];
      }
    }
  }

  /** The blast does not chain: a brick next to a caught special brick, but outside the trigger's block, survives. */
  lemma ExplosionDoesNotChain(w: Wall, box: Rect, i: int, k: int, j: int)
    requires IsFirstHittable(w.bricks, box, i) && w.bricks[i].isSpecial
    requires 0 <= k < |w.bricks| && w.bricks[k].isSpecial && Near(w.bricks[k], w.bricks[i].row, w.bricks[i].col)
    requires 0 <= j < |w.bricks| && !w.bricks[j].isHit
    requires Near(w.bricks[j], w.bricks[k].row, w.bricks[k].col)
    requires !Near(w.bricks[j], w.bricks[i].row, w.bricks[i].col)
    ensures !CheckCollision(w, box).wall.bricks[j].isHit
  {
    CollisionSpecialTrigger(w, box, i);
  }
}
