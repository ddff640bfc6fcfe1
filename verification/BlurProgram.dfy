// The blur program of bochs-performance/testcases/blur-translate.c and the reference it is checked
// against.
module BlurProgram {
  import opened Wrappers
  import opened BlurTranslate
  import opened GeneratedLoop

  // A row of three pixels from the current one on, as opcodes and as statements.
  function RowCode(): seq<int> {
    [ADD_DATA, MOVE_REL, 0, 1, ADD_DATA, MOVE_REL, 0, 1, ADD_DATA]
  }

  function Row(): seq<Stmt> {
    [AddData, MoveRel(0, 1), AddData, MoveRel(0, 1), AddData]
  }

  function Blur(): seq<int> {
    [MOVE_REL, -1, -1, SET_ACCUM, 0] + RowCode() + [MOVE_REL, 1, -2] + RowCode() + [MOVE_REL, 1, -2] + RowCode()
    + [MOVE_REL, -1, -1, STORE_DATA, END]
  }

  function BlurBody(): seq<Stmt> {
    [MoveRel(-1, -1), SetAccum(0)] + Row() + [MoveRel(1, -2)] + Row() + [MoveRel(1, -2)] + Row()
    + [MoveRel(-1, -1), StoreData]
  }

  lemma BlurFetchesRow1()
    ensures |Blur()| == 43 && |BlurBody()| == 21
    ensures Fetch(Blur(), 0) == Some((Some(BlurBody()[0]), 3))
    ensures Fetch(Blur(), 3) == Some((Some(BlurBody()[1]), 5))
    ensures Fetch(Blur(), 5) == Some((Some(BlurBody()[2]), 6))
    ensures Fetch(Blur(), 6) == Some((Some(BlurBody()[3]), 9))
    ensures Fetch(Blur(), 9) == Some((Some(BlurBody()[4]), 10))
    ensures Fetch(Blur(), 10) == Some((Some(BlurBody()[5]), 13))
    ensures Fetch(Blur(), 13) == Some((Some(BlurBody()[6]), 14))
  {
  }

  lemma BlurFetchesRow2()
    ensures |Blur()| == 43 && |BlurBody()| == 21
    ensures Fetch(Blur(), 14) == Some((Some(BlurBody()[7]), 17))
    ensures Fetch(Blur(), 17) == Some((Some(BlurBody()[8]), 18))
    ensures Fetch(Blur(), 18) == Some((Some(BlurBody()[9]), 21))
    ensures Fetch(Blur(), 21) == Some((Some(BlurBody()[10]), 22))
    ensures Fetch(Blur(), 22) == Some((Some(BlurBody()[11]), 25))
    ensures Fetch(Blur(), 25) == Some((Some(BlurBody()[12]), 26))
    ensures Fetch(Blur(), 26) == Some((Some(BlurBody()[13]), 29))
  {
  }

  lemma BlurFetchesRow3()
    ensures |Blur()| == 43 && |BlurBody()| == 21
    ensures Fetch(Blur(), 29) == Some((Some(BlurBody()[14]), 30))
    ensures Fetch(Blur(), 30) == Some((Some(BlurBody()[15]), 33))
    ensures Fetch(Blur(), 33) == Some((Some(BlurBody()[16]), 34))
    ensures Fetch(Blur(), 34) == Some((Some(BlurBody()[17]), 37))
    ensures Fetch(Blur(), 37) == Some((Some(BlurBody()[18]), 38))
    ensures Fetch(Blur(), 38) == Some((Some(BlurBody()[19]), 41))
    ensures Fetch(Blur(), 41) == Some((Some(BlurBody()[20]), 42))
    ensures Fetch(Blur(), 42) == Some((None, 43))
  {
  }

  lemma BlurTranslates()
    ensures Translate(Blur(), 0) == Some(BlurBody())
  {
    hide Blur, BlurBody, Fetch;
    BlurFetchesRow1();
    BlurFetchesRow2();
    BlurFetchesRow3();
    assert Translate(Blur(), 42) == Some([]) && BlurBody()[21..] == [];
    hide Translate;
    Emits(Blur(), 41, 42, BlurBody(), 20);
    Emits(Blur(), 38, 41, BlurBody(), 19);
    Emits(Blur(), 37, 38, BlurBody(), 18);
    Emits(Blur(), 34, 37, BlurBody(), 17);
    Emits(Blur(), 33, 34, BlurBody(), 16);
    Emits(Blur(), 30, 33, BlurBody(), 15);
    Emits(Blur(), 29, 30, BlurBody(), 14);
    Emits(Blur(), 26, 29, BlurBody(), 13);
    Emits(Blur(), 25, 26, BlurBody(), 12);
    Emits(Blur(), 22, 25, BlurBody(), 11);
    Emits(Blur(), 21, 22, BlurBody(), 10);
    Emits(Blur(), 18, 21, BlurBody(), 9);
    Emits(Blur(), 17, 18, BlurBody(), 8);
    Emits(Blur(), 14, 17, BlurBody(), 7);
    Emits(Blur(), 13, 14, BlurBody(), 6);
    Emits(Blur(), 10, 13, BlurBody(), 5);
    Emits(Blur(), 9, 10, BlurBody(), 4);
    Emits(Blur(), 6, 9, BlurBody(), 3);
    Emits(Blur(), 5, 6, BlurBody(), 2);
    Emits(Blur(), 3, 5, BlurBody(), 1);
    Emits(Blur(), 0, 3, BlurBody(), 0);
    assert BlurBody()[0..] == BlurBody();
  }

  // The sum over a row of three, and over the window of blur_reference.
  function RowSum(img: Grid, x: int, y: int): int
    requires Inside(x, y - 1) && Inside(x, y + 1)
  {
    img[At(x, y - 1)] + img[At(x, y)] + img[At(x, y + 1)]
  }

  function WindowSum(img: Grid, x: int, y: int): int
    requires Interior(x, y)
  {
    RowSum(img, x - 1, y) + RowSum(img, x, y) + RowSum(img, x + 1, y)
  }

  lemma RowAdds(img: Grid, p: Pixel)
    requires Inside(p.x, p.y) && Inside(p.x, p.y + 2)
    ensures DoAll(Row(), img, p) == Some(p.(y := p.y + 2, accum := p.accum + RowSum(img, p.x, p.y + 1)))
  {
  }

  // One pixel of the blur program is the sum of its window, whatever the accumulator held before.
  lemma BlurPixel(img: Grid, x: int, y: int, accum: int, cell: int)
    requires Interior(x, y)
    ensures DoAll(BlurBody(), img, Pixel(x, y, accum, cell))
            == Some(Pixel(x, y, WindowSum(img, x, y), WindowSum(img, x, y)))
  {
    hide DoAll, Row, At;
    var first, step, last := [MoveRel(-1, -1), SetAccum(0)], [MoveRel(1, -2)], [MoveRel(-1, -1), StoreData];
    var b1 := first + Row();
    var b2 := b1 + step;
    var b3 := b2 + Row();
    var b4 := b3 + step;
    var b5 := b4 + Row();
    assert BlurBody() == b5 + last;
    var p := Pixel(x, y, accum, cell);
    DoAllAppend(b5, last, img, p);
    DoAllAppend(b4, Row(), img, p);
    DoAllAppend(b3, step, img, p);
    DoAllAppend(b2, Row(), img, p);
    DoAllAppend(b1, step, img, p);
    DoAllAppend(first, Row(), img, p);
    var s1, s2, s3 := RowSum(img, x - 1, y), RowSum(img, x, y), RowSum(img, x + 1, y);
    TwoSteps(first[0], first[1], img, p);
    RowAdds(img, Pixel(x - 1, y - 1, 0, cell));
    TwoSteps(step[0], AddData, img, Pixel(x - 1, y + 1, s1, cell));
    RowAdds(img, Pixel(x, y - 1, s1, cell));
    TwoSteps(step[0], AddData, img, Pixel(x, y + 1, s1 + s2, cell));
    RowAdds(img, Pixel(x + 1, y - 1, s1 + s2, cell));
    TwoSteps(last[0], last[1], img, Pixel(x + 1, y + 1, s1 + s2 + s3, cell));
  }

  // An image blurred: the window sums inside, the old values on the border.
  ghost predicate Blurred(img: Grid, was: Grid, now: Grid) {
    forall x, y {:trigger At(x, y)} :: Inside(x, y) ==>
      now[At(x, y)] == if Interior(x, y) then WindowSum(img, x, y) else was[At(x, y)]
  }

  // The same, for the pixels before (x, y) in raster order only.
  ghost predicate BlurredTo(img: Grid, was: Grid, now: Grid, x: int, y: int) {
    forall i, j {:trigger At(i, j)} :: Inside(i, j) ==>
      now[At(i, j)] == if Interior(i, j) && (i < x || (i == x && j < y)) then WindowSum(img, i, j)
                       else was[At(i, j)]
  }

  lemma BlurredOneMore(img: Grid, was: Grid, now: Grid, x: int, y: int)
    requires Interior(x, y) && BlurredTo(img, was, now, x, y)
    ensures BlurredTo(img, was, now[At(x, y) := WindowSum(img, x, y)], x, y + 1)
  {
    hide WindowSum;
    var next: Grid := now[At(x, y) := WindowSum(img, x, y)];
    forall i, j {:trigger At(i, j)} | Inside(i, j)
      ensures next[At(i, j)] == if Interior(i, j) && (i < x || (i == x && j < y + 1)) then WindowSum(img, i, j)
                                else was[At(i, j)]
    {
      if At(i, j) == At(x, y) {
        AtInjective(i, j, x, y);
      }
    }
  }

  // The emulator and the generated code leave the blurred image, for every image.
  lemma {:induction false} BlurRaster(img: Grid, was: Grid, x: nat, y: nat, run: Run)
    requires 1 <= x <= MAX_ARRAY - 1 && 1 <= y <= MAX_ARRAY - 1 && BlurredTo(img, was, run.grid, x, y)
    ensures Raster(BlurBody(), img, x, y, run).Some?
    ensures Blurred(img, was, Raster(BlurBody(), img, x, y, run).value.grid)
    decreases MAX_ARRAY - x, MAX_ARRAY - y
  {
    hide WindowSum, DoAll, BlurBody, At;
    if x < MAX_ARRAY - 1 {
      if y == MAX_ARRAY - 1 {
        BlurRaster(img, was, x + 1, 1, run);
      } else {
        var sum := WindowSum(img, x, y);
        BlurPixel(img, x, y, run.accum, run.grid[At(x, y)]);
        BlurredOneMore(img, was, run.grid, x, y);
        BlurRaster(img, was, x, y + 1, Run(sum, run.grid[At(x, y) := sum]));
      }
    }
  }

  // The reference: two loops over the image and two over the window.
  method BlurReference(img: Grid, out: array<int>)
    requires out.Length == CELLS
    modifies out
    ensures Blurred(img, old(out[..]), out[..])
  {
    hide WindowSum, At;
    ghost var was: Grid := out[..];
    var x := 1;
    while x < MAX_ARRAY - 1
      invariant 1 <= x <= MAX_ARRAY - 1 && BlurredTo(img, was, out[..], x, 1)
    {
      var y := 1;
      while y < MAX_ARRAY - 1
        invariant 1 <= y <= MAX_ARRAY - 1 && BlurredTo(img, was, out[..], x, y)
      {
        BlurredOneMore(img, was, out[..], x, y);
        out[At(x, y)] := SumWindow(img, x, y);
        y := y + 1;
      }
      assert BlurredTo(img, was, out[..], x + 1, 1);
      x := x + 1;
    }
  }

  method SumWindow(img: Grid, x: int, y: int) returns (sum: int)
    requires Interior(x, y)
    ensures sum == WindowSum(img, x, y)
  {
    sum := 0;
    ghost var rows := [RowSum(img, x - 1, y), RowSum(img, x, y), RowSum(img, x + 1, y)];
    var x2 := x - 1;
    while x2 <= x + 1
      invariant x - 1 <= x2 <= x + 2
      invariant sum == if x2 == x - 1 then 0 else if x2 == x then rows[0]
                       else if x2 == x + 1 then rows[0] + rows[1] else rows[0] + rows[1] + rows[2]
    {
      ghost var before := sum;
      var y2 := y - 1;
      while y2 <= y + 1
        invariant y - 1 <= y2 <= y + 2
        invariant sum == before + (if y2 > y - 1 then img[At(x2, y - 1)] else 0)
                         + (if y2 > y then img[At(x2, y)] else 0) + (if y2 > y + 1 then img[At(x2, y + 1)] else 0)
      {
        sum := sum + img[At(x2, y2)];
        y2 := y2 + 1;
      }
      x2 := x2 + 1;
    }
  }

  lemma BlurIsBalancedAndNear()
    ensures Balanced(BlurBody()) && Near(BlurBody(), 0, 0)
  {
    hide DoAll, BlurBody, Near, Dx, Dy;
    var img: Grid := seq(CELLS, _ => 0);
    BlurPixel(img, 1, 1, 0, 0);
    Displacement(BlurBody(), img, Pixel(1, 1, 0, 0));
    if !Near(BlurBody(), 0, 0) {
      var x, y := FarLeaves(BlurBody(), img, 0, 0);
      BlurPixel(img, x, y, 0, 0);
    }
  }

  lemma BlurredIsUnique(img: Grid, was: Grid, a: Grid, b: Grid)
    requires Blurred(img, was, a) && Blurred(img, was, b)
    ensures a == b
  {
    hide WindowSum;
    forall k | 0 <= k < CELLS ensures a[k] == b[k] {
      assert k == At(k / MAX_ARRAY, k % MAX_ARRAY);
    }
  }

  // The three ways of blurring an image agree, whatever the accumulators and the block held before.
  method BlurThreeWays(img: Grid, emulated: array<int>, translated: array<int>, reference: array<int>,
                       block: CodeBlock, accum1: int, accum2: int)
    requires emulated != translated && translated != reference && emulated != reference
    requires emulated.Length == translated.Length == reference.Length == CELLS
    requires emulated[..] == translated[..] == reference[..] && block.Valid() && block.code == Blur()
    modifies emulated, translated, reference, block
    ensures emulated[..] == translated[..] == reference[..]
    ensures Blurred(img, old(reference[..]), reference[..])
  {
    hide Raster, BlurBody, Blur, Translate, Near, Balanced, Turns, Blurred;
    ghost var was: Grid := reference[..];
    BlurTranslates();
    BlurIsBalancedAndNear();
    StartsBlurred(img, was);
    BlurRaster(img, was, 1, 1, Run(accum1, was));
    BlurRaster(img, was, 1, 1, Run(accum2, was));
    ghost var n := BalancedEnds(BlurBody(), img, Start(Run(accum2, was)));
    var _ := EmulateOpcodes(Blur(), img, emulated, accum1);
    var _ := block.Execute(img, translated, accum2, n);
    BlurReference(img, reference);
    BlurredIsUnique(img, was, emulated[..], reference[..]);
    BlurredIsUnique(img, was, translated[..], reference[..]);
  }

  lemma StartsBlurred(img: Grid, was: Grid)
    ensures BlurredTo(img, was, was, 1, 1)
  {
  }
}
