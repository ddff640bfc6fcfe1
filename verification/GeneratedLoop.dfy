// The function that bochs-performance/testcases/blur-translate.c generates: a loop, framed by the
// macros of blur-translate.h, whose counters are the x and y that the moves of its body change.
module GeneratedLoop {
  import opened Wrappers
  import opened BlurTranslate

  datatype Loop = Loop(x: int, y: int, accum: int, grid: Grid, done: bool)

  function Start(run: Run): Loop {
    Loop(1, 1, run.accum, run.grid, false)
  }

  // Counting on, from wherever the body has left x and y.
  function Counted(x: int, y: int, accum: int, grid: Grid): Loop {
    if y + 1 < MAX_ARRAY - 1 then Loop(x, y + 1, accum, grid, false)
    else Loop(x + 1, 1, accum, grid, !(x + 1 < MAX_ARRAY - 1))
  }

  // One turn of the loop; None when it would point outside the arrays.
  function Turn(body: seq<Stmt>, img: Grid, s: Loop): Option<Loop> {
    if !Inside(s.x, s.y) then None
    else
      var p :- DoAll(body, img, Pixel(s.x, s.y, s.accum, s.grid[At(s.x, s.y)]));
      Some(Counted(p.x, p.y, p.accum, s.grid[At(s.x, s.y) := p.cell]))
  }

  // At most `n` turns.
  function Turns(body: seq<Stmt>, img: Grid, s: Loop, n: nat): Option<Loop>
    decreases n
  {
    if n == 0 || s.done then Some(s)
    else
      var s1 :- Turn(body, img, s);
      Turns(body, img, s1, n - 1)
  }

  // The loop ends within `n` turns.
  predicate Ends(body: seq<Stmt>, img: Grid, s: Loop, n: nat) {
    Turns(body, img, s, n).Some? && Turns(body, img, s, n).value.done
  }

  // The generated function, on any body and any input on which it ends.
  method RunTranslated(body: seq<Stmt>, img: Grid, out: array<int>, accum: int, ghost n: nat)
      returns (x: int, y: int, last: int)
    requires out.Length == CELLS && Ends(body, img, Start(Run(accum, out[..])), n)
    modifies out
    ensures Turns(body, img, Start(Run(accum, old(out[..]))), n) == Some(Loop(x, y, last, out[..], true))
  {
    hide DoAll;
    var done := false;
    x, y, last := 1, 1, accum;
    ghost var left := n;
    while !done
      invariant Turns(body, img, Loop(x, y, last, out[..], done), left)
                == Turns(body, img, Start(Run(accum, old(out[..]))), n)
      decreases left
    {
      var p := RunBody(body, img, Pixel(x, y, last, out[At(x, y)]));
      out[At(x, y)] := p.cell;
      x, y, last := p.x, p.y, p.accum;
      y := y + 1;
      if !(y < MAX_ARRAY - 1) {
        y := 1;
        x := x + 1;
        if !(x < MAX_ARRAY - 1) {
          done := true;
        }
      }
      left := left - 1;
    }
  }

  method RunBody(body: seq<Stmt>, img: Grid, start: Pixel) returns (p: Pixel)
    requires Inside(start.x, start.y) && DoAll(body, img, start).Some?
    ensures DoAll(body, img, start) == Some(p)
  {
    hide Do;
    p := start;
    var todo := body;
    while todo != []
      invariant Inside(p.x, p.y) && DoAll(todo, img, p) == DoAll(body, img, start)
      decreases |todo|
    {
      p := Do(todo[0], img, p).value;
      todo := todo[1..];
    }
  }

  // ---- Balanced bodies ----

  // When the moves add up to nothing the loop ends with what the emulator leaves.
  lemma {:induction false} BalancedEnds(body: seq<Stmt>, img: Grid, s: Loop) returns (n: nat)
    requires Balanced(body) && Interior(s.x, s.y) && !s.done
    requires Raster(body, img, s.x, s.y, Run(s.accum, s.grid)).Some?
    ensures Ends(body, img, s, n)
    ensures var r := Turns(body, img, s, n).value;
            Raster(body, img, s.x, s.y, Run(s.accum, s.grid)) == Some(Run(r.accum, r.grid))
    decreases MAX_ARRAY - s.x, MAX_ARRAY - s.y
  {
    hide DoAll, Dx, Dy;
    var p := Pixel(s.x, s.y, s.accum, s.grid[At(s.x, s.y)]);
    Displacement(body, img, p);
    var s1 := Turn(body, img, s).value;
    RowEnd(body, img, s.x, s.y + 1, Run(s1.accum, s1.grid));
    if s1.done {
      n := 1;
      assert Turns(body, img, s1, 0) == Some(s1);
    } else {
      var m := BalancedEnds(body, img, s1);
      n := m + 1;
    }
  }

  lemma RowEnd(body: seq<Stmt>, img: Grid, x: nat, y: nat, run: Run)
    requires 1 <= x < MAX_ARRAY - 1 && 1 <= y <= MAX_ARRAY - 1
    ensures y == MAX_ARRAY - 1 ==> Raster(body, img, x, y, run) == Raster(body, img, x + 1, 1, run)
    ensures y == MAX_ARRAY - 1 && x + 1 == MAX_ARRAY - 1 ==> Raster(body, img, x, y, run) == Some(run)
  {
  }

  // ---- When the loop ends ----

  lemma {:induction false} NearEnd(body: seq<Stmt>, dx: int, dy: int)
    requires Near(body, dx, dy)
    ensures -1 <= dx + Dx(body) <= 1 && -1 <= dy + Dy(body) <= 1
    decreases |body|
  {
    if body != [] {
      if body[0].MoveRel? {
        NearEnd(body[1..], dx + body[0].dx, dy + body[0].dy);
      } else {
        NearEnd(body[1..], dx, dy);
      }
    }
  }

  predicate Finite(body: seq<Stmt>) {
    (Dx(body) == 0 && Dy(body) >= 0) || (Dx(body) == 1 && Dy(body) == 0)
  }

  // A body that ends one column or no place further on visits every second pixel of each row or all
  // of them; one that ends one row further on visits the diagonal.
  lemma {:induction false} FiniteEnds(body: seq<Stmt>, img: Grid, s: Loop) returns (n: nat)
    requires Near(body, 0, 0) && Finite(body) && Interior(s.x, s.y) && !s.done && (Dx(body) == 1 ==> s.x == s.y)
    ensures Ends(body, img, s, n)
    decreases MAX_ARRAY - s.x, MAX_ARRAY - s.y
  {
    hide DoAll, Dx, Dy, Near;
    var p := Pixel(s.x, s.y, s.accum, s.grid[At(s.x, s.y)]);
    NearEnd(body, 0, 0);
    NearStaysInside(body, img, s.x, s.y, p);
    Displacement(body, img, p);
    var s1 := Turn(body, img, s).value;
    if s1.done {
      n := 1;
      assert Turns(body, img, s1, 0) == Some(s1);
    } else {
      var m := FiniteEnds(body, img, s1);
      n := m + 1;
    }
  }

  // Where the other bodies can be: at the first pixel for ever, on their way out of the array, in the
  // first column, which has no end, or on one of two steep lines, the second of which leads out too.
  predicate Trapped(body: seq<Stmt>, s: Loop) {
    && !s.done
    && if Dx(body) == -1 then s.x == 0 || (s.x == 1 && s.y == 1)
       else if Dx(body) == 0 then s.x == 1 && s.y == 1
       else if Dy(body) == -1 then s.y == 1
       else 1 <= s.y <= MAX_ARRAY - 3 && (s.y - 1 == 2 * (s.x - 1) || s.y - 1 == 2 * (s.x - 65))
  }

  lemma {:induction false} TrappedGoesOn(body: seq<Stmt>, img: Grid, s: Loop, n: nat)
    requires Near(body, 0, 0) && !Finite(body) && Trapped(body, s)
    ensures !Ends(body, img, s, n)
    decreases n
  {
    hide DoAll, Dx, Dy, Near;
    if n > 0 && Turn(body, img, s).Some? {
      NearEnd(body, 0, 0);
      Displacement(body, img, Pixel(s.x, s.y, s.accum, s.grid[At(s.x, s.y)]));
      TrappedGoesOn(body, img, Turn(body, img, s).value, n - 1);
    }
  }

  // For a program that the emulator can run, the generated loop ends exactly when its moves add up to
  // nothing, to one column further on or to one row further on.
  lemma EndsIffFinite(body: seq<Stmt>, img: Grid, run: Run)
    requires Near(body, 0, 0)
    ensures (exists n: nat :: Ends(body, img, Start(run), n)) <==> Finite(body)
  {
    hide Near, Dx, Dy, Ends;
    if Finite(body) {
      var n := FiniteEnds(body, img, Start(run));
    } else {
      NearEnd(body, 0, 0);
      forall n: nat ensures !Ends(body, img, Start(run), n) {
        TrappedGoesOn(body, img, Start(run), n);
      }
    }
  }

  // ---- Unbalanced bodies ----

  // From such a state the loop never gets to the second pixel.
  predicate PastSecond(body: seq<Stmt>, s: Loop) {
    || s.done || (s.x == 1 && s.y == 1)
    || (if Dx(body) == -1 then s.x == 0 else s.x >= 2 || (s.x == 1 && s.y >= 3))
  }

  lemma TurnMissesSecond(body: seq<Stmt>, img: Grid, s: Loop)
    requires Near(body, 0, 0) && !Balanced(body) && PastSecond(body, s) && !s.done && Turn(body, img, s).Some?
    ensures var r := Turn(body, img, s).value; PastSecond(body, r) && r.grid[At(1, 2)] == s.grid[At(1, 2)]
  {
    hide DoAll, Dx, Dy, Near;
    NearEnd(body, 0, 0);
    Displacement(body, img, Pixel(s.x, s.y, s.accum, s.grid[At(s.x, s.y)]));
  }

  lemma {:induction false} MissesSecond(body: seq<Stmt>, img: Grid, s: Loop, n: nat)
    requires Near(body, 0, 0) && !Balanced(body) && PastSecond(body, s) && Turns(body, img, s, n).Some?
    ensures Turns(body, img, s, n).value.grid[At(1, 2)] == s.grid[At(1, 2)]
    decreases n
  {
    hide Near, Balanced, PastSecond, Turn;
    if n > 0 && !s.done {
      TurnMissesSecond(body, img, s);
      MissesSecond(body, img, Turn(body, img, s).value, n - 1);
    }
  }

  // What a body does depends on the old value of its cell only if it does not store.
  lemma {:induction false} CellIsStored(body: seq<Stmt>, img: Grid, p: Pixel, c: int)
    requires Inside(p.x, p.y)
    ensures var a, b := DoAll(body, img, p), DoAll(body, img, p.(cell := c));
            && (a.Some? <==> b.Some?)
            && (a.Some? && StoreData in body ==> a == b)
            && (a.Some? && StoreData !in body ==> a.value.cell == p.cell)
    ensures var a, b := DoAll(body, img, p), DoAll(body, img, p.(cell := c));
            a.Some? ==> a.value.(cell := 0) == b.value.(cell := 0)
    decreases |body|
  {
    if body != [] {
      var q, r := Do(body[0], img, p), Do(body[0], img, p.(cell := c));
      if q.Some? {
        assert r == Some(q.value.(cell := r.value.cell));
        CellIsStored(body[1..], img, q.value, r.value.cell);
      }
    }
  }

  lemma {:induction false} RasterKeepsBefore(body: seq<Stmt>, img: Grid, x: nat, y: nat, run: Run, i: int, j: int)
    requires 1 <= x <= MAX_ARRAY - 1 && 1 <= y <= MAX_ARRAY - 1 && Raster(body, img, x, y, run).Some?
    requires Inside(i, j) && (i < x || (i == x && j < y))
    ensures Raster(body, img, x, y, run).value.grid[At(i, j)] == run.grid[At(i, j)]
    decreases MAX_ARRAY - x, MAX_ARRAY - y
  {
    hide DoAll;
    if x < MAX_ARRAY - 1 {
      if y == MAX_ARRAY - 1 {
        RasterKeepsBefore(body, img, x + 1, 1, run, i, j);
      } else {
        var p := DoAll(body, img, Pixel(x, y, run.accum, run.grid[At(x, y)])).value;
        RasterKeepsBefore(body, img, x, y + 1, Run(p.accum, run.grid[At(x, y) := p.cell]), i, j);
      }
    }
  }

  // The emulator's value of the second pixel.
  lemma SecondPixel(body: seq<Stmt>, img: Grid, run: Run) returns (p: Pixel, q: Pixel)
    requires Near(body, 0, 0)
    ensures DoAll(body, img, Pixel(1, 1, run.accum, run.grid[At(1, 1)])) == Some(p)
    ensures DoAll(body, img, Pixel(1, 2, p.accum, run.grid[At(1, 2)])) == Some(q)
    ensures Raster(body, img, 1, 1, run).Some? && Raster(body, img, 1, 1, run).value.grid[At(1, 2)] == q.cell
  {
    hide DoAll, Near;
    NearRuns(body, img, 1, 1, run);
    p := DoAll(body, img, Pixel(1, 1, run.accum, run.grid[At(1, 1)])).value;
    var run1 := Run(p.accum, run.grid[At(1, 1) := p.cell]);
    q := DoAll(body, img, Pixel(1, 2, p.accum, run.grid[At(1, 2)])).value;
    var run2 := Run(q.accum, run1.grid[At(1, 2) := q.cell]);
    assert Raster(body, img, 1, 1, run) == Raster(body, img, 1, 2, run1) == Raster(body, img, 1, 3, run2);
    RasterKeepsBefore(body, img, 1, 3, run2, 1, 2);
  }

  // For every image and accumulator there is an output array on which an unbalanced body that stores
  // never gives the emulator's output, after any number of turns.
  lemma UnbalancedDiffers(body: seq<Stmt>, img: Grid, run: Run) returns (other: Run)
    requires Near(body, 0, 0) && !Balanced(body) && StoreData in body
    ensures other.accum == run.accum && Raster(body, img, 1, 1, other).Some?
    ensures forall n: nat :: Turns(body, img, Start(other), n).Some? ==>
              Turns(body, img, Start(other), n).value.grid != Raster(body, img, 1, 1, other).value.grid
  {
    hide Near, Balanced, DoAll, Raster, Turns;
    var p, q := SecondPixel(body, img, run);
    other := run.(grid := run.grid[At(1, 2) := q.cell + 1]);
    var p', q' := SecondPixel(body, img, other);
    CellIsStored(body, img, Pixel(1, 2, p.accum, run.grid[At(1, 2)]), q.cell + 1);
    forall n: nat | Turns(body, img, Start(other), n).Some?
      ensures Turns(body, img, Start(other), n).value.grid != Raster(body, img, 1, 1, other).value.grid
    {
      MissesSecond(body, img, Start(other), n);
    }
  }

  // ---- Bodies that do not store ----

  lemma {:induction false} TurnsKeep(body: seq<Stmt>, img: Grid, s: Loop, n: nat)
    requires StoreData !in body && Turns(body, img, s, n).Some?
    ensures Turns(body, img, s, n).value.grid == s.grid
    decreases n
  {
    hide DoAll;
    if n > 0 && !s.done {
      CellIsStored(body, img, Pixel(s.x, s.y, s.accum, s.grid[At(s.x, s.y)]), 0);
      TurnsKeep(body, img, Turn(body, img, s).value, n - 1);
    }
  }

  lemma {:induction false} RasterKeeps(body: seq<Stmt>, img: Grid, x: nat, y: nat, run: Run)
    requires 1 <= x <= MAX_ARRAY - 1 && 1 <= y <= MAX_ARRAY - 1
    requires StoreData !in body && Raster(body, img, x, y, run).Some?
    ensures Raster(body, img, x, y, run).value.grid == run.grid
    decreases MAX_ARRAY - x, MAX_ARRAY - y
  {
    hide DoAll;
    if x < MAX_ARRAY - 1 {
      if y == MAX_ARRAY - 1 {
        RasterKeeps(body, img, x + 1, 1, run);
      } else {
        CellIsStored(body, img, Pixel(x, y, run.accum, run.grid[At(x, y)]), 0);
        var p := DoAll(body, img, Pixel(x, y, run.accum, run.grid[At(x, y)])).value;
        RasterKeeps(body, img, x, y + 1, Run(p.accum, run.grid[At(x, y) := p.cell]));
      }
    }
  }

  // ---- The main result ----

  // The generated function ends, with the emulator's output.
  ghost predicate SameOutput(body: seq<Stmt>, img: Grid, run: Run) {
    && Raster(body, img, 1, 1, run).Some?
    && exists n: nat :: Ends(body, img, Start(run), n)
                        && Turns(body, img, Start(run), n).value.grid == Raster(body, img, 1, 1, run).value.grid
  }

  // Which of the programs that the emulator can run are translated correctly: those whose moves add up
  // to nothing and, of those that never store, the ones whose generated loop ends at all.
  lemma SameOutputIff(body: seq<Stmt>)
    requires Near(body, 0, 0)
    ensures (forall img, run :: SameOutput(body, img, run))
            <==> Balanced(body) || (StoreData !in body && Finite(body))
  {
    hide Near, Dx, Dy, Turns, Raster;
    if Balanced(body) || (StoreData !in body && Finite(body)) {
      forall img, run ensures SameOutput(body, img, run) {
        CorrectRun(body, img, run);
      }
    } else {
      var img: Grid := seq(CELLS, _ => 0);
      var run := Run(0, img);
      if StoreData in body {
        run := UnbalancedDiffers(body, img, run);
      } else {
        EndsIffFinite(body, img, run);
      }
      assert !SameOutput(body, img, run);
    }
  }

  lemma CorrectRun(body: seq<Stmt>, img: Grid, run: Run)
    requires Near(body, 0, 0) && (Balanced(body) || (StoreData !in body && Finite(body)))
    ensures SameOutput(body, img, run)
  {
    hide Near, Dx, Dy, Turns, Raster;
    NearRuns(body, img, 1, 1, run);
    if Balanced(body) {
      var n := BalancedEnds(body, img, Start(run));
    } else {
      var n := FiniteEnds(body, img, Start(run));
      TurnsKeep(body, img, Start(run), n);
      RasterKeeps(body, img, 1, 1, run);
    }
  }

  // ---- A program that is translated wrongly ----

  function Skipping(): seq<int> {
    [SET_ACCUM, 1, STORE_DATA, MOVE_REL, 0, 1, END]
  }

  function SkippingBody(): seq<Stmt> {
    [SetAccum(1), StoreData, MoveRel(0, 1)]
  }

  lemma SkippingTranslates()
    ensures Translate(Skipping(), 0) == Some(SkippingBody())
  {
    var c, b := Skipping(), SkippingBody();
    assert Translate(c, 6) == Some(b[3..]);
    Emits(c, 3, 6, b, 2);
    Emits(c, 2, 3, b, 1);
    Emits(c, 0, 2, b, 0);
    assert b[0..] == b;
  }

  lemma SkippingMoves()
    ensures Near(SkippingBody(), 0, 0) && Dx(SkippingBody()) == 0 && Dy(SkippingBody()) == 1
  {
    var b := SkippingBody();
    assert b[1..][1..] == [MoveRel(0, 1)] && b[1..][1..][1..] == [];
    assert Near(b[1..][1..], 0, 0) && Dx(b[1..][1..]) == 0 && Dy(b[1..][1..]) == 1;
    assert Near(b[1..], 0, 0) && Dx(b[1..]) == 0 && Dy(b[1..]) == 1;
  }

  // It stores 1 at every pixel. The emulator writes the second pixel of the first row, and the
  // generated function ends without having touched it.
  lemma SkippingSkips(img: Grid, run: Run) returns (n: nat)
    ensures Translate(Skipping(), 0) == Some(SkippingBody())
    ensures Ends(SkippingBody(), img, Start(run), n)
    ensures Turns(SkippingBody(), img, Start(run), n).value.grid[At(1, 2)] == run.grid[At(1, 2)]
    ensures Raster(SkippingBody(), img, 1, 1, run).Some?
    ensures Raster(SkippingBody(), img, 1, 1, run).value.grid[At(1, 2)] == 1
  {
    hide Near, Dx, Dy, Turns, Raster, Translate, Skipping, SkippingBody, DoAll;
    var b := SkippingBody();
    SkippingTranslates();
    SkippingMoves();
    n := FiniteEnds(b, img, Start(run));
    MissesSecond(b, img, Start(run), n);
    var p, q := SecondPixel(b, img, run);
    StoresOne(img, Pixel(1, 2, p.accum, run.grid[At(1, 2)]));
  }

  lemma StoresOne(img: Grid, p: Pixel)
    requires p.x == 1 && p.y == 2
    ensures DoAll(SkippingBody(), img, p) == Some(Pixel(1, 3, 1, 1))
  {
    var b := SkippingBody();
    assert DoAll(b[1..][1..], img, Pixel(1, 2, 1, 1)) == Some(Pixel(1, 3, 1, 1));
    assert DoAll(b[1..], img, Pixel(1, 2, 1, p.cell)) == Some(Pixel(1, 3, 1, 1));
  }

  // ---- Code blocks ----

  // A block of opcodes with the function it has been translated to, if it has.
  class CodeBlock {
    const code: seq<int>
    var func: Option<seq<Stmt>>

    ghost predicate Valid()
      reads this
    {
      func.Some? ==> func == Translate(code, 0)
    }

    constructor (code: seq<int>)
      ensures Valid() && this.code == code && func == None
    {
      this.code := code;
      func := None;
    }

    // Translate on first use, then run.
    method Execute(img: Grid, out: array<int>, accum: int, ghost n: nat) returns (last: int)
      requires Valid() && out.Length == CELLS && Translate(code, 0).Some?
      requires Ends(Translate(code, 0).value, img, Start(Run(accum, out[..])), n)
      modifies this, out
      ensures Valid() && func.Some? && (old(func).Some? ==> func == old(func))
      ensures var s := Turns(Translate(code, 0).value, img, Start(Run(accum, old(out[..]))), n);
              s.Some? && s.value.done && last == s.value.accum && out[..] == s.value.grid
    {
      hide Translate, Turns;
      if func.None? {
        var body := GenFunction(code);
        func := Some(body);
      }
      var x, y;
      x, y, last := RunTranslated(func.value, img, out, accum, n);
    }
  }

  // Every program whose moves add up to nothing and stay within one step of the pixel leaves the same
  // output and the same accumulator when it is emulated and when its translation runs.
  method BothWays(block: CodeBlock, img: Grid, emulated: array<int>, translated: array<int>, accum: int)
      returns (last1: int, last2: int)
    requires emulated != translated && emulated.Length == translated.Length == CELLS
    requires emulated[..] == translated[..] && block.Valid() && Translate(block.code, 0).Some?
    requires var body := Translate(block.code, 0).value; Balanced(body) && Near(body, 0, 0)
    modifies block, emulated, translated
    ensures emulated[..] == translated[..] && last1 == last2
    ensures Raster(Translate(block.code, 0).value, img, 1, 1, Run(accum, old(emulated[..])))
            == Some(Run(last1, emulated[..]))
  {
    hide Translate, Near, Raster, Turns, Balanced;
    ghost var body, run := Translate(block.code, 0).value, Run(accum, emulated[..]);
    NearRuns(body, img, 1, 1, run);
    ghost var n := BalancedEnds(body, img, Start(run));
    last1 := EmulateOpcodes(block.code, img, emulated, accum);
    last2 := block.Execute(img, translated, accum, n);
  }
}
