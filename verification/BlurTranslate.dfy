// The opcode emulator and the code generator of bochs-performance/testcases/blur-translate.c, and
// the meaning that blur-translate.h gives to the generated statements.
module BlurTranslate {
  import opened Wrappers

  const MAX_ARRAY := 128
  const CELLS := 16384

  // Opcodes, as they stand in an opcode list; MOVE_REL is followed by two operands and SET_ACCUM by
  // one.
  const MOVE_REL := 0
  const SET_ACCUM := 1
  const ADD_DATA := 2
  const SUBTRACT_DATA := 3
  const MULTIPLY_DATA := 4
  const STORE_DATA := 5
  const END := 6

  // The macro calls of a generated function.
  datatype Stmt =
    | MoveRel(dx: int, dy: int)
    | SetAccum(v: int)
    | AddData
    | SubtractData
    | MultiplyData
    | StoreData

  // The two global arrays, row after row.
  type Grid = g: seq<int> | |g| == CELLS witness seq(CELLS, _ => 0)

  predicate Inside(x: int, y: int) {
    0 <= x < MAX_ARRAY && 0 <= y < MAX_ARRAY
  }

  function At(x: int, y: int): (i: nat)
    requires Inside(x, y)
    ensures i < CELLS
  {
    MAX_ARRAY * x + y
  }

  lemma AtInjective(x: int, y: int, i: int, j: int)
    requires Inside(x, y) && Inside(i, j) && At(x, y) == At(i, j)
    ensures x == i && y == j
  {
  }

  // The state of one pixel's computation. The load pointer is always that of (x, y); the store
  // pointer does not move, and `cell` is what it points to.
  datatype Pixel = Pixel(x: int, y: int, accum: int, cell: int)

  // One macro; None when it would point outside the array.
  function Do(s: Stmt, img: Grid, p: Pixel): (r: Option<Pixel>)
    requires Inside(p.x, p.y)
    ensures r.Some? ==> Inside(r.value.x, r.value.y)
  {
    match s
    case MoveRel(dx, dy) => if Inside(p.x + dx, p.y + dy) then Some(p.(x := p.x + dx, y := p.y + dy)) else None
    case SetAccum(v) => Some(p.(accum := v))
    case AddData => Some(p.(accum := p.accum + img[At(p.x, p.y)]))
    case SubtractData => Some(p.(accum := p.accum - img[At(p.x, p.y)]))
    case MultiplyData => Some(p.(accum := p.accum * img[At(p.x, p.y)]))
    case StoreData => Some(p.(cell := p.accum))
  }

  function DoAll(body: seq<Stmt>, img: Grid, p: Pixel): (r: Option<Pixel>)
    requires Inside(p.x, p.y)
    ensures r.Some? ==> Inside(r.value.x, r.value.y)
    decreases |body|
  {
    if body == [] then Some(p)
    else
      var p1 :- Do(body[0], img, p);
      DoAll(body[1..], img, p1)
  }

  // The emulator on one pixel: decode an opcode, do it, go on. None for an unknown opcode, a list
  // without an END, or a move outside.
  function Emulate(code: seq<int>, pc: nat, img: Grid, p: Pixel): (r: Option<Pixel>)
    requires pc <= |code| && Inside(p.x, p.y)
    ensures r.Some? ==> Inside(r.value.x, r.value.y)
    decreases |code| - pc
  {
    var (s, next) :- Fetch(code, pc);
    if s.None? then Some(p)
    else
      var p1 :- Do(s.value, img, p);
      Emulate(code, next, img, p1)
  }

  // The instruction at `pc` and the place of the one after it; the instruction is None for END.
  function Fetch(code: seq<int>, pc: nat): (r: Option<(Option<Stmt>, nat)>)
    requires pc <= |code|
    ensures r.Some? ==> pc < r.value.1 <= |code|
  {
    if pc == |code| then None
    else if code[pc] == MOVE_REL then
      if pc + 3 <= |code| then Some((Some(MoveRel(code[pc + 1], code[pc + 2])), pc + 3)) else None
    else if code[pc] == SET_ACCUM then
      if pc + 2 <= |code| then Some((Some(SetAccum(code[pc + 1])), pc + 2)) else None
    else if code[pc] == ADD_DATA then Some((Some(AddData), pc + 1))
    else if code[pc] == SUBTRACT_DATA then Some((Some(SubtractData), pc + 1))
    else if code[pc] == MULTIPLY_DATA then Some((Some(MultiplyData), pc + 1))
    else if code[pc] == STORE_DATA then Some((Some(StoreData), pc + 1))
    else if code[pc] == END then Some((None, pc + 1))
    else None
  }

  // The body of the generated function.
  function Translate(code: seq<int>, pc: nat): Option<seq<Stmt>>
    requires pc <= |code|
    decreases |code| - pc
  {
    var (s, next) :- Fetch(code, pc);
    if s.None? then Some([])
    else
      var rest :- Translate(code, next);
      Some([s.value] + rest)
  }

  // The instruction at `pc` becomes statement `m` of the body `b`.
  lemma Emits(code: seq<int>, pc: nat, next: nat, b: seq<Stmt>, m: nat)
    requires pc < next <= |code| && m < |b| && Fetch(code, pc) == Some((Some(b[m]), next))
    requires Translate(code, next) == Some(b[m + 1..])
    ensures Translate(code, pc) == Some(b[m..])
  {
    hide Fetch;
    assert [b[m]] + b[m + 1..] == b[m..];
  }

  // On one pixel the emulator does what the generated statements do, and fails when generation does.
  lemma {:induction false} EmulationIsTranslation(code: seq<int>, pc: nat, img: Grid, p: Pixel)
    requires pc <= |code| && Inside(p.x, p.y)
    ensures Translate(code, pc).Some? ==> Emulate(code, pc, img, p) == DoAll(Translate(code, pc).value, img, p)
    ensures Translate(code, pc).None? ==> Emulate(code, pc, img, p).None?
    decreases |code| - pc
  {
    hide Do, Inside;
    match Fetch(code, pc)
    case None =>
    case Some((s, next)) =>
      if s.Some? {
        match Do(s.value, img, p)
        case None =>
          if Translate(code, next).Some? {
            assert Translate(code, pc).value[0] == s.value;
          }
        case Some(p1) =>
          EmulationIsTranslation(code, next, img, p1);
          if Translate(code, next).Some? {
            assert Translate(code, pc).value[1..] == Translate(code, next).value;
          }
      }
  }

  // ---- Laws of the opcodes ----

  function Times(s: Stmt, k: nat): (r: seq<Stmt>)
    ensures |r| == k
  {
    if k == 0 then [] else [s] + Times(s, k - 1)
  }

  // Subtracting undoes adding, and adding undoes subtracting.
  lemma SubtractUndoesAdd(img: Grid, p: Pixel)
    requires Inside(p.x, p.y)
    ensures DoAll([SubtractData, AddData], img, p) == Some(p) && DoAll([AddData, SubtractData], img, p) == Some(p)
  {
    TwoSteps(SubtractData, AddData, img, p);
    TwoSteps(AddData, SubtractData, img, p);
  }

  // Multiplying is repeated adding, or the opposite of it.
  lemma MultiplyIsRepeatedAdd(img: Grid, p: Pixel, k: nat)
    requires Inside(p.x, p.y)
    ensures DoAll([SetAccum(k), MultiplyData], img, p) == DoAll([SetAccum(0)] + Times(AddData, k), img, p)
    ensures var a, b := DoAll([SetAccum(k), MultiplyData], img, p), DoAll([SetAccum(0 - k), MultiplyData], img, p);
            a.Some? && b == Some(a.value.(accum := -a.value.accum))
  {
    hide DoAll;
    var data := img[At(p.x, p.y)];
    TwoSteps(SetAccum(k), MultiplyData, img, p);
    TwoSteps(SetAccum(0 - k), MultiplyData, img, p);
    TwoSteps(SetAccum(0), AddData, img, p);
    DoAllAppend([SetAccum(0)], Times(AddData, k), img, p);
    AddsUp(img, p.(accum := 0), k);
    assert (0 - k) * data == -(k * data);
  }

  lemma {:induction false} AddsUp(img: Grid, p: Pixel, k: nat)
    requires Inside(p.x, p.y)
    ensures DoAll(Times(AddData, k), img, p) == Some(p.(accum := p.accum + k * img[At(p.x, p.y)]))
    decreases k
  {
    if k > 0 {
      var data := img[At(p.x, p.y)];
      assert Times(AddData, k)[1..] == Times(AddData, k - 1);
      AddsUp(img, p.(accum := p.accum + data), k - 1);
      assert (k - 1) * data + data == k * data;
    }
  }

  lemma {:induction false} DoAllAppend(a: seq<Stmt>, b: seq<Stmt>, img: Grid, p: Pixel)
    requires Inside(p.x, p.y)
    ensures DoAll(a + b, img, p) == match DoAll(a, img, p) case None => None case Some(q) => DoAll(b, img, q)
    decreases |a|
  {
    hide Do;
    if a == [] {
      assert a + b == b;
    } else {
      assert (a + b)[1..] == a[1..] + b;
      var r := Do(a[0], img, p);
      if r.Some? {
        DoAllAppend(a[1..], b, img, r.value);
      }
    }
  }

  lemma TwoSteps(a: Stmt, b: Stmt, img: Grid, p: Pixel)
    requires Inside(p.x, p.y)
    ensures DoAll([a], img, p) == Do(a, img, p)
    ensures Do(a, img, p).Some? ==> DoAll([a, b], img, p) == Do(b, img, Do(a, img, p).value)
  {
    assert [a][1..] == [] && [a, b][1..] == [b];
    if Do(a, img, p).Some? {
      var q := Do(a, img, p).value;
      assert DoAll([b], img, q) == Do(b, img, q);
    }
  }

  // The numbers of the opcodes.
  lemma OpcodeNumbers(a: int, b: int)
    ensures Translate([0, a, b, 6], 0) == Some([MoveRel(a, b)]) && Translate([1, a, 6], 0) == Some([SetAccum(a)])
    ensures Translate([2, 6], 0) == Some([AddData]) && Translate([3, 6], 0) == Some([SubtractData])
    ensures Translate([4, 6], 0) == Some([MultiplyData]) && Translate([5, 6], 0) == Some([StoreData])
  {
    OneOpcode([0, a, b, 6], 3, MoveRel(a, b));
    OneOpcode([1, a, 6], 2, SetAccum(a));
    OneOpcode([2, 6], 1, AddData);
    OneOpcode([3, 6], 1, SubtractData);
    OneOpcode([4, 6], 1, MultiplyData);
    OneOpcode([5, 6], 1, StoreData);
  }

  lemma OneOpcode(code: seq<int>, next: nat, s: Stmt)
    requires 0 < next == |code| - 1 && Fetch(code, 0) == Some((Some(s), next)) && Fetch(code, next) == Some((None, |code|))
    ensures Translate(code, 0) == Some([s])
  {
    hide Fetch;
    assert Translate(code, next) == Some([]);
    assert [s] + [] == [s];
  }

  // ---- The displacement of a body ----

  function Dx(body: seq<Stmt>): int
    decreases |body|
  {
    if body == [] then 0 else (if body[0].MoveRel? then body[0].dx else 0) + Dx(body[1..])
  }

  function Dy(body: seq<Stmt>): int
    decreases |body|
  {
    if body == [] then 0 else (if body[0].MoveRel? then body[0].dy else 0) + Dy(body[1..])
  }

  predicate Balanced(body: seq<Stmt>) {
    Dx(body) == 0 && Dy(body) == 0
  }

  lemma {:induction false} Displacement(body: seq<Stmt>, img: Grid, p: Pixel)
    requires Inside(p.x, p.y) && DoAll(body, img, p).Some?
    ensures DoAll(body, img, p).value.x == p.x + Dx(body) && DoAll(body, img, p).value.y == p.y + Dy(body)
    decreases |body|
  {
    if body != [] {
      Displacement(body[1..], img, Do(body[0], img, p).value);
    }
  }

  // Every position on the way is at most one step away from the pixel, which is at (dx, dy) now.
  predicate Near(body: seq<Stmt>, dx: int, dy: int)
    decreases |body|
  {
    && -1 <= dx <= 1 && -1 <= dy <= 1
    && (body != [] ==> if body[0].MoveRel? then Near(body[1..], dx + body[0].dx, dy + body[0].dy)
                       else Near(body[1..], dx, dy))
  }

  // Where the pixels of the output are.
  predicate Interior(x: int, y: int) {
    1 <= x < MAX_ARRAY - 1 && 1 <= y < MAX_ARRAY - 1
  }

  // Staying near is exactly what keeps the body inside the array at every pixel.
  lemma {:induction false} NearStaysInside(body: seq<Stmt>, img: Grid, x: int, y: int, p: Pixel)
    requires Interior(x, y) && Near(body, p.x - x, p.y - y)
    ensures Inside(p.x, p.y) && DoAll(body, img, p).Some?
    decreases |body|
  {
    if body != [] {
      NearStaysInside(body[1..], img, x, y, Do(body[0], img, p).value);
    }
  }

  lemma {:induction false} FarLeaves(body: seq<Stmt>, img: Grid, dx: int, dy: int) returns (x: int, y: int)
    requires -1 <= dx <= 1 && -1 <= dy <= 1 && !Near(body, dx, dy)
    ensures Interior(x, y) && Inside(x + dx, y + dy)
    ensures forall p: Pixel :: p.x == x + dx && p.y == y + dy ==> DoAll(body, img, p).None?
    decreases |body|
  {
    var s := body[0];
    if s.MoveRel? && !(-1 <= dx + s.dx <= 1 && -1 <= dy + s.dy <= 1) {
      x := if dx + s.dx < -1 then 1 else MAX_ARRAY - 2;
      y := if dy + s.dy < -1 then 1 else MAX_ARRAY - 2;
    } else {
      var dx', dy' := if s.MoveRel? then dx + s.dx else dx, if s.MoveRel? then dy + s.dy else dy;
      x, y := FarLeaves(body[1..], img, dx', dy');
      forall p: Pixel | p.x == x + dx && p.y == y + dy ensures DoAll(body, img, p).None? {
        var r := Do(s, img, p);
        assert r.Some? ==> r.value.x == x + dx' && r.value.y == y + dy';
      }
    }
  }

  // ---- The loops over the pixels ----

  // What a run leaves behind: the accumulator, which is carried from pixel to pixel, and the output.
  datatype Run = Run(accum: int, grid: Grid)

  // A body at every interior pixel from (x, y) on, row by row.
  function Raster(body: seq<Stmt>, img: Grid, x: nat, y: nat, run: Run): Option<Run>
    requires 1 <= x <= MAX_ARRAY - 1 && 1 <= y <= MAX_ARRAY - 1
    decreases MAX_ARRAY - x, MAX_ARRAY - y
  {
    if x == MAX_ARRAY - 1 then Some(run)
    else if y == MAX_ARRAY - 1 then Raster(body, img, x + 1, 1, run)
    else
      var p :- DoAll(body, img, Pixel(x, y, run.accum, run.grid[At(x, y)]));
      Raster(body, img, x, y + 1, Run(p.accum, run.grid[At(x, y) := p.cell]))
  }

  // The emulator.
  method EmulateOpcodes(code: seq<int>, img: Grid, out: array<int>, accum: int) returns (last: int)
    requires out.Length == CELLS && Translate(code, 0).Some?
    requires Raster(Translate(code, 0).value, img, 1, 1, Run(accum, out[..])).Some?
    modifies out
    ensures Raster(Translate(code, 0).value, img, 1, 1, Run(accum, old(out[..]))) == Some(Run(last, out[..]))
  {
    hide Translate, Emulate, DoAll;
    ghost var body := Translate(code, 0).value;
    last := accum;
    var x := 1;
    while x < MAX_ARRAY - 1
      invariant 1 <= x <= MAX_ARRAY - 1
      invariant Raster(body, img, x, 1, Run(last, out[..])) == Raster(body, img, 1, 1, Run(accum, old(out[..])))
    {
      var y := 1;
      while y < MAX_ARRAY - 1
        invariant 1 <= y <= MAX_ARRAY - 1
        invariant Raster(body, img, x, y, Run(last, out[..])) == Raster(body, img, 1, 1, Run(accum, old(out[..])))
      {
        var start := Pixel(x, y, last, out[At(x, y)]);
        EmulationIsTranslation(code, 0, img, start);
        var p := EmulatePixel(code, img, start);
        out[At(x, y)] := p.cell;
        last := p.accum;
        y := y + 1;
      }
      x := x + 1;
    }
  }

  // Its inner loop.
  method EmulatePixel(code: seq<int>, img: Grid, start: Pixel) returns (p: Pixel)
    requires Inside(start.x, start.y) && Emulate(code, 0, img, start).Some?
    ensures Emulate(code, 0, img, start) == Some(p)
  {
    hide Do;
    var pc, done := 0, false;
    p := start;
    while !done
      invariant pc <= |code| && Inside(p.x, p.y)
      invariant if done then Emulate(code, 0, img, start) == Some(p)
                else Emulate(code, pc, img, p) == Emulate(code, 0, img, start)
      decreases if done then 0 else 1 + |code| - pc
    {
      FetchCases(code, pc);
      var op := code[pc];
      pc := pc + 1;
      if op == MOVE_REL {
        var arg1, arg2 := code[pc], code[pc + 1];
        pc := pc + 2;
        p := Do(MoveRel(arg1, arg2), img, p).value;
      } else if op == SET_ACCUM {
        var arg1 := code[pc];
        pc := pc + 1;
        p := Do(SetAccum(arg1), img, p).value;
      } else if op == ADD_DATA {
        p := Do(AddData, img, p).value;
      } else if op == SUBTRACT_DATA {
        p := Do(SubtractData, img, p).value;
      } else if op == MULTIPLY_DATA {
        p := Do(MultiplyData, img, p).value;
      } else if op == STORE_DATA {
        p := Do(StoreData, img, p).value;
      } else {
        done := true;
      }
    }
  }

  // The opcodes that are decoded, and the operands they have.
  lemma FetchCases(code: seq<int>, pc: nat)
    requires pc <= |code| && Fetch(code, pc).Some?
    ensures pc < |code| && MOVE_REL <= code[pc] <= END
    ensures code[pc] == MOVE_REL ==> pc + 2 < |code|
    ensures code[pc] == SET_ACCUM ==> pc + 1 < |code|
  {
  }

  lemma TranslateNext(code: seq<int>, pc: nat, body: seq<Stmt>)
    requires pc <= |code| && Translate(code, pc).Some?
    ensures Fetch(code, pc).Some?
    ensures var (s, next) := Fetch(code, pc).value;
            if s.None? then body + Translate(code, pc).value == body
            else && Translate(code, next).Some?
                 && body + Translate(code, pc).value == body + [s.value] + Translate(code, next).value
  {
  }

  // The code generator.
  method GenFunction(code: seq<int>) returns (body: seq<Stmt>)
    requires Translate(code, 0).Some?
    ensures Translate(code, 0) == Some(body)
  {
    hide Translate;
    var pc, done := 0, false;
    body := [];
    ghost var all := Translate(code, 0).value;
    while !done
      invariant pc <= |code|
      invariant if done then body == all
                else Translate(code, pc).Some? && body + Translate(code, pc).value == all
      decreases if done then 0 else 1 + |code| - pc
    {
      TranslateNext(code, pc, body);
      FetchCases(code, pc);
      var op := code[pc];
      pc := pc + 1;
      if op == MOVE_REL {
        body := body + [MoveRel(code[pc], code[pc + 1])];
        pc := pc + 2;
      } else if op == SET_ACCUM {
        body := body + [SetAccum(code[pc])];
        pc := pc + 1;
      } else if op == ADD_DATA {
        body := body + [AddData];
      } else if op == SUBTRACT_DATA {
        body := body + [SubtractData];
      } else if op == MULTIPLY_DATA {
        body := body + [MultiplyData];
      } else if op == STORE_DATA {
        body := body + [StoreData];
      } else {
        done := true;
      }
    }
  }

  // A body that stays near its pixel runs to the end.
  lemma {:induction false} NearRuns(body: seq<Stmt>, img: Grid, x: nat, y: nat, run: Run)
    requires 1 <= x <= MAX_ARRAY - 1 && 1 <= y <= MAX_ARRAY - 1 && Near(body, 0, 0)
    ensures Raster(body, img, x, y, run).Some?
    decreases MAX_ARRAY - x, MAX_ARRAY - y
  {
    hide DoAll;
    if x < MAX_ARRAY - 1 {
      if y == MAX_ARRAY - 1 {
        NearRuns(body, img, x + 1, 1, run);
      } else {
        var p := Pixel(x, y, run.accum, run.grid[At(x, y)]);
        NearStaysInside(body, img, x, y, p);
        var q := DoAll(body, img, p).value;
        NearRuns(body, img, x, y + 1, Run(q.accum, run.grid[At(x, y) := q.cell]));
      }
    }
  }

  // A run that gets to the end has been at every pixel on the way.
  lemma {:induction false} RasterReaches(body: seq<Stmt>, img: Grid, x: nat, y: nat, run: Run, px: int, py: int)
      returns (p: Pixel)
    requires 1 <= x <= MAX_ARRAY - 1 && 1 <= y <= MAX_ARRAY - 1 && Raster(body, img, x, y, run).Some?
    requires Interior(px, py) && (x < px || (x == px && y <= py))
    ensures p.x == px && p.y == py && DoAll(body, img, p).Some?
    decreases MAX_ARRAY - x, MAX_ARRAY - y
  {
    hide DoAll;
    p := Pixel(px, py, run.accum, run.grid[At(px, py)]);
    if y == MAX_ARRAY - 1 {
      p := RasterReaches(body, img, x + 1, 1, run, px, py);
    } else if x != px || y != py {
      var q := DoAll(body, img, Pixel(x, y, run.accum, run.grid[At(x, y)])).value;
      p := RasterReaches(body, img, x, y + 1, Run(q.accum, run.grid[At(x, y) := q.cell]), px, py);
    }
  }

  // A program stays within the array at every pixel exactly when it stays within one step of it.
  lemma RunsIffNear(body: seq<Stmt>, img: Grid, run: Run)
    ensures Raster(body, img, 1, 1, run).Some? <==> Near(body, 0, 0)
  {
    hide Raster, Near, DoAll;
    if Near(body, 0, 0) {
      NearRuns(body, img, 1, 1, run);
    } else if Raster(body, img, 1, 1, run).Some? {
      var x, y := FarLeaves(body, img, 0, 0);
      var p := RasterReaches(body, img, 1, 1, run, x, y);
    }
  }
}
