/**
 * The loading screen: a 10×10 grid of tiles that later fall off screen, and the
 * greeting text whose fade, removal and glitch pulses follow a fixed timeline.
 *
 * `Math.random()` is an injected sequence of reals in [0, 1); each tile consumes
 * four draws, in the order the generator makes them (colour, rotation, drift,
 * fall duration). Arithmetic on the draws is exact real arithmetic.
 */
module LoadingScreen {

  const GridSize: nat := 10
  const BlockCount: nat := 100      // GridSize * GridSize
  const TileSize: nat := 10         // percent of the viewport, per side
  const RowStagger: nat := 50       // ms of delay per row
  const DrawsPerBlock: nat := 4
  const FallTargetY: int := 120     // vh: 100vh plus 20vh below the screen

  /** The ten gray shades a tile may take. */
  const GrayShades: seq<string> := [
    "#161618", "#111111", "#131316", "#181818", "#1c1c1c",
    "#141416", "#131314", "#121212", "#0f0f0f", "#141414"
  ]

  datatype Block = Block(
    id: string,
    x: int,
    y: int,
    w: int,
    h: int,
    color: string,
    rotation: real,
    staggerDelay: int,
    targetX: real,
    targetY: int,
    fallDuration: real,
    horizontalDrift: real,
    row: int)

  /** A value `Math.random()` may return. */
  predicate IsRandom(r: real) {
    0.0 <= r < 1.0
  }

  predicate IsRandomSource(random: seq<real>) {
    forall i :: 0 <= i < |random| ==> IsRandom(random[i])
  }

  /** `Math.floor(Math.random() * grayShades.length)`. */
  function PaletteIndex(r: real): (i: int)
    requires IsRandom(r)
    ensures 0 <= i < |GrayShades|
  {
    (r * (|GrayShades| as real)).Floor
  }

  /** Tumbling rotation in degrees: `(Math.random() - 0.5) * 720`. */
  function Rotation(r: real): (deg: real)
    requires IsRandom(r)
    ensures -360.0 <= deg < 360.0
  {
    (r - 0.5) * 720.0
  }

  /** Sideways drift in vw: `(Math.random() - 0.5) * 10`. */
  function HorizontalDrift(r: real): (d: real)
    requires IsRandom(r)
    ensures -5.0 <= d < 5.0
  {
    (r - 0.5) * 10.0
  }

  /** Fall time in ms: `Math.random() * 1000 + 2000`. */
  function FallDuration(r: real): (ms: real)
    requires IsRandom(r)
    ensures 2000.0 <= ms < 3000.0
  {
    r * 1000.0 + 2000.0
  }

  function DigitChar(d: nat): (c: char)
    requires d < 10
    ensures '0' <= c <= '9'
  {
    ('0' as int + d) as char
  }

  /** How a template literal renders a non-negative integer. */
  function DecimalString(n: nat): (s: string)
    ensures 1 <= |s|
    ensures forall i :: 0 <= i < |s| ==> '0' <= s[i] <= '9'
    ensures n < 10 <==> |s| == 1
    decreases n
  {
    if n < 10 then [DigitChar(n)] else DecimalString(n / 10) + [DigitChar(n % 10)]
  }

  lemma {:induction false} DecimalStringInjective(m: nat, n: nat)
    requires DecimalString(m) == DecimalString(n)
    ensures m == n
    decreases n
  {
    if m >= 10 && n >= 10 {
      var sm, sn := DecimalString(m), DecimalString(n);
      assert sm[..|sm| - 1] == DecimalString(m / 10);
      assert sn[..|sn| - 1] == DecimalString(n / 10);
      DecimalStringInjective(m / 10, n / 10);
      assert DigitChar(m % 10) == sm[|sm| - 1] == sn[|sn| - 1] == DigitChar(n % 10);
    }
  }

  /** The tile key `${row}-${col}`: digits with a single dash, right after the row's digits. */
  function BlockId(row: nat, col: nat): (id: string)
    ensures |DecimalString(row)| < |id| - 1
    ensures forall j :: 0 <= j < |id| ==> (id[j] == '-' <==> j == |DecimalString(row)|)
  {
    DecimalString(row) + "-" + DecimalString(col)
  }

  /** Distinct cells get distinct keys, for any grid size. */
  lemma BlockIdInjective(r1: nat, c1: nat, r2: nat, c2: nat)
    requires BlockId(r1, c1) == BlockId(r2, c2)
    ensures r1 == r2 && c1 == c2
  {
    var a, b := DecimalString(r1), DecimalString(r2);
    var id := BlockId(r1, c1);
    assert id[|a|] == '-' && id[|b|] == '-';
    assert a == id[..|a|] == b;
    DecimalStringInjective(r1, r2);
    assert DecimalString(c1) == id[|a| + 1..] == DecimalString(c2);
    DecimalStringInjective(c1, c2);
  }

  /** One tile, as the body of the generator's inner loop builds it from four draws. */
  function MakeBlock(row: nat, col: nat, draws: seq<real>): (b: Block)
    requires |draws| == DrawsPerBlock && IsRandomSource(draws)
    ensures b.row == row && b.x == col * TileSize && b.y == row * TileSize
    ensures b.w == TileSize && b.h == TileSize
    ensures b.id == BlockId(row, col)
    ensures b.color in GrayShades
    ensures b.staggerDelay == row * RowStagger
    ensures b.targetY == FallTargetY && b.targetX == b.x as real + b.horizontalDrift
    ensures -360.0 <= b.rotation < 360.0 && -5.0 <= b.horizontalDrift < 5.0
    ensures 2000.0 <= b.fallDuration < 3000.0
  {
    var x := col * TileSize;
    var y := row * TileSize;
    var drift := HorizontalDrift(draws[2]);
    Block(BlockId(row, col), x, y, TileSize, TileSize, GrayShades[PaletteIndex(draws[0])],
          Rotation(draws[1]), row * RowStagger, x as real + drift, FallTargetY,
          FallDuration(draws[3]), drift, row)
  }

  /** The draws the k-th generated tile consumes. */
  function DrawsFor(random: seq<real>, k: nat): (draws: seq<real>)
    requires DrawsPerBlock * (k + 1) <= |random| && IsRandomSource(random)
    ensures |draws| == DrawsPerBlock && IsRandomSource(draws)
  {
    random[DrawsPerBlock * k .. DrawsPerBlock * k + DrawsPerBlock]
  }

  predicate Enough(random: seq<real>) {
    BlockCount * DrawsPerBlock <= |random| && IsRandomSource(random)
  }

  /** The tiles in row-major order: the k-th is in row k / 10 and column k % 10. */
  function Grid(random: seq<real>): (blocks: seq<Block>)
    requires Enough(random)
    ensures |blocks| == BlockCount
  {
    seq(BlockCount, k requires 0 <= k < BlockCount =>
      MakeBlock(k / GridSize, k % GridSize, DrawsFor(random, k)))
  }

  lemma CellIndex(row: nat, col: nat)
    requires col < GridSize
    ensures (row * GridSize + col) / GridSize == row
    ensures (row * GridSize + col) % GridSize == col
  {
  }

  predicate SortedByRow(s: seq<Block>) {
    forall i, j :: 0 <= i < j < |s| ==> s[i].row <= s[j].row
  }

  /**
   * `sort((a, b) => a.row - b.row)`: `Array.prototype.sort` is stable, so the result
   * is the one this stable insertion sort gives. `InsertByRow` puts `b` after every
   * element whose row is not greater than its own.
   */
  function InsertByRow(sorted: seq<Block>, b: Block): (r: seq<Block>)
    requires SortedByRow(sorted)
    ensures |r| == |sorted| + 1 && multiset(r) == multiset(sorted) + multiset{b}
    ensures forall i :: 0 <= i < |r| ==> r[i] == b || r[i] in sorted
    ensures SortedByRow(r)
    decreases |sorted|
  {
    if sorted == [] || sorted[|sorted| - 1].row <= b.row then
      sorted + [b]
    else
      var front, last := sorted[..|sorted| - 1], sorted[|sorted| - 1];
      var rest := InsertByRow(front, b);
      assert sorted == front + [last];
      AppendLastRow(front, rest, b, last);
      rest + [last]
  }

  /** Appending a tile whose row bounds everything before it keeps the order. */
  lemma AppendLastRow(front: seq<Block>, rest: seq<Block>, b: Block, last: Block)
    requires SortedByRow(front + [last]) && SortedByRow(rest) && b.row < last.row
    requires forall i :: 0 <= i < |rest| ==> rest[i] == b || rest[i] in front
    ensures SortedByRow(rest + [last])
  {
    var s := front + [last];
    forall x | x in front ensures x.row <= last.row {
      var k :| 0 <= k < |front| && front[k] == x;
      assert s[k] == x && s[|s| - 1] == last;
    }
    var r := rest + [last];
    forall i, j | 0 <= i < j < |r| ensures r[i].row <= r[j].row {
      if j == |r| - 1 {
        assert r[i] == rest[i];
      } else {
        assert r[i] == rest[i] && r[j] == rest[j];
      }
    }
  }

  function SortByRow(s: seq<Block>): (r: seq<Block>)
    ensures |r| == |s| && multiset(r) == multiset(s)
    ensures SortedByRow(r)
    decreases |s|
  {
    if s == [] then [] else
      assert s == s[..|s| - 1] + [s[|s| - 1]];
      InsertByRow(SortByRow(s[..|s| - 1]), s[|s| - 1])
  }

  /** A sequence already ordered by row comes out of the sort unchanged. */
  lemma {:induction false} SortByRowKeepsSorted(s: seq<Block>)
    requires SortedByRow(s)
    ensures SortByRow(s) == s
    decreases |s|
  {
    if s != [] {
      var front, last := s[..|s| - 1], s[|s| - 1];
      assert SortedByRow(front);
      SortByRowKeepsSorted(front);
      assert SortByRow(s) == InsertByRow(front, last);
      assert front == [] || front[|front| - 1].row <= last.row;
      assert s == front + [last];
    }
  }

  lemma RowOfIndexMonotone(i: nat, j: nat)
    requires i <= j
    ensures i / GridSize <= j / GridSize
  {
  }

  /** The nested loops already emit the tiles row by row. */
  lemma GridSortedByRow(random: seq<real>)
    requires Enough(random)
    ensures SortedByRow(Grid(random))
  {
    var g := Grid(random);
    forall i, j | 0 <= i < j < |g| ensures g[i].row <= g[j].row {
      RowOfIndexMonotone(i, j);
    }
  }

  /**
   * The generator: two nested loops push the tiles into `generated`, which is then
   * sorted by row. The result is the row-major grid, ordered by row.
   */
  method GenerateBlocks(random: seq<real>) returns (blocks: seq<Block>)
    requires Enough(random)
    ensures blocks == Grid(random)
    ensures |blocks| == BlockCount && SortedByRow(blocks)
  {
    var generated: seq<Block> := [];
    var next := 0;  // how many draws have been taken from the source
    var row := 0;
    while row < GridSize
      invariant 0 <= row <= GridSize
      invariant |generated| == row * GridSize && next == DrawsPerBlock * |generated|
      invariant forall k :: 0 <= k < |generated| ==> generated[k] == Grid(random)[k]
    {
      var col := 0;
      while col < GridSize
        invariant 0 <= col <= GridSize
        invariant |generated| == row * GridSize + col && next == DrawsPerBlock * |generated|
        invariant forall k :: 0 <= k < |generated| ==> generated[k] == Grid(random)[k]
      {
        CellIndex(row, col);
        var block := MakeBlock(row, col, random[next .. next + DrawsPerBlock]);
        assert block == Grid(random)[|generated|];
        generated := generated + [block];
        next := next + DrawsPerBlock;
        col := col + 1;
      }
      row := row + 1;
    }
    assert generated == Grid(random);
    GridSortedByRow(random);
    SortByRowKeepsSorted(generated);
    blocks := SortByRow(generated);
  }

  /** Every (row, col) of the 10×10 grid has its tile, and no two tiles share a cell. */
  lemma GridCoversEachCellOnce(random: seq<real>)
    requires Enough(random)
    ensures forall row: nat, col: nat :: row < GridSize && col < GridSize ==>
      var b := Grid(random)[row * GridSize + col]; b.row == row && b.x == col * TileSize
    ensures forall i, j :: 0 <= i < j < BlockCount ==>
      (Grid(random)[i].row, Grid(random)[i].x) != (Grid(random)[j].row, Grid(random)[j].x)
  {
    var g := Grid(random);
    forall row: nat, col: nat | row < GridSize && col < GridSize
      ensures g[row * GridSize + col].row == row && g[row * GridSize + col].x == col * TileSize
    {
      CellIndex(row, col);
    }
    forall i, j | 0 <= i < j < BlockCount ensures (g[i].row, g[i].x) != (g[j].row, g[j].x) {
      GridCell(random, i);
      GridCell(random, j);
      DistinctCells(i, j);
    }
  }

  /** The k-th tile sits in row k / 10 and column k % 10. */
  lemma GridCell(random: seq<real>, k: nat)
    requires Enough(random) && k < BlockCount
    ensures Grid(random)[k].row == k / GridSize && Grid(random)[k].x == (k % GridSize) * TileSize
  {
  }

  /** Two different indexes of the grid name different cells. */
  lemma DistinctCells(i: nat, j: nat)
    requires i < j
    ensures i / GridSize != j / GridSize || i % GridSize != j % GridSize
  {
    assert i == (i / GridSize) * GridSize + i % GridSize;
    assert j == (j / GridSize) * GridSize + j % GridSize;
  }

  /** The tile keys are pairwise distinct. */
  lemma GridIdsDistinct(random: seq<real>)
    requires Enough(random)
    ensures forall i, j :: 0 <= i < j < BlockCount ==> Grid(random)[i].id != Grid(random)[j].id
  {
    var g := Grid(random);
    forall i, j | 0 <= i < j < BlockCount ensures g[i].id != g[j].id {
      assert i == (i / GridSize) * GridSize + i % GridSize;
      assert j == (j / GridSize) * GridSize + j % GridSize;
      if g[i].id == g[j].id {
        BlockIdInjective(i / GridSize, i % GridSize, j / GridSize, j % GridSize);
      }
    }
  }

  /** Tile `b` covers the integer point (px, py) of the [0, 100)² viewport, in percent. */
  predicate Covers(b: Block, px: int, py: int) {
    b.x <= px < b.x + b.w && b.y <= py < b.y + b.h
  }

  /** On the integer grid of the viewport: each integer point lies in exactly one tile. */
  lemma GridTilesViewport(random: seq<real>, px: int, py: int)
    requires Enough(random)
    requires 0 <= px < 100 && 0 <= py < 100
    ensures var k := (py / TileSize) * GridSize + px / TileSize;
      0 <= k < BlockCount && Covers(Grid(random)[k], px, py)
    ensures forall i, j :: 0 <= i < j < BlockCount ==>
      !(Covers(Grid(random)[i], px, py) && Covers(Grid(random)[j], px, py))
  {
    var g := Grid(random);
    var k := (py / TileSize) * GridSize + px / TileSize;
    CellIndex(py / TileSize, px / TileSize);
    assert g[k].x == (px / TileSize) * TileSize;
    forall i | 0 <= i < BlockCount && Covers(g[i], px, py) ensures i == k {
      assert i == (i / GridSize) * GridSize + i % GridSize;
      assert px / TileSize == i % GridSize;
      assert py / TileSize == i / GridSize;
    }
  }

  /** Tile `b`, as a CSS box in percent, covers the point (px, py) of the viewport. */
  predicate CoversReal(b: Block, px: real, py: real) {
    b.x as real <= px < (b.x + b.w) as real && b.y as real <= py < (b.y + b.h) as real
  }

  /**
   * The tiles cover the continuous viewport [0, 100)² without overlapping:
   * every point lies in exactly one tile, the one of the cell its floor falls in.
   */
  lemma GridTilesViewportReal(random: seq<real>, px: real, py: real)
    requires Enough(random)
    requires 0.0 <= px < 100.0 && 0.0 <= py < 100.0
    ensures var k := (py.Floor / TileSize) * GridSize + px.Floor / TileSize;
      0 <= k < BlockCount && CoversReal(Grid(random)[k], px, py)
    ensures forall i, j :: 0 <= i < j < BlockCount ==>
      !(CoversReal(Grid(random)[i], px, py) && CoversReal(Grid(random)[j], px, py))
  {
    GridTilesViewport(random, px.Floor, py.Floor);
    forall i | 0 <= i < BlockCount && CoversReal(Grid(random)[i], px, py)
      ensures Covers(Grid(random)[i], px.Floor, py.Floor)
    {
    }
  }

  /** Row stagger is 50 ms per row, so it never exceeds 450 ms. */
  lemma GridStaggerBounded(random: seq<real>)
    requires Enough(random)
    ensures forall k :: 0 <= k < BlockCount ==>
      Grid(random)[k].staggerDelay == Grid(random)[k].row * RowStagger &&
      0 <= Grid(random)[k].staggerDelay <= 450
  {
    var g := Grid(random);
    forall k | 0 <= k < BlockCount ensures 0 <= g[k].staggerDelay <= 450 {
      assert g[k].row <= 9;
    }
  }

  // ---- The timeline of the greeting text and the fall (ms since mount) ----

  const HelloFadeAt: int := 3000
  const HelloRemoveAt: int := 3500
  const FallStartAt: int := 3500
  const GlitchTimes: seq<int> := [500, 1000, 1500, 2000]
  const GlitchLength: int := 100

  /** A timer callback that calls a boolean state setter: it fires at `at` and stores `value`. */
  datatype SetterCall = SetterCall(at: int, value: bool)

  /**
   * A state flag at time `t`, given the setter calls in firing order: the value
   * stored by the last call that has fired by `t`, or `init` when none has.
   */
  function FlagAt(calls: seq<SetterCall>, t: int, init: bool): bool
    decreases |calls|
  {
    if calls == [] then init
    else FlagAt(calls[1..], t, if calls[0].at <= t then calls[0].value else init)
  }

  /** A list of calls is in firing order when their times strictly increase. */
  predicate InFiringOrder(calls: seq<SetterCall>) {
    forall i, j :: 0 <= i < j < |calls| ==> calls[i].at < calls[j].at
  }

  /**
   * One timer per start time: it sets the flag, and schedules a second timer
   * that clears it `len` ms later.
   */
  function PulseCalls(starts: seq<int>, len: int): (r: seq<SetterCall>)
    ensures |r| == 2 * |starts|
    decreases |starts|
  {
    if starts == [] then []
    else [SetterCall(starts[0], true), SetterCall(starts[0] + len, false)] + PulseCalls(starts[1..], len)
  }

  /** `t` lies in one of the windows [start, start + len). */
  predicate InPulse(starts: seq<int>, len: int, t: int) {
    exists i :: 0 <= i < |starts| && starts[i] <= t < starts[i] + len
  }

  /**
   * Each pulse has a positive length and ends strictly before the next one
   * starts, so no two calls are due at the same moment.
   */
  predicate Spaced(starts: seq<int>, len: int) {
    0 < len && forall i :: 0 <= i < |starts| - 1 ==> starts[i] + len < starts[i + 1]
  }

  lemma InPulseCons(starts: seq<int>, len: int, t: int)
    requires starts != []
    ensures InPulse(starts, len, t) <==>
      (starts[0] <= t < starts[0] + len) || InPulse(starts[1..], len, t)
  {
    if InPulse(starts[1..], len, t) {
      var i :| 0 <= i < |starts[1..]| && starts[1..][i] <= t < starts[1..][i] + len;
      assert starts[i + 1] == starts[1..][i];
    }
    if InPulse(starts, len, t) && !(starts[0] <= t < starts[0] + len) {
      var i :| 0 <= i < |starts| && starts[i] <= t < starts[i] + len;
      assert 0 < i && starts[1..][i - 1] == starts[i];
    }
  }

  /**
   * Replaying the pulse timers: before the first start nothing has fired, and
   * from then on the flag is up exactly inside a window, so no clearing call
   * ever cuts a later pulse short.
   */
  lemma {:induction false} PulseFlag(starts: seq<int>, len: int, t: int, init: bool)
    requires Spaced(starts, len)
    ensures starts == [] || t < starts[0] ==>
      !InPulse(starts, len, t) && FlagAt(PulseCalls(starts, len), t, init) == init
    ensures starts != [] && starts[0] <= t ==>
      FlagAt(PulseCalls(starts, len), t, init) == InPulse(starts, len, t)
    decreases |starts|
  {
    if starts != [] {
      var rest := starts[1..];
      var calls := PulseCalls(starts, len);
      assert calls[0] == SetterCall(starts[0], true);
      assert calls[1..][0] == SetterCall(starts[0] + len, false);
      assert calls[1..][1..] == PulseCalls(rest, len);
      var after := if starts[0] + len <= t then false else if starts[0] <= t then true else init;
      assert FlagAt(calls, t, init) == FlagAt(PulseCalls(rest, len), t, after);
      assert Spaced(rest, len) by {
        forall i | 0 <= i < |rest| - 1 ensures rest[i] + len < rest[i + 1] {
          assert rest[i] == starts[i + 1] && rest[i + 1] == starts[i + 2];
        }
      }
      PulseFlag(rest, len, t, after);
      InPulseCons(starts, len, t);
    }
  }

  /** The pulse timers fire in list order when the pulses are spaced. */
  lemma {:induction false} PulseCallsInFiringOrder(starts: seq<int>, len: int)
    requires Spaced(starts, len)
    ensures InFiringOrder(PulseCalls(starts, len))
    ensures starts != [] ==> forall k :: 0 <= k < |PulseCalls(starts, len)| ==>
      starts[0] <= PulseCalls(starts, len)[k].at
    decreases |starts|
  {
    if starts != [] {
      var rest := starts[1..];
      var calls := PulseCalls(starts, len);
      var tail := PulseCalls(rest, len);
      assert calls == [calls[0], calls[1]] + tail;
      assert Spaced(rest, len) by {
        forall i | 0 <= i < |rest| - 1 ensures rest[i] + len < rest[i + 1] {
          assert rest[i] == starts[i + 1] && rest[i + 1] == starts[i + 2];
        }
      }
      PulseCallsInFiringOrder(rest, len);
      forall k | 0 <= k < |tail| ensures starts[0] + len < tail[k].at {
        assert rest[0] <= tail[k].at;
      }
      forall i, j | 0 <= i < j < |calls| ensures calls[i].at < calls[j].at {
        if 2 <= i {
          assert calls[i] == tail[i - 2] && calls[j] == tail[j - 2];
        } else if 2 <= j {
          assert calls[j] == tail[j - 2];
        }
      }
    }
  }

  /** A flag with a single setter call holds its initial value until that call fires. */
  lemma OneShot(call: SetterCall, t: int, init: bool)
    ensures FlagAt([call], t, init) == if call.at <= t then call.value else init
  {
    assert [call][1..] == [];
  }

  /** `hideHello`: false until the 3000 ms timer sets it. */
  predicate HideHello(t: int)
    ensures HideHello(t) <==> HelloFadeAt <= t
  {
    OneShot(SetterCall(HelloFadeAt, true), t, false);
    FlagAt([SetterCall(HelloFadeAt, true)], t, false)
  }

  /** `showHello`: true until the 3500 ms timer clears it. */
  predicate ShowHello(t: int)
    ensures ShowHello(t) <==> t < HelloRemoveAt
  {
    OneShot(SetterCall(HelloRemoveAt, false), t, true);
    FlagAt([SetterCall(HelloRemoveAt, false)], t, true)
  }

  /** `hideBlocks`: false until the 3500 ms timer sets it, which starts the fall. */
  predicate HideBlocks(t: int)
    ensures HideBlocks(t) <==> FallStartAt <= t
  {
    OneShot(SetterCall(FallStartAt, true), t, false);
    FlagAt([SetterCall(FallStartAt, true)], t, false)
  }

  /** The setter calls of the glitch effect: a set and a clear for each glitch time. */
  const GlitchCalls: seq<SetterCall> := PulseCalls(GlitchTimes, GlitchLength)

  lemma GlitchTimesSpaced()
    ensures Spaced(GlitchTimes, GlitchLength)
  {
  }

  /** The glitch timers' calls are listed in the order they fire. */
  lemma GlitchCallsInFiringOrder()
    ensures InFiringOrder(GlitchCalls)
  {
    GlitchTimesSpaced();
    PulseCallsInFiringOrder(GlitchTimes, GlitchLength);
  }

  /** `isGlitching`, replayed from the glitch timers: up exactly inside a 100 ms window after a glitch time. */
  predicate IsGlitching(t: int)
    ensures IsGlitching(t) <==> InPulse(GlitchTimes, GlitchLength, t)
  {
    GlitchTimesSpaced();
    PulseFlag(GlitchTimes, GlitchLength, t, false);
    FlagAt(GlitchCalls, t, false)
  }

  /** Each timer-driven flag changes once and is never reverted. */
  lemma FlagsChangeOnce(t1: int, t2: int)
    requires t1 <= t2
    ensures HideHello(t1) ==> HideHello(t2)
    ensures !ShowHello(t1) ==> !ShowHello(t2)
    ensures HideBlocks(t1) ==> HideBlocks(t2)
    ensures HideHello(t2) && !HideHello(t1) <==> t1 < HelloFadeAt <= t2
  {
  }

  /** The greeting starts fading before it is removed, and the fall starts as it disappears. */
  lemma GreetingBeforeFall(t: int)
    ensures !ShowHello(t) ==> HideHello(t)
    ensures HideBlocks(t) <==> !ShowHello(t)
  {
  }

  /** Glitching is on exactly in [500,600), [1000,1100), [1500,1600), [2000,2100). */
  lemma GlitchWindows(t: int)
    ensures IsGlitching(t) <==>
      (500 <= t < 600) || (1000 <= t < 1100) || (1500 <= t < 1600) || (2000 <= t < 2100)
  {
    if (500 <= t < 600) { assert GlitchTimes[0] <= t < GlitchTimes[0] + GlitchLength; }
    if (1000 <= t < 1100) { assert GlitchTimes[1] <= t < GlitchTimes[1] + GlitchLength; }
    if (1500 <= t < 1600) { assert GlitchTimes[2] <= t < GlitchTimes[2] + GlitchLength; }
    if (2000 <= t < 2100) { assert GlitchTimes[3] <= t < GlitchTimes[3] + GlitchLength; }
  }

  /** Every glitch pulse is over before the greeting starts to fade. */
  lemma GlitchEndsBeforeFade(t: int)
    requires IsGlitching(t)
    ensures t < HelloFadeAt && !HideHello(t) && ShowHello(t)
  {
    GlitchWindows(t);
  }

  /** The latest moment a tile is still falling: fall start, its stagger, its duration. */
  function LandingTime(b: Block): real {
    FallStartAt as real + b.staggerDelay as real + b.fallDuration
  }

  /** Every tile has landed strictly before 3500 + 450 + 3000 = 6950 ms. */
  lemma GridLandsBy(random: seq<real>)
    requires Enough(random)
    ensures forall k :: 0 <= k < BlockCount ==> LandingTime(Grid(random)[k]) < 6950.0
  {
    GridStaggerBounded(random);
  }
}
