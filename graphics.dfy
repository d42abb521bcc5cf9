/** The mode 13h graphics driver of kernel/graphics.c: a 320x200 back
    buffer of one colour byte per pixel, row by row, the drawing
    primitives over it, and the mouse pointer that saves and restores the
    pixels under it. */
module Graphics {
  import opened Word

  const VGA_WIDTH: nat := 320
  const VGA_HEIGHT: nat := 200
  /** The cells of back_buffer. */
  const PIXELS: nat := VGA_WIDTH * VGA_HEIGHT

  const COLOR_BLACK: byte := 0
  const COLOR_WHITE: byte := 15

  /** The row and the column of cell k. */
  function Row(k: nat): nat {
    k / VGA_WIDTH
  }

  function Col(k: nat): nat {
    k % VGA_WIDTH
  }

  predicate InScreen(x: int, y: int) {
    0 <= x < VGA_WIDTH && 0 <= y < VGA_HEIGHT
  }

  /** Pixel (x, y) is cell y * 320 + x. */
  lemma Cell(x: int, y: int)
    requires InScreen(x, y)
    ensures 0 <= y * VGA_WIDTH + x < PIXELS
    ensures Row(y * VGA_WIDTH + x) == y && Col(y * VGA_WIDTH + x) == x
  {
  }

  /** Every cell is the pixel at its row and column. */
  lemma CellOf(k: nat)
    requires k < PIXELS
    ensures InScreen(Col(k), Row(k)) && k == Row(k) * VGA_WIDTH + Col(k)
  {
  }

  /** The buffer after put_pixel. */
  function Plotted(s: seq<byte>, x: int, y: int, color: byte): (r: seq<byte>)
    requires |s| == PIXELS
    ensures |r| == PIXELS
  {
    if InScreen(x, y) then s[y * VGA_WIDTH + x := color] else s
  }

  /** put_pixel sets the one cell at (x, y), if the screen has one, and
      no other. */
  lemma PlottedCells(s: seq<byte>, x: int, y: int, color: byte)
    requires |s| == PIXELS
    ensures forall k :: 0 <= k < PIXELS ==>
      Plotted(s, x, y, color)[k] == if Col(k) == x && Row(k) == y then color else s[k]
  {
    forall k | 0 <= k < PIXELS
      ensures Plotted(s, x, y, color)[k] == if Col(k) == x && Row(k) == y then color else s[k]
    {
      CellOf(k);
      if InScreen(x, y) {
        Cell(x, y);
      }
    }
  }

  /** Cell k lies in the rectangle of width w and height h at (x, y). */
  predicate InRect(k: nat, x: int, y: int, w: int, h: int) {
    x <= Col(k) < x + w && y <= Row(k) < y + h
  }

  /** The buffer after graphics_scroll_up(p, clear): for p > 0 every
      pixel takes the colour of the one p rows below it, and the pixels
      with no such row below take the clear colour; p <= 0 changes
      nothing. */
  function Scrolled(s: seq<byte>, p: int, clear: byte): (r: seq<byte>)
    requires |s| == PIXELS
    ensures |r| == PIXELS
    ensures p <= 0 ==> r == s
    ensures p > 0 ==> forall k :: 0 <= k < PIXELS ==>
      r[k] == if k + p * VGA_WIDTH < PIXELS then s[k + p * VGA_WIDTH] else clear
  {
    if p <= 0 then s
    else if p >= VGA_HEIGHT then seq(PIXELS, _ => clear)
    else s[p * VGA_WIDTH..] + seq(p * VGA_WIDTH, _ => clear)
  }

  /** Scrolling by a and then by b is scrolling by a + b. */
  lemma ScrollTwice(s: seq<byte>, a: int, b: int, clear: byte)
    requires |s| == PIXELS && 0 < a && 0 < b
    ensures Scrolled(Scrolled(s, a, clear), b, clear) == Scrolled(s, a + b, clear)
  {
    var t := Scrolled(s, a, clear);
    var u := Scrolled(t, b, clear);
    var v := Scrolled(s, a + b, clear);
    forall k | 0 <= k < PIXELS
      ensures u[k] == v[k]
    {
      if k + b * VGA_WIDTH < PIXELS {
        assert u[k] == t[k + b * VGA_WIDTH];
      }
    }
  }

  /** A scroll by the whole height or more clears the screen. */
  lemma ScrollClears(s: seq<byte>, p: int, clear: byte)
    requires |s| == PIXELS && VGA_HEIGHT <= p
    ensures forall k :: 0 <= k < |s| ==> Scrolled(s, p, clear)[k] == clear
  {
  }

  /** The buffer after put_pixel at each point of pts in turn. */
  function PlotAll(s: seq<byte>, pts: seq<(int, int)>, color: byte): (r: seq<byte>)
    requires |s| == PIXELS
    ensures |r| == PIXELS
  {
    if pts == [] then s
    else
      var p := pts[|pts| - 1];
      Plotted(PlotAll(s, pts[..|pts| - 1], color), p.0, p.1, color)
  }

  /** Plotting one more point plots it over the run so far. */
  lemma PlotAllSnoc(s: seq<byte>, pts: seq<(int, int)>, p: (int, int), color: byte)
    requires |s| == PIXELS
    ensures PlotAll(s, pts + [p], color) == Plotted(PlotAll(s, pts, color), p.0, p.1, color)
  {
    assert (pts + [p])[..|pts|] == pts;
  }

  /** Plotting a run of points sets exactly the cells at those points. */
  lemma {:induction false} PlotAllCells(s: seq<byte>, pts: seq<(int, int)>, color: byte)
    requires |s| == PIXELS
    ensures forall k :: 0 <= k < PIXELS ==>
      PlotAll(s, pts, color)[k] == if (Col(k), Row(k)) in pts then color else s[k]
  {
    if pts != [] {
      var init := pts[..|pts| - 1];
      var p := pts[|pts| - 1];
      PlotAllCells(s, init, color);
      PlottedCells(PlotAll(s, init, color), p.0, p.1, color);
      assert pts == init + [p];
    }
  }

  function Abs(v: int): (r: nat)
    ensures r == v || r == -v
  {
    if v < 0 then -v else v
  }

  /** The direction draw_line steps in along an axis, from a towards b. */
  function Dir(a: int, b: int): (r: int)
    ensures r == 1 || r == -1
    ensures a < b ==> r == 1
  {
    if a < b then 1 else -1
  }

  /** v lies between a and b, either way round. */
  predicate Between(a: int, v: int, b: int) {
    (a <= v <= b) || (b <= v <= a)
  }

  /** One step of a line from (x1, y1) towards (x2, y2): each coordinate
      stays or moves by one towards its end, and at least one moves. */
  predicate Step(p: (int, int), q: (int, int), x1: int, y1: int, x2: int, y2: int) {
    && (q.0 == p.0 || q.0 == p.0 + Dir(x1, x2))
    && (q.1 == p.1 || q.1 == p.1 + Dir(y1, y2))
    && p != q
  }

  /** The points plotted so far by draw_line from (x1, y1) towards
      (x2, y2), with (x, y) the next one: a chain of steps from (x1, y1)
      within the rectangle the ends span that has not met (x2, y2). */
  ghost predicate Drawn(path: seq<(int, int)>, x: int, y: int, x1: int, y1: int, x2: int, y2: int) {
    && (path == [] ==> (x, y) == (x1, y1))
    && (path != [] ==> path[0] == (x1, y1) && Step(path[|path| - 1], (x, y), x1, y1, x2, y2))
    && (forall i :: 0 <= i < |path| - 1 ==> Step(path[i], path[i + 1], x1, y1, x2, y2))
    && (forall i :: 0 <= i < |path| ==> path[i] != (x2, y2))
    && (forall i :: 0 <= i < |path| ==> Between(x1, path[i].0, x2) && Between(y1, path[i].1, y2))
  }

  /** Plotting (x, y) and stepping on to (nx, ny) extends the chain. */
  lemma Extend(path: seq<(int, int)>, x: int, y: int, nx: int, ny: int, x1: int, y1: int, x2: int, y2: int)
    requires Drawn(path, x, y, x1, y1, x2, y2)
    requires (x, y) != (x2, y2) && Between(x1, x, x2) && Between(y1, y, y2)
    requires Step((x, y), (nx, ny), x1, y1, x2, y2)
    ensures Drawn(path + [(x, y)], nx, ny, x1, y1, x2, y2)
  {
    var path' := path + [(x, y)];
    forall i | 0 <= i < |path'| - 1
      ensures Step(path'[i], path'[i + 1], x1, y1, x2, y2)
    {
      if i < |path| - 1 {
        assert path'[i] == path[i] && path'[i + 1] == path[i + 1];
      }
    }
  }

  /** The state of draw_line after mx steps along x and my along y from
      (x1, y1): the position, and the error term, which measures how far
      the position is off the ideal line. */
  ghost predicate Pace(x1: int, y1: int, x2: int, y2: int, x: int, y: int, err: int, mx: int, my: int) {
    var dx: int := Abs(x2 - x1);
    var dy: int := Abs(y2 - y1);
    && 0 <= mx <= dx && 0 <= my <= dy
    && x == (if x1 < x2 then x1 + mx else x1 - mx)
    && y == (if y1 < y2 then y1 + my else y1 - my)
    && err == dx - dy - mx * dy + my * dx
  }

  /** Short of the end, draw_line's next step moves along at least one
      axis and along neither past its end, so the state stays a Pace and
      the new position is one Step on. */
  lemma Advance(x1: int, y1: int, x2: int, y2: int, x: int, y: int, err: int, mx: int, my: int,
                 nx: int, ny: int, nerr: int, nmx: int, nmy: int)
    requires Pace(x1, y1, x2, y2, x, y, err, mx, my) && (x, y) != (x2, y2)
    requires
      var across := 2 * err > -(Abs(y2 - y1) as int);
      var down := 2 * err < Abs(x2 - x1);
      && nx == (if across then x + Dir(x1, x2) else x)
      && ny == (if down then y + Dir(y1, y2) else y)
      && nerr == err - (if across then Abs(y2 - y1) else 0) + (if down then Abs(x2 - x1) else 0)
      && nmx == mx + (if across then 1 else 0)
      && nmy == my + (if down then 1 else 0)
    ensures Pace(x1, y1, x2, y2, nx, ny, nerr, nmx, nmy)
    ensures Step((x, y), (nx, ny), x1, y1, x2, y2)
    ensures Between(x1, x, x2) && Between(y1, y, y2)
    ensures nmx + nmy > mx + my
  {
    var dx: int := Abs(x2 - x1);
    var dy: int := Abs(y2 - y1);
    if mx == dx {
      Below(dx, my, dy);
    }
    if my == dy {
      Below(dy, mx, dx);
    }
    MulSucc(mx, dy);
    MulSucc(my, dx);
  }

  /** The longer side of the rectangle a segment spans. */
  function Longer(x1: int, y1: int, x2: int, y2: int): (r: nat)
    ensures r >= Abs(x2 - x1) && r >= Abs(y2 - y1)
    ensures r == Abs(x2 - x1) || r == Abs(y2 - y1)
  {
    if Abs(x2 - x1) < Abs(y2 - y1) then Abs(y2 - y1) else Abs(x2 - x1)
  }

  /** p lies within half a pixel of the ideal segment from (x1, y1) to
      (x2, y2): the cross product of p - (x1, y1) with the segment, which
      is p's distance from the line times the segment's length, is at
      most half the longer side, and that length is at least the longer
      side. */
  predicate NearLine(p: (int, int), x1: int, y1: int, x2: int, y2: int) {
    2 * Abs((p.1 - y1) * (x2 - x1) - (p.0 - x1) * (y2 - y1)) <= Longer(x1, y1, x2, y2)
  }

  /** draw_line's error term stays within half the longer side of its
      start value dx - dy. */
  predicate Hug(x1: int, y1: int, x2: int, y2: int, err: int) {
    2 * Abs(err - (Abs(x2 - x1) - Abs(y2 - y1))) <= Longer(x1, y1, x2, y2)
  }

  /** The decisions of draw_line's step keep the error term hugging its
      start value. */
  lemma AdvanceHug(x1: int, y1: int, x2: int, y2: int, err: int, nerr: int)
    requires Hug(x1, y1, x2, y2, err)
    requires
      var across := 2 * err > -(Abs(y2 - y1) as int);
      var down := 2 * err < Abs(x2 - x1);
      nerr == err - (if across then Abs(y2 - y1) else 0) + (if down then Abs(x2 - x1) else 0)
    ensures Hug(x1, y1, x2, y2, nerr)
  {
  }

  /** A position whose error term hugs its start value is near the line:
      up to sign, its cross product is my * dx - mx * dy, the error
      term's distance from dx - dy. */
  lemma HugNear(x1: int, y1: int, x2: int, y2: int, x: int, y: int, err: int, mx: int, my: int)
    requires Pace(x1, y1, x2, y2, x, y, err, mx, my) && Hug(x1, y1, x2, y2, err)
    ensures NearLine((x, y), x1, y1, x2, y2)
  {
    CrossOfSteps(x1, y1, x2, y2, mx, my);
  }

  /** The cross product of the position mx steps along x and my along y
      from (x1, y1) with the segment is my * dx - mx * dy, up to sign. */
  lemma CrossOfSteps(x1: int, y1: int, x2: int, y2: int, mx: int, my: int)
    ensures
      var x := if x1 < x2 then x1 + mx else x1 - mx;
      var y := if y1 < y2 then y1 + my else y1 - my;
      var d := my * Abs(x2 - x1) - mx * Abs(y2 - y1);
      var cross := (y - y1) * (x2 - x1) - (x - x1) * (y2 - y1);
      cross == d || cross == -d
  {
    var dx: int, dy: int := Abs(x2 - x1), Abs(y2 - y1);
    if x1 < x2 && y1 >= y2 {
      Flip(mx, dy);
    } else if x1 >= x2 && y1 < y2 {
      Flip(my, dx);
    } else if x1 >= x2 && y1 >= y2 {
      Flip(my, dx);
      Flip(mx, dy);
    }
  }

  /** Negating either factor negates the product. */
  lemma Flip(a: int, b: int)
    ensures a * -b == -(a * b) && -a * b == -(a * b) && -a * -b == a * b
  {
  }

  /** The state of draw_line's loop: the points plotted so far, the next
      position (x, y) and its error term, after mx and my steps. */
  ghost predicate Traced(path: seq<(int, int)>, x: int, y: int, err: int, mx: int, my: int,
                         x1: int, y1: int, x2: int, y2: int) {
    && Pace(x1, y1, x2, y2, x, y, err, mx, my) && Hug(x1, y1, x2, y2, err)
    && |path| <= mx + my
    && Drawn(path, x, y, x1, y1, x2, y2)
    && forall i :: 0 <= i < |path| ==> NearLine(path[i], x1, y1, x2, y2)
  }

  /** One turn of draw_line's loop short of the end: plotting (x, y) and
      taking the step keeps the loop state, and takes at least one step. */
  lemma Stride(path: seq<(int, int)>, x: int, y: int, err: int, mx: int, my: int,
               nx: int, ny: int, nerr: int, nmx: int, nmy: int,
               x1: int, y1: int, x2: int, y2: int)
    requires Traced(path, x, y, err, mx, my, x1, y1, x2, y2) && (x, y) != (x2, y2)
    requires
      var across := 2 * err > -(Abs(y2 - y1) as int);
      var down := 2 * err < Abs(x2 - x1);
      && nx == (if across then x + Dir(x1, x2) else x)
      && ny == (if down then y + Dir(y1, y2) else y)
      && nerr == err - (if across then Abs(y2 - y1) else 0) + (if down then Abs(x2 - x1) else 0)
      && nmx == mx + (if across then 1 else 0)
      && nmy == my + (if down then 1 else 0)
    ensures Traced(path + [(x, y)], nx, ny, nerr, nmx, nmy, x1, y1, x2, y2)
    ensures nmx + nmy > mx + my
  {
    Advance(x1, y1, x2, y2, x, y, err, mx, my, nx, ny, nerr, nmx, nmy);
    AdvanceHug(x1, y1, x2, y2, err, nerr);
    HugNear(x1, y1, x2, y2, x, y, err, mx, my);
    Extend(path, x, y, nx, ny, x1, y1, x2, y2);
    var path' := path + [(x, y)];
    forall i | 0 <= i < |path'|
      ensures NearLine(path'[i], x1, y1, x2, y2)
    {
      if i < |path| {
        assert path'[i] == path[i];
      }
    }
  }

  /** The last turn of draw_line's loop: plotting the end point completes
      the line. */
  lemma Finish(path: seq<(int, int)>, err: int, mx: int, my: int, x1: int, y1: int, x2: int, y2: int)
    requires Traced(path, x2, y2, err, mx, my, x1, y1, x2, y2)
    ensures var p := path + [(x2, y2)];
      && 0 < |p| <= Abs(x2 - x1) + Abs(y2 - y1) + 1
      && p[0] == (x1, y1) && p[|p| - 1] == (x2, y2)
      && (forall i :: 0 <= i < |p| - 1 ==> p[i] != (x2, y2))
      && (forall i :: 0 <= i < |p| - 1 ==> Step(p[i], p[i + 1], x1, y1, x2, y2))
      && (forall i :: 0 <= i < |p| ==> Between(x1, p[i].0, x2) && Between(y1, p[i].1, y2))
      && (forall i :: 0 <= i < |p| ==> NearLine(p[i], x1, y1, x2, y2))
  {
    HugNear(x1, y1, x2, y2, x2, y2, err, mx, my);
    var p := path + [(x2, y2)];
    forall i | 0 <= i < |p| - 1
      ensures Step(p[i], p[i + 1], x1, y1, x2, y2)
    {
      if i < |path| - 1 {
        assert p[i] == path[i] && p[i + 1] == path[i + 1];
      }
    }
    forall i | 0 <= i < |p|
      ensures Between(x1, p[i].0, x2) && Between(y1, p[i].1, y2) && NearLine(p[i], x1, y1, x2, y2)
    {
      if i < |path| {
        assert p[i] == path[i];
      }
    }
  }

  /** One more step adds d to m * d. */
  lemma MulSucc(m: int, d: int)
    ensures (m + 1) * d == m * d + d
  {
  }

  /** For non-negative a and 0 <= m < d: a + m * a <= a * d. */
  lemma Below(a: int, m: int, d: int)
    requires 0 <= a && 0 <= m < d
    ensures a + m * a <= a * d
  {
    assert a * (m + 1) <= a * d;
  }

  /** Where draw_string's pen stands after the characters of t, from
      (x, y): a newline goes back to x one text row of 10 pixels down,
      any other character moves it 8 pixels right. */
  function Pen(t: seq<char>, x: int, y: int): (int, int) {
    if t == [] then (x, y)
    else
      var p := Pen(t[..|t| - 1], x, y);
      if t[|t| - 1] == '\n' then (x, p.1 + 10) else (p.0 + 8, p.1)
  }

  /** The draw_char calls draw_string makes for t: each character other
      than a newline, at the pen. */
  function Glyphs(t: seq<char>, x: int, y: int): seq<(char, int, int)> {
    if t == [] then []
    else
      var u := t[..|t| - 1];
      var c := t[|t| - 1];
      Glyphs(u, x, y) + if c == '\n' then [] else [(c, Pen(u, x, y).0, Pen(u, x, y).1)]
  }

  /** The pen is one text row lower for each newline. */
  lemma {:induction false} PenRow(t: seq<char>, x: int, y: int)
    ensures Pen(t, x, y).1 == y + 10 * multiset(t)['\n']
  {
    if t != [] {
      PenRow(t[..|t| - 1], x, y);
      assert t == t[..|t| - 1] + [t[|t| - 1]];
    }
  }

  /** Within a line the pen moves 8 pixels per character. */
  lemma {:induction false} PenColumn(t: seq<char>, x: int, y: int)
    requires '\n' !in t
    ensures Pen(t, x, y) == (x + 8 * |t|, y)
  {
    if t != [] {
      assert '\n' !in t[..|t| - 1] by {
        assert forall c :: c in t[..|t| - 1] ==> c in t;
      }
      PenColumn(t[..|t| - 1], x, y);
    }
  }

  /** After a newline the pen starts over at x, whatever came before. */
  lemma {:induction false} PenAfterNewline(t: seq<char>, u: seq<char>, x: int, y: int)
    ensures Pen(t + ['\n'] + u, x, y) == Pen(u, x, Pen(t, x, y).1 + 10)
  {
    if u == [] {
      assert t + ['\n'] + u == t + ['\n'];
      assert (t + ['\n'])[..|t|] == t;
    } else {
      var v := u[..|u| - 1];
      assert (t + ['\n'] + u)[..|t + ['\n'] + u| - 1] == t + ['\n'] + v;
      PenAfterNewline(t, v, x, y);
    }
  }

  /** draw_string draws one glyph for each character but the newlines. */
  lemma {:induction false} GlyphCount(t: seq<char>, x: int, y: int)
    ensures |Glyphs(t, x, y)| == |t| - multiset(t)['\n']
  {
    if t != [] {
      GlyphCount(t[..|t| - 1], x, y);
      assert t == t[..|t| - 1] + [t[|t| - 1]];
    }
  }

  /** graphics_draw_cursor's mouse_pointer, row by row: 1 is drawn white,
      2 black, and 0 leaves the pixel as it is. */
  const ARROW: seq<byte> :=
    [1, 1, 0, 0, 0, 0, 0, 0,
     1, 2, 1, 0, 0, 0, 0, 0,
     1, 2, 2, 1, 0, 0, 0, 0,
     1, 2, 2, 2, 1, 0, 0, 0,
     1, 2, 2, 2, 2, 1, 0, 0,
     1, 2, 2, 1, 1, 0, 0, 0,
     1, 1, 0, 0, 0, 0, 0, 0,
     0, 0, 0, 0, 0, 0, 0, 0]

  /** Cell k lies in the 8x8 box of the pointer at (x, y). */
  predicate InBox(k: nat, x: int, y: int) {
    InRect(k, x, y, 8, 8)
  }

  /** The place of box cell k in cursor_bg and in mouse_pointer. */
  function BoxIndex(k: nat, x: int, y: int): (i: nat)
    requires InBox(k, x, y)
    ensures i < 64
  {
    (Row(k) - y) * 8 + (Col(k) - x)
  }

  /** Place r * 8 + c of the box is row r, column c. */
  lemma BoxPlace(r: int, c: int)
    requires 0 <= r < 8 && 0 <= c < 8
    ensures (r * 8 + c) / 8 == r && (r * 8 + c) % 8 == c
  {
  }

  /** The background graphics_draw_cursor saves at (x, y): the pixels of
      the box that are on the screen, and 0 for the others. */
  function Grab(s: seq<byte>, x: nat, y: nat): (r: seq<byte>)
    requires |s| == PIXELS
    ensures |r| == 64
  {
    seq(64, i requires 0 <= i < 64 =>
      if x + i % 8 < VGA_WIDTH && y + i / 8 < VGA_HEIGHT then s[(y + i / 8) * VGA_WIDTH + x + i % 8] else 0)
  }

  /** The buffer with a saved background put back at (x, y). */
  function Paste(s: seq<byte>, bg: seq<byte>, x: int, y: int): (r: seq<byte>)
    requires |s| == PIXELS && |bg| == 64
    ensures |r| == PIXELS
  {
    seq(PIXELS, k requires 0 <= k < PIXELS => if InBox(k, x, y) then bg[BoxIndex(k, x, y)] else s[k])
  }

  /** The colour of cell k, now v, once the pointer is drawn at (x, y). */
  function Pointed(k: nat, x: int, y: int, v: byte): byte {
    if InBox(k, x, y) && ARROW[BoxIndex(k, x, y)] == 1 then COLOR_WHITE
    else if InBox(k, x, y) && ARROW[BoxIndex(k, x, y)] == 2 then COLOR_BLACK
    else v
  }

  /** The cell at row r and column c of the box takes the colour of
      mouse_pointer there, or keeps its own. */
  lemma PointedCell(k: nat, x: int, y: int, r: int, c: int, v: byte)
    requires 0 <= r < 8 && 0 <= c < 8 && Col(k) == x + c && Row(k) == y + r
    ensures Pointed(k, x, y, v) ==
      if ARROW[r * 8 + c] == 1 then COLOR_WHITE else if ARROW[r * 8 + c] == 2 then COLOR_BLACK else v
  {
  }

  /** The buffer with the pointer drawn at (x, y). */
  function Stamp(s: seq<byte>, x: int, y: int): (r: seq<byte>)
    requires |s| == PIXELS
    ensures |r| == PIXELS
  {
    seq(PIXELS, k requires 0 <= k < PIXELS => Pointed(k, x, y, s[k]))
  }

  /** Putting back what was saved under the pointer undoes drawing it: a
      pointer that moves leaves no trace behind. */
  lemma Restores(s: seq<byte>, x: nat, y: nat)
    requires |s| == PIXELS
    ensures Paste(Stamp(s, x, y), Grab(s, x, y), x, y) == s
  {
    var t := Paste(Stamp(s, x, y), Grab(s, x, y), x, y);
    forall k | 0 <= k < PIXELS
      ensures t[k] == s[k]
    {
      if InBox(k, x, y) {
        var i := BoxIndex(k, x, y);
        BoxPlace(Row(k) - y, Col(k) - x);
        CellOf(k);
        assert Grab(s, x, y)[i] == s[Row(k) * VGA_WIDTH + Col(k)];
      }
    }
  }

  /** The back buffer and the pointer's saved background. */
  class Screen {
    var back: array<byte>
    var cursorBg: array<byte>
    var cursorX: int
    var cursorY: int
    var cursorEnabled: bool

    ghost predicate Valid()
      reads this
    {
      back.Length == PIXELS && cursorBg.Length == 64 && back != cursorBg
    }

    /** The statics start at zero, the pointer not yet drawn. */
    constructor ()
      ensures Valid() && fresh(back) && fresh(cursorBg) && !cursorEnabled
      ensures forall k :: 0 <= k < back.Length ==> back[k] == COLOR_BLACK
    {
      back := new byte[PIXELS](_ => 0);
      cursorBg := new byte[64](_ => 0);
      cursorX, cursorY, cursorEnabled := 0, 0, false;
    }

    /** put_pixel: an in-screen pixel takes the colour; out of the screen
        nothing is written. */
    method PutPixel(x: int, y: int, color: byte)
      requires Valid()
      modifies back
      ensures back[..] == Plotted(old(back[..]), x, y, color)
    {
      if x >= 0 && x < VGA_WIDTH && y >= 0 && y < VGA_HEIGHT {
        back[y * VGA_WIDTH + x] := color;
      }
    }

    /** draw_rect: exactly the pixels of [x, x + w) x [y, y + h) that are
        on the screen take the colour. */
    method DrawRect(x: int, y: int, w: int, h: int, color: byte)
      requires Valid()
      modifies back
      ensures forall k :: 0 <= k < PIXELS ==>
        back[k] == if InRect(k, x, y, w, h) then color else old(back[k])
      ensures w <= 0 || h <= 0 ==> back[..] == old(back[..])
    {
      var j := y;
      while j < y + h
        invariant y <= j && (j <= y + h || j == y)
        invariant forall k :: 0 <= k < PIXELS ==>
          back[k] == if InRect(k, x, y, w, j - y) then color else old(back[k])
      {
        var i := x;
        while i < x + w
          invariant x <= i && (i <= x + w || i == x)
          invariant forall k :: 0 <= k < PIXELS ==>
            back[k] == if InRect(k, x, y, w, j - y) || InRect(k, x, j, i - x, 1) then color else old(back[k])
        {
          ghost var before := back[..];
          PutPixel(i, j, color);
          PlottedCells(before, i, j, color);
          i := i + 1;
        }
        j := j + 1;
      }
    }

    /** draw_line, Bresenham's algorithm in all octants. It plots a chain
        of points that starts at (x1, y1), steps to a neighbouring pixel
        towards (x2, y2) each time, stays within the rectangle the two
        ends span, and stops right after plotting (x2, y2). */
    method DrawLine(x1: int, y1: int, x2: int, y2: int, color: byte) returns (ghost path: seq<(int, int)>)
      requires Valid()
      modifies back
      ensures back[..] == PlotAll(old(back[..]), path, color)
      ensures 0 < |path| <= Abs(x2 - x1) + Abs(y2 - y1) + 1
      ensures path[0] == (x1, y1) && path[|path| - 1] == (x2, y2)
      ensures forall i :: 0 <= i < |path| - 1 ==> path[i] != (x2, y2)
      ensures forall i :: 0 <= i < |path| - 1 ==> Step(path[i], path[i + 1], x1, y1, x2, y2)
      ensures forall i :: 0 <= i < |path| ==> Between(x1, path[i].0, x2) && Between(y1, path[i].1, y2)
      ensures forall i :: 0 <= i < |path| ==> NearLine(path[i], x1, y1, x2, y2)
    {
      var dx: int := Abs(x2 - x1);
      var dy: int := Abs(y2 - y1);
      var sx := if x1 < x2 then 1 else -1;
      var sy := if y1 < y2 then 1 else -1;
      var err := dx - dy;
      var x, y := x1, y1;
      // the steps taken along each axis
      ghost var mx, my := 0, 0;
      path := [];
      while true
        invariant Valid()
        invariant Traced(path, x, y, err, mx, my, x1, y1, x2, y2)
        invariant back[..] == PlotAll(old(back[..]), path, color)
        decreases dx - mx + dy - my
      {
        ghost var before := path;
        PutPixel(x, y, color);
        PlotAllSnoc(old(back[..]), before, (x, y), color);
        path := path + [(x, y)];
        if x == x2 && y == y2 {
          Finish(before, err, mx, my, x1, y1, x2, y2);
          break;
        }
        ghost var x0, y0, err0, mx0, my0 := x, y, err, mx, my;
        var e2 := 2 * err;
        if e2 > -dy {
          err := err - dy;
          x := x + sx;
          mx := mx + 1;
        }
        if e2 < dx {
          err := err + dx;
          y := y + sy;
          my := my + 1;
        }
        Stride(before, x0, y0, err0, mx0, my0, x, y, err, mx, my, x1, y1, x2, y2);
      }
    }

    /** graphics_clear: every pixel takes the colour. */
    method Clear(color: byte)
      requires Valid()
      modifies back
      ensures forall k :: 0 <= k < PIXELS ==> back[k] == color
    {
      var i := 0;
      while i < PIXELS
        invariant i <= PIXELS
        invariant forall k :: 0 <= k < i ==> back[k] == color
      {
        back[i] := color;
        i := i + 1;
      }
    }

    /** graphics_scroll_up, copying each pixel from p rows below in place,
        front to back. */
    method ScrollUp(pixels: int, clear: byte)
      requires Valid()
      modifies back
      ensures back[..] == Scrolled(old(back[..]), pixels, clear)
    {
      if pixels <= 0 {
        return;
      }
      if pixels >= VGA_HEIGHT {
        Clear(clear);
        return;
      }
      var shift := pixels * VGA_WIDTH;
      var visible := PIXELS - shift;
      var i := 0;
      while i < visible
        invariant i <= visible
        invariant forall k :: 0 <= k < i ==> back[k] == old(back[k + shift])
        invariant forall k :: i <= k < PIXELS ==> back[k] == old(back[k])
      {
        back[i] := back[i + shift];
        i := i + 1;
      }
      while i < PIXELS
        invariant visible <= i <= PIXELS
        invariant forall k :: 0 <= k < visible ==> back[k] == old(back[k + shift])
        invariant forall k :: visible <= k < i ==> back[k] == clear
      {
        back[i] := clear;
        i := i + 1;
      }
    }
    /** draw_string, with draw_char left out: it returns the glyphs it
        would draw, each with its position. */
    static method DrawString(str: seq<char>, x: int, y: int) returns (glyphs: seq<(char, int, int)>)
      requires '\0' in str
      ensures glyphs == Glyphs(Text(str), x, y)
    {
      var curX, curY := x, y;
      glyphs := [];
      var i := 0;
      while str[i] != '\0'
        invariant i <= |Text(str)| && Text(str)[..i] == str[..i]
        invariant (curX, curY) == Pen(str[..i], x, y)
        invariant glyphs == Glyphs(str[..i], x, y)
        decreases |Text(str)| - i
      {
        assert str[..i + 1][..i] == str[..i];
        if str[i] == '\n' {
          curX := x;
          curY := curY + 10;
        } else {
          glyphs := glyphs + [(str[i], curX, curY)];
          curX := curX + 8;
        }
        i := i + 1;
      }
    }

    /** graphics_draw_cursor: put back the background saved at the
        pointer's last place, if one was drawn; save the background at
        (x, y); draw the pointer there. Negative coordinates would read
        outside back_buffer. */
    method DrawCursor(x: int, y: int)
      requires Valid() && 0 <= x && 0 <= y
      modifies this, back, cursorBg
      ensures Valid() && back == old(back) && cursorBg == old(cursorBg)
      ensures cursorX == x && cursorY == y && cursorEnabled
      ensures
        var under := if old(cursorEnabled) then Paste(old(back[..]), old(cursorBg[..]), old(cursorX), old(cursorY)) else old(back[..]);
        cursorBg[..] == Grab(under, x, y) && back[..] == Stamp(under, x, y)
    {
      if cursorEnabled {
        Restore();
      }
      cursorX := x;
      cursorY := y;
      Capture(x, y);
      DrawPointer(x, y);
      cursorEnabled := true;
    }

    /** The first loop of graphics_draw_cursor. */
    method Restore()
      requires Valid()
      modifies back
      ensures back[..] == Paste(old(back[..]), cursorBg[..], cursorX, cursorY)
    {
      var r := 0;
      while r < 8
        invariant r <= 8
        invariant forall k :: 0 <= k < PIXELS ==>
          back[k] == if InRect(k, cursorX, cursorY, 8, r) then cursorBg[BoxIndex(k, cursorX, cursorY)] else old(back[k])
      {
        var c := 0;
        while c < 8
          invariant c <= 8
          invariant forall k :: 0 <= k < PIXELS ==>
            back[k] == if InRect(k, cursorX, cursorY, 8, r) || InRect(k, cursorX, cursorY + r, c, 1)
                       then cursorBg[BoxIndex(k, cursorX, cursorY)] else old(back[k])
        {
          if cursorX + c < VGA_WIDTH && cursorY + r < VGA_HEIGHT {
            ghost var before := back[..];
            PutPixel(cursorX + c, cursorY + r, cursorBg[r * 8 + c]);
            PlottedCells(before, cursorX + c, cursorY + r, cursorBg[r * 8 + c]);
          }
          c := c + 1;
        }
        r := r + 1;
      }
      assert forall k :: 0 <= k < PIXELS ==> back[..][k] == Paste(old(back[..]), cursorBg[..], cursorX, cursorY)[k];
    }

    /** The second loop of graphics_draw_cursor. */
    method Capture(x: nat, y: nat)
      requires Valid()
      modifies cursorBg
      ensures cursorBg[..] == Grab(back[..], x, y)
    {
      var r := 0;
      while r < 8
        invariant r <= 8
        invariant forall i :: 0 <= i < r * 8 ==> cursorBg[i] == Grab(back[..], x, y)[i]
      {
        var c := 0;
        while c < 8
          invariant c <= 8
          invariant forall i :: 0 <= i < r * 8 + c ==> cursorBg[i] == Grab(back[..], x, y)[i]
        {
          BoxPlace(r, c);
          if x + c < VGA_WIDTH && y + r < VGA_HEIGHT {
            cursorBg[r * 8 + c] := back[(y + r) * VGA_WIDTH + (x + c)];
          } else {
            cursorBg[r * 8 + c] := 0;
          }
          c := c + 1;
        }
        r := r + 1;
      }
    }

    /** The third loop of graphics_draw_cursor. */
    method DrawPointer(x: int, y: int)
      requires Valid()
      modifies back
      ensures back[..] == Stamp(old(back[..]), x, y)
    {
      var r := 0;
      while r < 8
        invariant r <= 8
        invariant forall k :: 0 <= k < PIXELS ==>
          back[k] == if InRect(k, x, y, 8, r) then Pointed(k, x, y, old(back[k])) else old(back[k])
      {
        var c := 0;
        while c < 8
          invariant c <= 8
          invariant forall k :: 0 <= k < PIXELS ==>
            back[k] == if InRect(k, x, y, 8, r) || InRect(k, x, y + r, c, 1)
                       then Pointed(k, x, y, old(back[k])) else old(back[k])
        {
          ghost var before := back[..];
          if x + c < VGA_WIDTH && y + r < VGA_HEIGHT {
            var pixel := ARROW[r * 8 + c];
            if pixel == 1 {
              PutPixel(x + c, y + r, COLOR_WHITE);
              PlottedCells(before, x + c, y + r, COLOR_WHITE);
            } else if pixel == 2 {
              PutPixel(x + c, y + r, COLOR_BLACK);
              PlottedCells(before, x + c, y + r, COLOR_BLACK);
            }
          }
          forall k | 0 <= k < PIXELS
            ensures back[k] == if InRect(k, x, y, 8, r) || InRect(k, x, y + r, c + 1, 1)
                               then Pointed(k, x, y, old(back[k])) else old(back[k])
          {
            if Col(k) == x + c && Row(k) == y + r {
              PointedCell(k, x, y, r, c, old(back[k]));
            }
          }
          c := c + 1;
        }
        r := r + 1;
      }
      assert forall k :: 0 <= k < PIXELS ==> back[..][k] == Stamp(old(back[..]), x, y)[k];
    }
  }
}
