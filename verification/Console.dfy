/**
 A text console: a stretch of video memory of which the screen shows a window of rows; output, scrolling, and the
 move of the last rows to the top when the stretch is used up.
 */
module Console {

  const SCREEN_WIDTH := 80
  const SCREEN_SIZE := 2000
  /** All rows of the screen but one. */
  const ROWS_KEPT := 1920
  const NEWLINE: char := '\n'
  const BACKSPACE: char := 8 as char

  datatype Cell = Cell(ch: char, color: nat)
  const DEFAULT_CHAR_COLOR := 7
  const BLANK := Cell(' ', DEFAULT_CHAR_COLOR)

  /** con_size, cursor - orig, crtc_start - orig, is_full */
  datatype View = View(size: nat, cur: nat, top: nat, full: bool)

  /** The row-aligned window lies in the console and the cursor too; before the console has been full once, no row
      behind the cursor has been scrolled to. */
  predicate Ok(c: View) {
    && c.size % SCREEN_WIDTH == 0 && c.cur < c.size && c.top % SCREEN_WIDTH == 0 && c.top + SCREEN_SIZE <= c.size
    && (!c.full ==> c.top <= c.cur)
  }

  predicate InWindow(c: View) {
    c.top <= c.cur < c.top + SCREEN_SIZE
  }

  /** Where the row of x begins. */
  function RowOf(x: nat): nat {
    x / SCREEN_WIDTH * SCREEN_WIDTH
  }

  // ---------------------------------------------------------------- scroll_screen

  /** The row behind the cursor's, round the console. */
  function Oldest(c: View): nat {
    if c.full && RowOf(c.cur) + SCREEN_WIDTH < c.size then RowOf(c.cur) + SCREEN_WIDTH else 0
  }

  lemma OldestIs(c: View)
    requires c.size % SCREEN_WIDTH == 0 && c.cur < c.size && c.full
    ensures (RowOf(c.cur) + SCREEN_WIDTH) % c.size == Oldest(c)
  {
    RowFacts(c.cur);
    RowsApart(RowOf(c.cur), c.size);
  }

  function ScrolledDown(c: View): View {
    if !c.full && c.top > 0 then c.(top := Less(c.top))
    else if c.full && c.top != Oldest(c) then
      if c.cur + SCREEN_SIZE >= c.size then (if c.top != 0 then c.(top := Less(c.top)) else c)
      else if c.top == 0 then c.(top := c.size - SCREEN_SIZE)
      else c.(top := Less(c.top))
    else c
  }

  function Less(top: nat): nat {
    if top >= SCREEN_WIDTH then top - SCREEN_WIDTH else 0
  }

  function ScrolledUp(c: View): View {
    if !c.full && RowOf(c.cur) >= c.top + SCREEN_SIZE then c.(top := c.top + SCREEN_WIDTH)
    else if c.full && c.top + ROWS_KEPT != RowOf(c.cur) then
      if c.top + SCREEN_SIZE == c.size then c.(top := 0) else c.(top := c.top + SCREEN_WIDTH)
    else c
  }

  lemma RowFacts(x: nat)
    ensures RowOf(x) <= x < RowOf(x) + SCREEN_WIDTH && RowOf(x) % SCREEN_WIDTH == 0
  {
  }

  /** Two row beginnings in order are a row apart. */
  lemma RowsApart(a: nat, b: nat)
    requires a % SCREEN_WIDTH == 0 && b % SCREEN_WIDTH == 0
    ensures a < b ==> a + SCREEN_WIDTH <= b
  {
  }

  /** Scrolling by the user, in either direction, keeps the window in the console. */
  lemma ScrollKeeps(c: View)
    requires Ok(c)
    ensures Ok(ScrolledDown(c)) && Ok(ScrolledUp(c))
  {
    RowsApart(0, c.top);
    ScrollUpKeeps(c);
  }

  lemma ScrollUpKeeps(c: View)
    requires Ok(c)
    ensures Ok(ScrolledUp(c))
  {
    RowFacts(c.cur);
    RowsApart(c.top + SCREEN_SIZE, c.size);
    RowsApart(RowOf(c.cur), c.size);
  }

  /** Scrolling up takes back scrolling down, exactly unless the window then already shows the newest rows. */
  lemma ScrollBack(c: View)
    requires Ok(c) && ScrolledDown(c) != c
    ensures var d := ScrolledDown(c);
            ScrolledUp(d) == c <==>
              if c.full then d.top + ROWS_KEPT != RowOf(c.cur) else d.top + SCREEN_SIZE <= RowOf(c.cur)
  {
    RowFacts(c.cur);
    RowsApart(0, c.top);
  }

  /** Scrolling down shows one row more of the past, round the console when the cursor is far from its end.  It does
      nothing exactly when there is none: at the first row of a console that has never been full, at the row behind the
      cursor's in one that has, or where going round would show what is newer than the cursor. */
  lemma ScrollDownMoves(c: View)
    requires Ok(c)
    ensures var d := ScrolledDown(c); var oldest := (c.cur / 80 * 80 + 80) % c.size;
            && d == c.(top := d.top)
            && (d.top == c.top <==>
                 if c.full then c.top == oldest || (c.top == 0 && c.cur + 2000 >= c.size) else c.top == 0)
            && (d.top != c.top ==> d.top == if c.top == 0 then c.size - 2000 else c.top - 80)
  {
    RowsApart(0, c.top);
    if c.full { OldestIs(c); }
  }

  /** Scrolling up shows one row more of what is newer, round the console at its end.  It does nothing exactly when the
      cursor's row is shown, in a console that has been full as the last one. */
  lemma ScrollUpMoves(c: View)
    requires Ok(c)
    ensures var d := ScrolledUp(c); var newest := c.cur / 80 * 80;
            && d == c.(top := d.top)
            && (d.top == c.top <==> if c.full then c.top + 1920 == newest || (c.top == 0 && c.size == 2000)
                                    else newest < c.top + 2000)
            && (d.top != c.top ==> d.top == if c.full && c.top + 2000 == c.size then 0 else c.top + 80)
  {
    RowFacts(c.cur);
  }

  // ---------------------------------------------------------------- the catch-up loop of out_char

  /** The loop comes to an end. */
  predicate CanSettle(c: View) {
    c.full || c.top <= c.cur
  }

  function Rounds(c: View): nat {
    if c.cur >= c.top then c.cur - c.top else if c.top <= c.size then 2 * c.size - c.top else 0
  }

  lemma CloserByOne(c: View)
    requires c.size % SCREEN_WIDTH == 0 && c.cur < c.size && c.top % SCREEN_WIDTH == 0 && c.top + SCREEN_SIZE <= c.size
    requires CanSettle(c) && !InWindow(c)
    ensures var d := ScrolledUp(c); Ok(d) && Rounds(d) < Rounds(c)
  {
    if c.cur >= c.top + SCREEN_SIZE {
      CloserBelow(c);
    } else if c.top + SCREEN_SIZE < c.size {
      RowFacts(c.cur);
      RowsApart(c.top + SCREEN_SIZE, c.size);
    } else {
      RowFacts(c.cur);
    }
  }

  /** The cursor is below the window. */
  lemma CloserBelow(c: View)
    requires c.size % SCREEN_WIDTH == 0 && c.cur < c.size && c.top % SCREEN_WIDTH == 0 && c.top + SCREEN_SIZE <= c.size
    requires c.cur >= c.top + SCREEN_SIZE
    ensures var d := ScrolledUp(c); Ok(d) && Rounds(d) < Rounds(c)
  {
    RowFacts(c.cur);
    RowsApart(RowOf(c.cur), c.top + SCREEN_SIZE);
    RowsApart(RowOf(c.cur), c.size);
  }

  ghost predicate Loops(c: View) {
    && c.size % SCREEN_WIDTH == 0 && c.cur < c.size && c.top % SCREEN_WIDTH == 0 && c.top + SCREEN_SIZE <= c.size
    && CanSettle(c)
  }

  /** Where the catch-up loop ends. */
  ghost function Settled(c: View): View
    requires Loops(c)
    decreases Rounds(c)
  {
    if InWindow(c) then c
    else
      CloserByOne(c);
      Settled(ScrolledUp(c))
  }

  /** The loop leaves a window that shows the cursor: it is left alone, or the cursor's row becomes its last row,
      or it is the console's first window. */
  lemma {:induction false} SettledIs(c: View)
    requires Loops(c)
    ensures var d := Settled(c); Ok(d) && InWindow(d) && d.size == c.size && d.cur == c.cur && d.full == c.full
    ensures Settled(c).top == if InWindow(c) then c.top
                              else if c.cur < SCREEN_SIZE then 0
                              else RowOf(c.cur) - ROWS_KEPT
    decreases Rounds(c)
  {
    RowFacts(c.cur);
    if !InWindow(c) {
      CloserByOne(c);
      SettledIs(ScrolledUp(c));
      if InWindow(ScrolledUp(c)) { ReachedByOne(c); }
    }
  }

  /** If one scroll is enough, it brought the cursor's row to the bottom, or the first window. */
  lemma ReachedByOne(c: View)
    requires Loops(c) && !InWindow(c) && InWindow(ScrolledUp(c))
    ensures ScrolledUp(c).top == if c.cur < SCREEN_SIZE then 0 else RowOf(c.cur) - ROWS_KEPT
  {
    RowFacts(c.cur);
    var d := ScrolledUp(c);
    if c.cur >= c.top + SCREEN_SIZE {
      RowsApart(RowOf(c.cur), d.top + ROWS_KEPT);
      RowsApart(d.top + ROWS_KEPT, RowOf(c.cur));
    }
  }

  /** The view after n rounds of the loop body. */
  function Rolled(c: View, n: nat): View {
    if n == 0 then c else ScrolledUp(Rolled(c, n - 1))
  }

  /** After n rounds the cursor is in the window. */
  predicate EndsAfter(c: View, n: nat) {
    InWindow(Rolled(c, n))
  }

  lemma {:induction false} RolledOnce(c: View, n: nat)
    ensures Rolled(ScrolledUp(c), n) == Rolled(c, n + 1)
  {
    if n > 0 { RolledOnce(c, n - 1); }
  }

  /** The catch-up loop ends exactly when the console has been full or the cursor is not above the window: a
      backspace over the upper edge of the window of a console that has never been full hangs the kernel. */
  lemma {:induction false} SettlesExactly(c: View)
    requires c.size % SCREEN_WIDTH == 0 && c.cur < c.size && c.top % SCREEN_WIDTH == 0 && c.top + SCREEN_SIZE <= c.size
    ensures CanSettle(c) <==> exists n: nat :: EndsAfter(c, n)
  {
    if CanSettle(c) {
      var n := RoundsToSettle(c);
      assert EndsAfter(c, n);
    } else {
      forall n: nat ensures !EndsAfter(c, n) {
        StuckAt(c, n);
      }
    }
  }

  lemma {:induction false} RoundsToSettle(c: View) returns (n: nat)
    requires Loops(c)
    ensures EndsAfter(c, n)
    decreases Rounds(c)
  {
    n := 0;
    if !InWindow(c) {
      CloserByOne(c);
      n := RoundsToSettle(ScrolledUp(c));
      RolledOnce(c, n);
      n := n + 1;
    }
  }

  lemma {:induction false} StuckAt(c: View, n: nat)
    requires !CanSettle(c)
    ensures Rolled(c, n) == c
  {
    RowFacts(c.cur);
    if n > 0 { StuckAt(c, n - 1); }
  }

  // ---------------------------------------------------------------- out_char

  function Advanced(cur: nat, ch: char): nat {
    if ch == NEWLINE then RowOf(cur) + SCREEN_WIDTH
    else if ch == BACKSPACE then (if cur > 0 then cur - 1 else 0)
    else cur + 1
  }

  /** The view before the catch-up loop. */
  function Placed(c: View, ch: char): View {
    var cur := Advanced(c.cur, ch);
    if cur >= c.size then View(c.size, ROWS_KEPT + cur % SCREEN_WIDTH, 0, true) else c.(cur := cur)
  }

  lemma PlacedIs(c: View, ch: char)
    requires Ok(c)
    ensures var d := Placed(c, ch);
            && Advanced(c.cur, ch) <= c.size && d.cur < d.size == c.size && d.top + SCREEN_SIZE <= d.size
               && d.top % SCREEN_WIDTH == 0
            && (Advanced(c.cur, ch) == c.size ==> d == View(c.size, ROWS_KEPT, 0, true))
            && (CanSettle(d) <==> c.full || !(ch == BACKSPACE && c.cur == c.top && c.cur > 0))
  {
    RowFacts(c.cur);
    RowsApart(RowOf(c.cur), c.size);
  }

  /** out_char ends: no backspace over the upper edge of the window before the console has been full. */
  predicate CharLegal(c: View, ch: char) {
    Ok(c) && (c.full || !(ch == BACKSPACE && c.cur == c.top && c.cur > 0))
  }

  ghost function Shown(c: View, ch: char): View
    requires CharLegal(c, ch)
  {
    PlacedIs(c, ch);
    Settled(Placed(c, ch))
  }

  /** Where the cursor stands after a character: a newline brings it to the next row, a backspace one back, any other
      character one on; at the end of the console it goes to the 25th row, and the console has been full. */
  lemma CursorAfter(c: View, ch: char)
    requires CharLegal(c, ch)
    ensures var d := Shown(c, ch); var row := c.cur / 80;
            var to := if ch == '\n' then 80 * (row + 1)
              else if ch as int == 8 then (if c.cur == 0 then 0 else c.cur - 1) else c.cur + 1;
            && to <= c.size && d.size == c.size
            && d.cur == (if to == c.size then 1920 else to) && (d.full <==> c.full || to == c.size)
            && (to < c.size && c.top <= to < c.top + 2000 ==> d.top == c.top)
  {
    RowFacts(c.cur);
    PlacedIs(c, ch);
    SettledIs(Placed(c, ch));
  }

  datatype Event = Char(ch: char) | ScrollUp | ScrollDown

  ghost function After(c: View, e: Event): View
    requires Ok(c) && (e.Char? ==> CharLegal(c, e.ch))
  {
    match e
    case Char(ch) => Shown(c, ch)
    case ScrollUp => ScrolledUp(c)
    case ScrollDown => ScrolledDown(c)
  }

  ghost predicate EventAt(run: seq<View>, events: seq<Event>, i: nat)
    requires |run| == |events| + 1 && i < |events|
  {
    Ok(run[i]) ==> (events[i].Char? ==> CharLegal(run[i], events[i].ch)) && run[i + 1] == After(run[i], events[i])
  }

  /** Output and scrolling in any order keep the window row-aligned in the console and the cursor in the console; after
      every character the cursor is in the window. */
  lemma {:induction false} ConsoleRun(run: seq<View>, events: seq<Event>, i: nat)
    requires |run| == |events| + 1 && Ok(run[0]) && (forall k | 0 <= k < |events| :: EventAt(run, events, k))
             && i <= |events|
    ensures Ok(run[i]) && run[i].size == run[0].size
    ensures i > 0 && events[i - 1].Char? ==> InWindow(run[i])
  {
    if i > 0 {
      ConsoleRun(run, events, i - 1);
      assert EventAt(run, events, i - 1);
      ScrollKeeps(run[i - 1]);
      if events[i - 1].Char? {
        PlacedIs(run[i - 1], events[i - 1].ch);
        SettledIs(Placed(run[i - 1], events[i - 1].ch));
      }
    }
  }

  lemma RolledFrom(size: nat)
    requires size % SCREEN_WIDTH == 0
    ensures (size / SCREEN_WIDTH + 1) * SCREEN_WIDTH == size + SCREEN_WIDTH
  {
  }

  /** 25 newlines and 1920 backspaces from the first cell on. */
  function Typing(i: nat): Event {
    if i < 25 then Char(NEWLINE) else Char(BACKSPACE)
  }

  function Typed(size: nat, i: nat): View
    requires i <= 1945
  {
    if i <= 24 then View(size, SCREEN_WIDTH * i, 0, false)
    else View(size, SCREEN_SIZE - (i - 25), SCREEN_WIDTH, false)
  }

  lemma TypingStep(size: nat, i: nat)
    requires size % SCREEN_WIDTH == 0 && size > SCREEN_SIZE && i < 1945
    ensures Ok(Typed(size, i)) && CharLegal(Typed(size, i), Typing(i).ch)
            && Typed(size, i + 1) == After(Typed(size, i), Typing(i))
  {
    var c := Typed(size, i);
    RowsApart(SCREEN_SIZE, size);
    RowFacts(c.cur);
    PlacedIs(c, Typing(i).ch);
    SettledIs(Placed(c, Typing(i).ch));
  }

  /** A run that ends in a console which the next backspace hangs: never full, cursor in the first cell of a window that
      has been scrolled. */
  lemma HangReached(size: nat) returns (run: seq<View>, events: seq<Event>)
    requires size % SCREEN_WIDTH == 0 && size > SCREEN_SIZE
    ensures |run| == |events| + 1 && run[0] == View(size, 0, 0, false) && Ok(run[0])
    ensures forall i | 0 <= i < |events| :: EventAt(run, events, i)
    ensures var c := run[|events|];
             !c.full && c.cur == c.top > 0 && !CharLegal(c, BACKSPACE) && !CanSettle(Placed(c, BACKSPACE))
  {
    run := seq(1946, i requires 0 <= i < 1946 => Typed(size, i));
    events := seq(1945, i requires 0 <= i < 1945 => Typing(i));
    forall i | 0 <= i < |events| ensures EventAt(run, events, i) {
      TypingStep(size, i);
    }
    RowsApart(SCREEN_SIZE, size);
    PlacedIs(run[1945], BACKSPACE);
  }

  // ---------------------------------------------------------------- video memory

  /** n cells from pos on made blank. */
  function Cleared(v: seq<Cell>, pos: nat, n: nat): seq<Cell> {
    seq(|v|, i requires 0 <= i < |v| => if pos <= i < pos + n then BLANK else v[i])
  }

  /** n cells from src on copied to dst. */
  function Copied(v: seq<Cell>, dst: nat, src: nat, n: nat): seq<Cell>
    requires src + n <= |v|
  {
    seq(|v|, i requires 0 <= i < |v| => if dst <= i < dst + n then v[src + (i - dst)] else v[i])
  }

  /** The cell that a character changes. */
  function Written(v: seq<Cell>, at: nat, first: bool, ch: char): seq<Cell>
    requires at < |v|
  {
    if ch == NEWLINE then v
    else if ch == BACKSPACE then (if first || at == 0 then v else v[at - 1 := BLANK])
    else v[at := Cell(ch, DEFAULT_CHAR_COLOR)]
  }

  /** Video memory after the overflow: the last rows at the top, a blank row under them. */
  function RolledOver(v: seq<Cell>, orig: nat, size: nat): seq<Cell>
    requires orig + size <= |v| && size >= SCREEN_SIZE
  {
    Cleared(Copied(v, orig, orig + size - ROWS_KEPT, ROWS_KEPT), orig + ROWS_KEPT, SCREEN_WIDTH)
  }

  function Painted(v: seq<Cell>, orig: nat, c: View, ch: char): seq<Cell>
    requires Ok(c) && orig + c.size <= |v|
  {
    var v1 := Written(v, orig + c.cur, c.cur == 0, ch);
    var v2 := if Advanced(c.cur, ch) >= c.size then RolledOver(v1, orig, c.size) else v1;
    var d := Placed(c, ch);
    if InWindow(d) then v2 else Cleared(v2, orig + d.cur, SCREEN_WIDTH)
  }

  /** When the console overflows, the last 24 rows, with the character just written, are the first 24 rows of the
      window, the cursor stands at the beginning of a blank 25th, and the other consoles' cells are untouched. */
  lemma OverflowKeepsRows(v: seq<Cell>, orig: nat, c: View, ch: char)
    requires CharLegal(c, ch) && orig + c.size <= |v| && ch != BACKSPACE
    requires (if ch == '\n' then c.cur / 80 * 80 + 80 else c.cur + 1) >= c.size
    ensures var v1 := if ch == '\n' then v else v[orig + c.cur := Cell(ch, 7)]; var v' := Painted(v, orig, c, ch);
            var d := Shown(c, ch);
            && |v'| == |v| && d == View(c.size, 1920, 0, true)
            && v'[orig..orig + 1920] == v1[orig + c.size - 1920..orig + c.size]
            && (forall i | orig + 1920 <= i < orig + 2000 :: v'[i] == Cell(' ', 7))
            && v'[..orig] == v[..orig] && v'[orig + c.size..] == v[orig + c.size..]
  {
    PlacedIs(c, ch);
    var v1 := Written(v, orig + c.cur, c.cur == 0, ch);
    var v', rows := RolledOver(v1, orig, c.size), v1[orig + c.size - ROWS_KEPT..orig + c.size];
    assert Painted(v, orig, c, ch) == v';
    forall i | 0 <= i < ROWS_KEPT ensures v'[orig..orig + ROWS_KEPT][i] == rows[i] {
      assert v'[orig + i] == v1[orig + c.size - ROWS_KEPT + (orig + i - orig)];
    }
  }

  /** Short of an overflow only the character's own cell changes, and, when the window had to move, the row of
      cells from the cursor on becomes blank. */
  lemma PaintsOnly(v: seq<Cell>, orig: nat, c: View, ch: char)
    requires CharLegal(c, ch) && orig + c.size <= |v| && Advanced(c.cur, ch) < c.size
    ensures var v' := Painted(v, orig, c, ch); var d := Shown(c, ch);
            && |v'| == |v| && d.cur == Advanced(c.cur, ch)
            && (ch != NEWLINE && ch != BACKSPACE && d.top == c.top ==>
                  v' == v[orig + c.cur := Cell(ch, 7)])
            && (ch == BACKSPACE && c.cur > 0 && d.top == c.top ==> v' == v[orig + c.cur - 1 := Cell(' ', 7)])
            && (ch == NEWLINE && d.top == c.top ==> v' == v)
            && (d.top != c.top ==>
                  forall i | orig + d.cur <= i < orig + d.cur + SCREEN_WIDTH && i < |v| :: v'[i] == Cell(' ', 7))
            && (forall i | 0 <= i < |v| && i != orig + c.cur && i + 1 != orig + c.cur
                           && !(orig + d.cur <= i < orig + d.cur + SCREEN_WIDTH) :: v'[i] == v[i])
  {
    PlacedIs(c, ch);
    SettledIs(Placed(c, ch));
  }

  /** Neither newline nor backspace. */
  predicate Plain(ch: char) {
    ch as int != 10 && ch as int != 8
  }

  /** Character i of the text goes to the console. */
  ghost predicate PutAt(views: seq<View>, mems: seq<seq<Cell>>, orig: nat, text: seq<char>, i: nat) {
    && i < |text| && i + 1 < |views| && i + 1 < |mems|
    && CharLegal(views[i], text[i]) && orig + views[i].size <= |mems[i]|
    && views[i + 1] == Shown(views[i], text[i]) && mems[i + 1] == Painted(mems[i], orig, views[i], text[i])
  }

  /** Views and video memories while a row of plain characters that fits the rest of the window is put out: the
      characters stand in consecutive cells from the cursor on, in their order and in white, everything else is as
      it was, the cursor is behind the last one and the window has not moved. */
  lemma {:induction false} TextShown(views: seq<View>, mems: seq<seq<Cell>>, orig: nat, text: seq<char>, n: nat)
    requires |views| > n && |mems| > n && n <= |text| && forall i | 0 <= i < n :: PutAt(views, mems, orig, text, i)
    requires Ok(views[0]) && InWindow(views[0]) && orig + views[0].size <= |mems[0]|
    requires (forall ch | ch in text :: Plain(ch)) && views[0].cur + n < views[0].top + 2000
             && views[0].cur + n < views[0].size
    ensures views[n] == views[0].(cur := views[0].cur + n) && |mems[n]| == |mems[0]|
    ensures forall x | 0 <= x < |mems[0]| ::
              mems[n][x] == var at := orig + views[0].cur;
                            if at <= x < at + n then Cell(text[x - at], 7) else mems[0][x]
  {
    if n > 0 {
      TextShown(views, mems, orig, text, n - 1);
      var c, ch := views[n - 1], text[n - 1];
      assert PutAt(views, mems, orig, text, n - 1) && ch in text;
      CursorAfter(c, ch);
      PaintsOnly(mems[n - 1], orig, c, ch);
      ViewKept(c, ch);
    }
  }

  lemma ViewKept(c: View, ch: char)
    requires CharLegal(c, ch) && Plain(ch) && c.cur + 1 < c.size && c.top <= c.cur && c.cur + 1 < c.top + 2000
    ensures Shown(c, ch) == c.(cur := c.cur + 1) && Advanced(c.cur, ch) < c.size
  {
    CursorAfter(c, ch);
    PlacedIs(c, ch);
    SettledIs(Placed(c, ch));
  }

  // ---------------------------------------------------------------- the code

  class Screen {
    /** Video memory, shared by all consoles. */
    const video: array<Cell>
    const orig: nat
    const conSize: nat
    var crtcStart: nat
    var cursor: nat
    var isFull: bool

    constructor (video: array<Cell>, orig: nat, conSize: nat, cursor: nat)
      requires conSize % SCREEN_WIDTH == 0 && orig <= cursor < orig + conSize && conSize >= SCREEN_SIZE
      requires orig + conSize + SCREEN_WIDTH <= video.Length
      ensures Valid() && this.video == video && this.orig == orig && Abs() == View(conSize, cursor - orig, 0, false)
    {
      this.video, this.orig, this.conSize := video, orig, conSize;
      crtcStart, this.cursor, isFull := orig, cursor, false;
    }

    predicate Placeable()
      reads this
    {
      orig <= crtcStart && orig <= cursor && orig + conSize + SCREEN_WIDTH <= video.Length
    }

    function Abs(): View
      reads this
      requires Placeable()
    {
      View(conSize, cursor - orig, crtcStart - orig, isFull)
    }

    ghost predicate Valid()
      reads this
    {
      Placeable() && Ok(Abs())
    }

    method WCopy(dst: nat, src: nat, size: nat)
      requires dst <= src && src + size <= video.Length
      modifies video
      ensures video[..] == Copied(old(video[..]), dst, src, size)
    {
      ghost var v := video[..];
      for k := 0 to size
        invariant video[..dst] == v[..dst] && video[dst..dst + k] == v[src..src + k] && video[dst + k..] == v[dst + k..]
      {
        assert video[src + k] == video[dst + k..][src - dst] == v[src + k];
        video[dst + k] := video[src + k];
      }
      forall i | 0 <= i < video.Length ensures video[..][i] == Copied(v, dst, src, size)[i] {
        if i < dst {
          assert video[..dst][i] == v[..dst][i];
        } else if i < dst + size {
          assert video[dst..dst + size][i - dst] == v[src..src + size][i - dst];
        } else {
          assert video[dst + size..][i - dst - size] == v[dst + size..][i - dst - size];
        }
      }
    }

    method ClearScreen(pos: nat, len: nat)
      requires pos + len <= video.Length
      modifies video
      ensures video[..] == Cleared(old(video[..]), pos, len)
    {
      ghost var v := video[..];
      for k := 0 to len
        invariant forall i | 0 <= i < video.Length :: video[i] == if pos <= i < pos + k then BLANK else v[i]
      {
        video[pos + k] := BLANK;
      }
    }

    method ScrollScreen(up: bool)
      requires Placeable() && conSize % SCREEN_WIDTH == 0 && cursor < orig + conSize
               && crtcStart - orig + SCREEN_SIZE <= conSize
      requires crtcStart >= orig && (crtcStart - orig) % SCREEN_WIDTH == 0
      modifies this`crtcStart
      ensures Placeable() && Abs() == if up then ScrolledUp(old(Abs())) else ScrolledDown(old(Abs()))
    {
      var newest := (cursor - orig) / SCREEN_WIDTH * SCREEN_WIDTH;
      if isFull {
        OldestIs(Abs());
      }
      var oldest := if isFull then (newest + SCREEN_WIDTH) % conSize else 0;
      var scrTop := crtcStart - orig;
      RowsApart(0, scrTop);
      if !up {
        if !isFull && scrTop > 0 {
          crtcStart := crtcStart - SCREEN_WIDTH;
        } else if isFull && scrTop != oldest {
          if cursor - orig >= conSize - SCREEN_SIZE {
            if crtcStart != orig {
              crtcStart := crtcStart - SCREEN_WIDTH;
            }
          } else if crtcStart == orig {
            scrTop := conSize - SCREEN_SIZE;
            crtcStart := orig + scrTop;
          } else {
            crtcStart := crtcStart - SCREEN_WIDTH;
          }
        }
      } else {
        if !isFull && newest >= scrTop + SCREEN_SIZE {
          crtcStart := crtcStart + SCREEN_WIDTH;
        } else if isFull && scrTop + SCREEN_SIZE - SCREEN_WIDTH != newest {
          if scrTop + SCREEN_SIZE == conSize {
            crtcStart := orig;
          } else {
            crtcStart := crtcStart + SCREEN_WIDTH;
          }
        }
      }
    }

    /** The catch-up loop. */
    method CatchUp()
      requires Placeable() && Loops(Abs())
      modifies this`crtcStart, video
      ensures Valid() && Abs() == Settled(old(Abs()))
      ensures video[..] == if InWindow(old(Abs())) then old(video[..])
              else Cleared(old(video[..]), cursor, SCREEN_WIDTH)
    {
      ghost var c := Abs();
      ghost var v := video[..];
      SettledIs(c);
      while cursor >= crtcStart + SCREEN_SIZE || cursor < crtcStart
        invariant Placeable() && Loops(Abs()) && Settled(Abs()) == Settled(c)
        invariant video[..] == if Abs() == c then v else Cleared(v, cursor, SCREEN_WIDTH)
        invariant Abs() != c ==> !InWindow(c)
        decreases Rounds(Abs())
      {
        ghost var d := Abs();
        CloserByOne(d);
        ScrollScreen(true);
        ClearScreen(cursor, SCREEN_WIDTH);
      }
    }

    method OutChar(ch: char)
      requires Valid() && CharLegal(Abs(), ch)
      modifies this`crtcStart, this`cursor, this`isFull, video
      ensures Valid() && Abs() == Shown(old(Abs()), ch) && video[..] == Painted(old(video[..]), orig, old(Abs()), ch)
    {
      PlacedIs(Abs(), ch);
      Place(ch);
      CatchUp();
    }

    /** The character itself; the cursor may then stand behind the console. */
    method Put(ch: char)
      requires Valid()
      modifies this`cursor, video
      ensures cursor == orig + Advanced(old(cursor) - orig, ch)
      ensures video[..] == Written(old(video[..]), old(cursor), old(cursor) == orig, ch)
    {
      var cursorY := (cursor - orig) / SCREEN_WIDTH;
      if ch == NEWLINE {
        cursor := orig + SCREEN_WIDTH * (cursorY + 1);
      } else if ch == BACKSPACE {
        if cursor > orig {
          cursor := cursor - 1;
          video[cursor] := BLANK;
        }
      } else {
        video[cursor] := Cell(ch, DEFAULT_CHAR_COLOR);
        cursor := cursor + 1;
      }
    }

    /** The last rows to the top. */
    method RollOver()
      requires Placeable() && cursor == orig + conSize && conSize % SCREEN_WIDTH == 0 && conSize >= SCREEN_SIZE
      modifies this`crtcStart, this`cursor, this`isFull, video
      ensures Placeable() && Abs() == View(conSize, ROWS_KEPT, 0, true)
      ensures video[..] == RolledOver(old(video[..]), orig, conSize)
    {
      var cursorX := (cursor - orig) % SCREEN_WIDTH;
      var cursorY := (cursor - orig) / SCREEN_WIDTH;
      var cpOrig := orig + (cursorY + 1) * SCREEN_WIDTH - SCREEN_SIZE;
      RolledFrom(conSize);
      assert cursorX == 0 && cpOrig == orig + conSize - ROWS_KEPT;
      crtcStart := orig;
      cursor := orig + (SCREEN_SIZE - SCREEN_WIDTH) + cursorX;
      MoveRows(cpOrig);
      if !isFull {
        isFull := true;
      }
    }

    /** The rows from cpOrig on to the top, and a blank one under them. */
    method MoveRows(cpOrig: nat)
      requires Placeable() && conSize >= SCREEN_SIZE && cpOrig == orig + conSize - ROWS_KEPT
               && cursor == orig + ROWS_KEPT
      modifies video
      ensures video[..] == RolledOver(old(video[..]), orig, conSize)
    {
      WCopy(orig, cpOrig, SCREEN_SIZE - SCREEN_WIDTH);
      ClearScreen(cursor, SCREEN_WIDTH);
    }

    /** out_char up to its loop. */
    method Place(ch: char)
      requires Valid()
      modifies this`crtcStart, this`cursor, this`isFull, video
      ensures Placeable() && Abs() == Placed(old(Abs()), ch)
      ensures var v1 := Written(old(video[..]), old(cursor), old(cursor) == orig, ch);
              video[..] == if Advanced(old(Abs()).cur, ch) >= conSize then RolledOver(v1, orig, conSize) else v1
    {
      PlacedIs(Abs(), ch);
      Put(ch);
      if cursor - orig >= conSize {
        RollOver();
      }
    }
  }
}
