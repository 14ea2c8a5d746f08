/** The panel drawing code of panel.c: draw_panel keeps the cursor inside
    the 28 visible rows by moving the panel's first visible row, then fills
    those rows with the files they show; draw_file_line redraws one file's
    row. The escape sequences, the frame and the column a panel starts at
    are terminal output and are not modelled; a drawing is the list of what
    each row shows. */
module PanelView {
  import opened Common
  import opened Zmc

  /** The first visible row after draw_panel's two scroll adjustments:
      up to the cursor when it is above the window, so that the cursor is
      the last visible row when it is below it. */
  function ClampScroll(cur: int, scroll: int): (s: int)
    ensures s <= cur < s + VISIBLE_ROWS
    ensures scroll <= cur < scroll + VISIBLE_ROWS ==> s == scroll
    ensures cur < scroll ==> s == cur
    ensures cur >= scroll + VISIBLE_ROWS ==> s == cur - (VISIBLE_ROWS - 1)
    ensures cur >= 0 && scroll >= 0 ==> s >= 0
  {
    var s1 := if cur < scroll then cur else scroll;
    if cur >= s1 + VISIBLE_ROWS then cur - (VISIBLE_ROWS - 1) else s1
  }

  /** Redrawing twice scrolls once. */
  lemma ClampScrollIdempotent(cur: int, scroll: int)
    ensures ClampScroll(cur, ClampScroll(cur, scroll)) == ClampScroll(cur, scroll)
  {
  }

  /** The scroll moves no further than it has to: every window that holds
      the cursor is at least as far from the old first row. */
  lemma ClampScrollNearest(cur: int, scroll: int, t: int)
    requires t <= cur < t + VISIBLE_ROWS
    ensures var s := ClampScroll(cur, scroll);
      (if s >= scroll then s - scroll else scroll - s) <= (if t >= scroll then t - scroll else scroll - t)
  {
  }

  /** What one visible row shows: nothing, or a file's name and size with
      its selector column and whether it is in inverse video. */
  datatype Row = BlankRow | FileRow(idx: nat, selector: byte, name: CString, sizeKb: int, inverse: bool)

  /** Row `i` of the window that starts at `s`: draw_panel puts a space
      where draw_file_line puts the selector. */
  function ScreenRow(files: seq<FileEntry>, n: int, cur: int, s: int, active: bool, i: nat): Row
    requires 0 <= s && n <= |files|
  {
    var f := i + s;
    if f < n then FileRow(f, SPACE, files[f].name, files[f].sizeKb, active && f == cur)
    else BlankRow
  }

  /** The 28 rows draw_panel writes once the first visible row is `s`. */
  function Screen(files: seq<FileEntry>, n: int, cur: int, s: int, active: bool): (rows: seq<Row>)
    requires 0 <= s && n <= |files|
    ensures |rows| == VISIBLE_ROWS
  {
    seq(VISIBLE_ROWS, i requires 0 <= i < VISIBLE_ROWS => ScreenRow(files, n, cur, s, active, i))
  }

  /** The window shows consecutive files from its first row, then blank
      rows once the files run out; a row is in inverse video only when it
      shows the cursor's file of a panel with the focus. */
  lemma ScreenShowsWindow(files: seq<FileEntry>, n: int, cur: int, s: int, active: bool, i: nat)
    requires 0 <= s && n <= |files| && i < VISIBLE_ROWS
    ensures var r := Screen(files, n, cur, s, active)[i];
      (r.FileRow? <==> s + i < n) &&
      (r.FileRow? ==> r.idx == s + i && r.name == files[s + i].name && r.sizeKb == files[s + i].sizeKb) &&
      (r.FileRow? && r.inverse <==> active && s + i == cur && cur < n)
  {
  }

  /** After the scroll adjustment a cursor on a listed file is on screen,
      its row is the only one in inverse video, and only when the panel
      has the focus. */
  lemma CursorOnScreen(files: seq<FileEntry>, n: int, cur: int, scroll: int, active: bool)
    requires 0 <= cur < n <= |files| && 0 <= scroll
    ensures var s := ClampScroll(cur, scroll);
      0 <= s && 0 <= cur - s < VISIBLE_ROWS &&
      Screen(files, n, cur, s, active)[cur - s] ==
        FileRow(cur, SPACE, files[cur].name, files[cur].sizeKb, active) &&
      forall i :: 0 <= i < VISIBLE_ROWS && i != cur - s ==> !(Screen(files, n, cur, s, active)[i].FileRow? && Screen(files, n, cur, s, active)[i].inverse)
  {
    var s := ClampScroll(cur, scroll);
    forall i | 0 <= i < VISIBLE_ROWS && i != cur - s
      ensures !(Screen(files, n, cur, s, active)[i].FileRow? && Screen(files, n, cur, s, active)[i].inverse)
    {
      ScreenShowsWindow(files, n, cur, s, active, i);
    }
  }

  /** draw_panel: adjust the first visible row, then draw the 28 rows.
      The source reads files[f] for every row whose index is below the
      file count, so the adjusted first row must not be negative. */
  method DrawPanel(p: Panel) returns (rows: seq<Row>)
    requires p.Valid() && ClampScroll(p.currentIdx, p.scrollOffset) >= 0
    modifies p`scrollOffset
    ensures p.Valid()
    ensures p.scrollOffset == ClampScroll(p.currentIdx, old(p.scrollOffset))
    ensures rows == Screen(p.files[..], p.numFiles, p.currentIdx, p.scrollOffset, p.active)
  {
    if p.currentIdx < p.scrollOffset {
      p.scrollOffset := p.currentIdx;
    }
    if p.currentIdx >= p.scrollOffset + VISIBLE_ROWS {
      p.scrollOffset := p.currentIdx - (VISIBLE_ROWS - 1);
    }
    ghost var all := Screen(p.files[..], p.numFiles, p.currentIdx, p.scrollOffset, p.active);
    rows := [];
    var i := 0;
    while i < VISIBLE_ROWS
      invariant 0 <= i <= VISIBLE_ROWS
      invariant rows == all[..i]
    {
      var f := i + p.scrollOffset;
      var r;
      if f < p.numFiles {
        r := FileRow(f, SPACE, p.files[f].name, p.files[f].sizeKb, p.active && f == p.currentIdx);
      } else {
        r := BlankRow;
      }
      assert r == all[i];
      rows := rows + [r];
      i := i + 1;
    }
  }

  /** What draw_file_line writes: the screen row, the selector ('*' for a
      marked file), the name and size, and whether it is in inverse video. */
  datatype LineView = LineView(row: int, selector: byte, name: CString, sizeKb: int, inverse: bool)

  const STAR: byte := '*' as byte

  /** draw_file_line(p, x, idx): nothing when the file's row is outside the
      window. The entry is read before that test, whatever the file count,
      so only the array bounds are required. */
  function DrawFileLine(p: Panel, idx: int): (v: Option<LineView>)
    reads p, p.files
    requires p.Valid() && 0 <= idx < MAX_FILES
    ensures v.Some? <==> p.scrollOffset <= idx < p.scrollOffset + VISIBLE_ROWS
    ensures v.Some? ==> 2 <= v.value.row < VISIBLE_ROWS + 2 && v.value.row == idx - p.scrollOffset + 2
    ensures v.Some? ==> (v.value.selector == STAR <==> Marked(p.files[idx])) && (v.value.selector == STAR || v.value.selector == SPACE)
    ensures v.Some? ==> (v.value.inverse <==> p.active && idx == p.currentIdx)
  {
    var e := p.files[idx];
    var selector := if e.seleccionado != 0 then STAR else SPACE;
    if p.scrollOffset <= idx < p.scrollOffset + VISIBLE_ROWS then
      Some(LineView(idx - p.scrollOffset + 2, selector, e.name, e.sizeKb, p.active && idx == p.currentIdx))
    else None
  }

  /** A one-line redraw of a listed file inside the window writes the row
      a full redraw writes, except for the selector column: draw_panel
      leaves the mark of a marked file out. */
  lemma LineRedrawMatchesScreen(p: Panel, idx: int)
    requires p.Valid() && 0 <= p.scrollOffset <= idx < p.numFiles
    requires idx < p.scrollOffset + VISIBLE_ROWS
    ensures var v := DrawFileLine(p, idx);
      var r := Screen(p.files[..], p.numFiles, p.currentIdx, p.scrollOffset, p.active)[idx - p.scrollOffset];
      v.Some? && r.FileRow? && v.value.row == idx - p.scrollOffset + 2 &&
      v.value.name == r.name && v.value.sizeKb == r.sizeKb && v.value.inverse == r.inverse &&
      (v.value.selector == r.selector <==> !Marked(p.files[idx]))
  {
  }
}
