/** The commander's main program (main.c): two panels, one with the focus,
    driven by a key loop. Keys are the bytes the console port returns; a
    directory search is the listing the BDOS would return, taken from a
    queue of listings (an empty listing once it runs out); what the screen
    shows after a key is the list of rows drawn. The separate vt100.c
    decoder is not the one main.c uses: main.c decodes escape sequences
    itself, and its F5 code differs. */
module Commander {
  import opened Common
  import opened Directory
  import opened Cpm
  import opened Zmc
  import opened PanelView
  import Fcb
  import Operaciones
  import Vt100

  function B(c: char): byte
    requires c as int < 256
  {
    c as byte
  }

  // ---------------------------------------------------------------------
  // Key decoding

  /** What one turn of the key loop acts on. `FunctionOne` is `ESC [ 1 x`
      with x neither '6' nor '9': only a redraw. `NoKey` is any other byte
      or sequence, which does nothing. */
  datatype Key = SwitchPanel | ChangeDrive(raw: byte) | Quit | ToggleMark
               | CursorUp | CursorDown | PageUpKey | PageDownKey
               | CopyKey(confirm: byte) | DeleteKey(confirm: byte) | FunctionOne
               | HelpKey | ViewKey | DumpKey | NoKey

  /** The key the loop acts on next and the number of bytes it reads for
      it, or None when it would wait for a byte `input` does not hold. */
  function DecodeKey(input: seq<byte>): (r: Option<(Key, nat)>)
    ensures r.Some? ==> 1 <= r.value.1 <= |input| && r.value.1 <= 6
    ensures |input| >= 6 ==> r.Some?
  {
    if |input| == 0 then None
    else
      var k := input[0];
      if k == TAB then Some((SwitchPanel, 1))
      else if k == B('u') || k == B('U') then
        if |input| < 2 then None else Some((ChangeDrive(input[1]), 2))
      else if k == CTRL_X then Some((Quit, 1))
      else if k == SPACE then Some((ToggleMark, 1))
      else if k == ESC then
        if |input| < 2 then None
        else if input[1] == B('[') then
          if |input| < 3 then None
          else
            var c := input[2];
            if c == B('A') then Some((CursorUp, 3))
            else if c == B('B') then Some((CursorDown, 3))
            // the byte after '5' or '6' is read as the '~', whatever it is
            else if c == B('5') then (if |input| < 4 then None else Some((PageUpKey, 4)))
            else if c == B('6') then (if |input| < 4 then None else Some((PageDownKey, 4)))
            else if c == B('1') then
              if |input| < 4 then None
              else if input[3] == B('6') then (if |input| < 6 then None else Some((CopyKey(input[5]), 6)))
              else if input[3] == B('9') then (if |input| < 6 then None else Some((DeleteKey(input[5]), 6)))
              else Some((FunctionOne, 4))
            else Some((NoKey, 3))
        else if input[1] == B('O') then
          if |input| < 3 then None
          else if input[2] == B('P') then (if |input| < 4 then None else Some((HelpKey, 4)))
          else if input[2] == B('R') then Some((ViewKey, 3))
          else if input[2] == B('S') then Some((DumpKey, 3))
          else Some((NoKey, 3))
        else Some((NoKey, 2))
      else Some((NoKey, 1))
  }

  /** The decoder reads nothing past the bytes of the key it returns. */
  lemma DecodeReadsOnlyUsed(input: seq<byte>, rest: seq<byte>)
    requires DecodeKey(input).Some?
    ensures DecodeKey(input[..DecodeKey(input).value.1] + rest) == DecodeKey(input)
  {
    var u := DecodeKey(input).value.1;
    var s := input[..u] + rest;
    assert forall i :: 0 <= i < u ==> s[i] == input[i];
  }

  /** The loop leaves exactly on a Ctrl-X read as a key of its own. */
  lemma QuitOnlyOnCtrlX(input: seq<byte>)
    ensures (DecodeKey(input).Some? && DecodeKey(input).value.0 == Quit) <==> (|input| > 0 && input[0] == CTRL_X)
    ensures |input| > 0 && input[0] == CTRL_X ==> DecodeKey(input) == Some((Quit, 1))
  {
  }

  /** F8 sends `ESC [ 1 9 ~` on both decoders, and the key after it is
      the confirmation. */
  lemma DeleteCodesAgree(confirm: byte, rest: seq<byte>)
    ensures DecodeKey([ESC] + Vt100.Code(Vt100.Delete) + [confirm] + rest) == Some((DeleteKey(confirm), 6))
    ensures Vt100.ParseFunctionKeys(B('['), Vt100.Code(Vt100.Delete)[1..] + [confirm] + rest) == Some(Vt100.Parsed(Vt100.Delete, 3, true))
  {
    Vt100.CodeDispatches(Vt100.Delete, [confirm] + rest);
    assert [ESC] + Vt100.Code(Vt100.Delete) + [confirm] + rest == [ESC, B('['), B('1'), B('9'), TILDE, confirm] + rest;
    assert Vt100.Code(Vt100.Delete)[1..] + [confirm] + rest == Vt100.Code(Vt100.Delete)[1..] + ([confirm] + rest);
  }

  /** The F5 codes disagree: main.c takes `ESC [ 1 6 ~` for F5 while the
      vt100.c decoder takes `ESC [ 1 5 ~`. Sent to main.c, vt100's F5 is a
      bare redraw and leaves its '~' to be read as a key of its own; sent to
      vt100.c, main's F5 dispatches nothing. */
  lemma CopyCodesDisagree(confirm: byte, rest: seq<byte>)
    ensures DecodeKey([ESC] + Vt100.Code(Vt100.Copy) + rest) == Some((FunctionOne, 4))
    ensures ([ESC] + Vt100.Code(Vt100.Copy) + rest)[4] == TILDE && DecodeKey([TILDE] + rest) == Some((NoKey, 1))
    ensures DecodeKey([ESC, B('['), B('1'), B('6'), TILDE, confirm] + rest) == Some((CopyKey(confirm), 6))
    ensures Vt100.ParseFunctionKeys(B('['), [B('1'), B('6'), TILDE] + rest) == Some(Vt100.Parsed(Vt100.NoCommand, 3, true))
  {
    assert [ESC] + Vt100.Code(Vt100.Copy) + rest == [ESC, B('['), B('1'), B('5'), TILDE] + rest;
  }

  /** The keys the loop reads from `input`, the bytes they take, and
      whether it left on Ctrl-X (the last key is then Quit). Otherwise the
      loop is waiting for a key the input does not hold. */
  function KeyStream(input: seq<byte>): (t: (seq<Key>, nat, bool))
    ensures t.1 <= |input|
    decreases |input|
  {
    var next := DecodeKey(input);
    if next.None? then ([], 0, false)
    else
      var (k, u) := next.value;
      if k == Quit then ([Quit], u, true)
      else
        var t := KeyStream(input[u..]);
        ([k] + t.0, u + t.1, t.2)
  }

  /** The loop leaves exactly when it reads Quit, and Quit is then the last
      key read; otherwise it stops waiting for a key the input does not
      complete. */
  lemma {:induction false} KeyStreamStops(input: seq<byte>)
    ensures var (keys, used, quit) := KeyStream(input);
      (quit <==> Quit in keys) && (quit ==> keys[|keys| - 1] == Quit) &&
      (!quit ==> DecodeKey(input[used..]).None?)
    decreases |input|
  {
    var next := DecodeKey(input);
    if next.None? {
      assert input[0..] == input;
    } else if next.value.0 != Quit {
      var (k, u) := next.value;
      var t := KeyStream(input[u..]);
      KeyStreamStops(input[u..]);
      var keys := [k] + t.0;
      assert KeyStream(input) == (keys, u + t.1, t.2);
      assert Quit in keys <==> Quit in t.0;
      if t.2 {
        assert keys[|keys| - 1] == t.0[|t.0| - 1];
      } else {
        assert input[u..][t.1..] == input[u + t.1..];
      }
    }
  }

  /** Without a Ctrl-X byte in the input the loop never leaves. */
  lemma {:induction false} NoCtrlXNoQuit(input: seq<byte>)
    requires forall j :: 0 <= j < |input| ==> input[j] != CTRL_X
    ensures !KeyStream(input).2
    decreases |input|
  {
    match DecodeKey(input)
    case None =>
    case Some((k, u)) =>
      QuitOnlyOnCtrlX(input);
      NoCtrlXNoQuit(input[u..]);
  }

  // ---------------------------------------------------------------------
  // What the keys compute

  /** The drive key: lower-case letters are folded to upper case. */
  function FoldDrive(c: byte): (d: byte)
    ensures B('a') <= c <= B('z') ==> d as int == c as int - 32
    ensures !(B('a') <= c <= B('z')) ==> d == c
    ensures B('A') <= d <= B('Z') <==> (B('A') <= c <= B('Z') || B('a') <= c <= B('z'))
  {
    if B('a') <= c <= B('z') then c - 32 else c
  }

  /** Space: `!seleccionado`. */
  function Flip(x: int): (y: int)
    ensures y == 0 || y == 1
    ensures y != 0 <==> x == 0
  {
    if x == 0 then 1 else 0
  }

  /** Marking twice restores whether a file is marked. */
  lemma FlipTwice(x: int)
    ensures (Flip(Flip(x)) != 0) == (x != 0)
  {
  }

  /** The PgUp step: 18 rows up, stopping at the first file. */
  function PageUpIdx(cur: int): (r: int)
    ensures 0 <= r
    ensures cur >= 0 ==> r <= cur && cur - r <= 18
    ensures r == 0 || r == cur - 18
  {
    if cur >= 18 then cur - 18 else 0
  }

  /** The PgDn step as main.c writes it: 18 rows down, clamped to the last
      file, which is -1 on an empty panel. */
  function PageDownAsWritten(cur: int, n: int): (r: int)
    ensures r <= cur + 18
    ensures cur + 18 >= n ==> r == n - 1
  {
    if cur + 18 >= n then n - 1 else cur + 18
  }

  /** On an empty panel PgDn puts the cursor at -1, the redraw then starts
      the window at file -1, and the first row is drawn from files[-1]:
      the adjusted first row is negative, outside what draw_panel can draw. */
  lemma PageDownAsWrittenLeavesList(cur: int, scroll: int)
    requires 0 <= cur && 0 <= scroll
    ensures PageDownAsWritten(cur, 0) == -1
    ensures ClampScroll(PageDownAsWritten(cur, 0), scroll) == -1
    ensures !(ClampScroll(PageDownAsWritten(cur, 0), scroll) >= 0)
  {
  }

  /** The PgDn step as intended: 18 rows down, clamped to the last file,
      and to the first row on an empty panel. This is the step the model's
      key loop takes. */
  function PageDownIdx(cur: int, n: int): (r: int)
    requires 0 <= cur
    ensures 0 <= r && (r == 0 || r < n)
    ensures cur <= r || r == Max(n - 1, 0)
    ensures r - cur <= 18
    ensures n > 0 ==> r == PageDownAsWritten(cur, n)
  {
    if cur + 18 >= n then Max(n - 1, 0) else cur + 18
  }

  /** PgDn then PgUp returns to the same file when PgDn did not stop at
      the end of the list, and PgUp then PgDn does when PgUp did not stop
      at its start. */
  lemma PagingReturns(cur: int, n: int)
    requires 0 <= cur
    ensures cur + 18 < n ==> PageUpIdx(PageDownIdx(cur, n)) == cur
    ensures 18 <= cur < n ==> PageDownIdx(PageUpIdx(cur), n) == cur
  {
  }

  /** A "yes" to a confirmation prompt. */
  predicate Confirms(c: byte) {
    c == B('s') || c == B('S')
  }

  // ---------------------------------------------------------------------
  // The two panels

  /** A panel's state as values: its entries, count, cursor, first visible
      row, drive and focus flag. */
  datatype PanelState = PanelState(files: seq<FileEntry>, numFiles: int, cur: int, scroll: int,
                                   drive: byte, active: bool)

  ghost function View(p: Panel): PanelState
    reads p, p.files
  {
    PanelState(p.files[..], p.numFiles, p.currentIdx, p.scrollOffset, p.drive, p.active)
  }

  /** A panel of the zero-initialised application state. */
  function Initial(drive: byte, active: bool): PanelState {
    PanelState(seq(MAX_FILES, _ => BLANK), 0, 0, 0, drive, active)
  }

  /** The state load_directory leaves a panel in. */
  ghost function Loaded(was: PanelState, hits: seq<SearchHit>, drive: byte): PanelState
    requires WellFormedHits(hits) && |was.files| == MAX_FILES
  {
    Operaciones.FirstLiveWellFormed(hits);
    PanelState(Operaciones.Relisted(Operaciones.FirstLive(hits), was.files), |Operaciones.FirstLive(hits)|,
               0, 0, drive, was.active)
  }

  /** The BDOS calls, and the number of answers, of copiar_archivo from the
      panel `src` to drive `dstDrive`. */
  function CopyCalls(src: PanelState, dstDrive: byte, rs: seq<int>): (t: (seq<Call>, nat))
    requires 0 <= src.cur < |src.files|
    ensures t.1 == |t.0|
    ensures src.numFiles == 0 <==> t.0 == []
  {
    if src.numFiles == 0 then ([], 0)
    else
      var name := src.files[src.cur].name;
      var (calls, used, _) := CopyProtocol(Fcb.FcbImage(src.drive, name), Fcb.FcbImage(dstDrive, name), rs);
      assert calls != [] by { Cpm.CopyProtocolOutcome(Fcb.FcbImage(src.drive, name), Fcb.FcbImage(dstDrive, name), rs); }
      (calls, used)
  }

  /** The BDOS calls of borrar_archivo on the panel `p`. */
  function DeleteCalls(p: PanelState): (calls: seq<Call>)
    requires 0 <= p.cur < |p.files|
    ensures p.numFiles == 0 <==> calls == []
    ensures |calls| <= 1 && forall c :: c in calls ==> c.WithFcb? && c.fn == F_DELETE
  {
    if p.numFiles == 0 then [] else [WithFcb(F_DELETE, Fcb.FcbImage(p.drive, p.files[p.cur].name))]
  }

  /** What a key leaves on the screen: nothing, some redrawn lines, or both
      panels' rows. */
  datatype Drawing = NoDrawing | LineRedraw(lines: seq<Option<LineView>>) | FullRedraw(left: seq<Row>, right: seq<Row>)

  ghost predicate Drawable(s: PanelState) {
    0 <= s.scroll && s.numFiles <= |s.files|
  }

  /** refresh_ui's two panels. */
  ghost function Full(l: PanelState, r: PanelState): Drawing
    requires Drawable(l) && Drawable(r)
  {
    FullRedraw(Screen(l.files, l.numFiles, l.cur, l.scroll, l.active),
               Screen(r.files, r.numFiles, r.cur, r.scroll, r.active))
  }

  /** A cursor and first row a redraw can show: neither negative, and the
      cursor on a listed file or on the first row. */
  ghost predicate Tidy(p: Panel)
    reads p
  {
    0 <= p.currentIdx && 0 <= p.scrollOffset && (p.currentIdx == 0 || p.currentIdx < p.numFiles)
  }

  /** The cursor is inside the window. */
  ghost predicate Settled(p: Panel)
    reads p
  {
    p.scrollOffset <= p.currentIdx < p.scrollOffset + VISIBLE_ROWS
  }

  /** The listing queue after one directory search. */
  function NextDir(dirs: seq<seq<SearchHit>>): seq<SearchHit> {
    if |dirs| == 0 then [] else dirs[0]
  }

  function RestDirs(dirs: seq<seq<SearchHit>>): seq<seq<SearchHit>> {
    if |dirs| == 0 then [] else dirs[1..]
  }

  ghost predicate AllWellFormed(dirs: seq<seq<SearchHit>>) {
    forall j :: 0 <= j < |dirs| ==> WellFormedHits(dirs[j])
  }

  /** Whether a key makes BDOS calls: a drive change to a letter, and a
      confirmed copy or delete. */
  predicate Loads(k: Key) {
    match k
    case ChangeDrive(c) => B('A') <= FoldDrive(c) <= B('Z')
    case CopyKey(c) => Confirms(c)
    case DeleteKey(c) => Confirms(c)
    case _ => false
  }

  /** The `AppState` of main.c: the two panels and the one with the focus. */
  class App {
    const left: Panel
    const right: Panel
    var activePanel: Panel

    constructor (l: Panel, r: Panel)
      ensures left == l && right == r && activePanel == l
    {
      left := l;
      right := r;
      activePanel := l;
    }

    /** Two separate panels, exactly one of them with the focus and pointed
        to by activePanel. */
    ghost predicate Shape()
      reads this, left, right
    {
      left != right && left.files != right.files && left.Valid() && right.Valid() &&
      Tidy(left) && Tidy(right) &&
      (activePanel == left || activePanel == right) && activePanel.active && left.active != right.active
    }

    /** Between keys, also both cursors are on screen. */
    ghost predicate Valid()
      reads this, left, right
    {
      Shape() && Settled(left) && Settled(right)
    }

    function Other(): Panel
      reads this
    {
      if activePanel == left then right else left
    }

    /** refresh_ui: both panels are redrawn, each first scrolled so that
        its cursor is on screen. */
    method RefreshUi() returns (d: Drawing)
      requires Shape()
      modifies left`scrollOffset, right`scrollOffset
      ensures Valid()
      ensures left.scrollOffset == ClampScroll(left.currentIdx, old(left.scrollOffset))
      ensures right.scrollOffset == ClampScroll(right.currentIdx, old(right.scrollOffset))
      ensures Drawable(View(left)) && Drawable(View(right)) && d == Full(View(left), View(right))
    {
      var l := DrawPanel(left);
      var r := DrawPanel(right);
      d := FullRedraw(l, r);
    }

    /** refresh_ui between keys, when both cursors are already on screen:
        nothing scrolls. */
    method Redraw() returns (d: Drawing)
      requires Valid()
      modifies left`scrollOffset, right`scrollOffset
      ensures View(left) == old(View(left)) && View(right) == old(View(right))
      ensures Drawable(View(left)) && Drawable(View(right)) && d == Full(View(left), View(right))
    {
      d := RefreshUi();
    }

    /** TAB: the focus moves to the other panel, and only the two cursor
        lines are redrawn: the old one plain, the new one in inverse video. */
    method SwitchFocus() returns (d: Drawing)
      requires Valid()
      modifies this`activePanel, left`active, right`active
      ensures Valid()
      ensures left.active == !old(left.active) && right.active == !old(right.active)
      ensures activePanel == old(Other())
      ensures d == LineRedraw([DrawFileLine(left, left.currentIdx), DrawFileLine(right, right.currentIdx)])
      ensures d.lines[0].Some? && d.lines[0].value.inverse == left.active
      ensures d.lines[1].Some? && d.lines[1].value.inverse == right.active
    {
      var oldLeft := left.currentIdx;
      var oldRight := right.currentIdx;
      left.active := !left.active;
      right.active := !right.active;
      activePanel := if left.active then left else right;
      d := LineRedraw([DrawFileLine(left, oldLeft), DrawFileLine(right, oldRight)]);
    }

    /** U and a drive key: a letter selects that drive on the focused panel
        and reloads it; any other key only redraws. */
    method SelectDrive(raw: byte, dev: Bdos, hits: seq<SearchHit>) returns (d: Drawing)
      requires Valid() && WellFormedHits(hits)
      modifies activePanel, activePanel.files, dev, left`scrollOffset, right`scrollOffset
      ensures Valid() && activePanel == old(activePanel) && Other() == old(Other())
      ensures View(Other()) == old(View(Other()))
      ensures var c := FoldDrive(raw);
        if B('A') <= c <= B('Z') then
          View(activePanel) == Loaded(old(View(activePanel)), hits, c) &&
          dev.trace == old(dev.trace) + [WithValue(DRV_SET, c as int - 'A' as int)] && dev.replies == Drop(old(dev.replies), 1)
        else
          View(activePanel) == old(View(activePanel)) && dev.trace == old(dev.trace) && dev.replies == old(dev.replies)
      ensures Drawable(View(left)) && Drawable(View(right)) && d == Full(View(left), View(right))
    {
      var c := FoldDrive(raw);
      if B('A') <= c <= B('Z') {
        Reload(activePanel, c, dev, hits);
      }
      d := Redraw();
    }

    /** Space: flip the mark of the file under the cursor (on an empty panel,
        of the unused first entry), move the cursor down unless it is on the
        last file, redraw. */
    method ToggleMark() returns (d: Drawing)
      requires Valid()
      modifies activePanel`currentIdx, activePanel.files, left`scrollOffset, right`scrollOffset
      ensures Valid() && activePanel == old(activePanel)
      ensures View(Other()) == old(View(Other()))
      ensures var was := old(View(activePanel));
        var e := was.files[was.cur];
        var cur := if was.cur < was.numFiles - 1 then was.cur + 1 else was.cur;
        View(activePanel) == was.(files := was.files[was.cur := e.(seleccionado := Flip(e.seleccionado))],
                                  cur := cur, scroll := ClampScroll(cur, was.scroll))
      ensures Drawable(View(left)) && Drawable(View(right)) && d == Full(View(left), View(right))
    {
      var idx := activePanel.currentIdx;
      activePanel.files[idx] := activePanel.files[idx].(seleccionado := Flip(activePanel.files[idx].seleccionado));
      if idx < activePanel.numFiles - 1 {
        activePanel.currentIdx := activePanel.currentIdx + 1;
      }
      d := RefreshUi();
    }

    /** Up arrow: one file up unless on the first; a full redraw when the
        cursor leaves the window, otherwise the old line plain and the new
        one in inverse video. */
    method CursorUp() returns (d: Drawing)
      requires Valid()
      modifies activePanel`currentIdx, left`scrollOffset, right`scrollOffset
      ensures Valid() && activePanel == old(activePanel)
      ensures View(Other()) == old(View(Other()))
      ensures var was := old(View(activePanel));
        View(activePanel) == if was.cur > 0 then was.(cur := was.cur - 1, scroll := ClampScroll(was.cur - 1, was.scroll)) else was
      ensures old(activePanel.currentIdx) == 0 ==> d == NoDrawing
      ensures old(activePanel.currentIdx) > 0 && old(activePanel.currentIdx) - 1 < old(activePanel.scrollOffset) ==>
        Drawable(View(left)) && Drawable(View(right)) && d == Full(View(left), View(right))
      ensures old(activePanel.currentIdx) > 0 && old(activePanel.currentIdx) - 1 >= old(activePanel.scrollOffset) ==>
        d == LineRedraw([DrawFileLine(activePanel, old(activePanel.currentIdx)), DrawFileLine(activePanel, activePanel.currentIdx)]) &&
        d.lines[0].Some? && !d.lines[0].value.inverse && d.lines[1].Some? && d.lines[1].value.inverse
    {
      d := NoDrawing;
      if activePanel.currentIdx > 0 {
        var oldIdx := activePanel.currentIdx;
        activePanel.currentIdx := activePanel.currentIdx - 1;
        if activePanel.currentIdx < activePanel.scrollOffset {
          d := RefreshUi();
        } else {
          d := LineRedraw([DrawFileLine(activePanel, oldIdx), DrawFileLine(activePanel, activePanel.currentIdx)]);
        }
      }
    }

    /** Down arrow: one file down unless on the last; redrawn as for Up. */
    method CursorDown() returns (d: Drawing)
      requires Valid()
      modifies activePanel`currentIdx, left`scrollOffset, right`scrollOffset
      ensures Valid() && activePanel == old(activePanel)
      ensures View(Other()) == old(View(Other()))
      ensures var was := old(View(activePanel));
        View(activePanel) == if was.cur < was.numFiles - 1 then was.(cur := was.cur + 1, scroll := ClampScroll(was.cur + 1, was.scroll)) else was
      ensures !(old(activePanel.currentIdx) < old(activePanel.numFiles) - 1) ==> d == NoDrawing
      ensures old(activePanel.currentIdx) < old(activePanel.numFiles) - 1 &&
              old(activePanel.currentIdx) + 1 >= old(activePanel.scrollOffset) + VISIBLE_ROWS ==>
        Drawable(View(left)) && Drawable(View(right)) && d == Full(View(left), View(right))
      ensures old(activePanel.currentIdx) < old(activePanel.numFiles) - 1 &&
              old(activePanel.currentIdx) + 1 < old(activePanel.scrollOffset) + VISIBLE_ROWS ==>
        d == LineRedraw([DrawFileLine(activePanel, old(activePanel.currentIdx)), DrawFileLine(activePanel, activePanel.currentIdx)]) &&
        d.lines[0].Some? && !d.lines[0].value.inverse && d.lines[1].Some? && d.lines[1].value.inverse
    {
      d := NoDrawing;
      if activePanel.currentIdx < activePanel.numFiles - 1 {
        var oldIdx := activePanel.currentIdx;
        activePanel.currentIdx := activePanel.currentIdx + 1;
        if activePanel.currentIdx >= activePanel.scrollOffset + VISIBLE_ROWS {
          d := RefreshUi();
        } else {
          d := LineRedraw([DrawFileLine(activePanel, oldIdx), DrawFileLine(activePanel, activePanel.currentIdx)]);
        }
      }
    }

    /** PgUp or PgDn: the cursor moves by PageUpIdx or PageDownIdx, then
        both panels are redrawn. */
    method Page(down: bool) returns (d: Drawing)
      requires Valid()
      modifies activePanel`currentIdx, left`scrollOffset, right`scrollOffset
      ensures Valid() && activePanel == old(activePanel)
      ensures View(Other()) == old(View(Other()))
      ensures var was := old(View(activePanel));
        var cur := if down then PageDownIdx(was.cur, was.numFiles) else PageUpIdx(was.cur);
        View(activePanel) == was.(cur := cur, scroll := ClampScroll(cur, was.scroll))
      ensures Drawable(View(left)) && Drawable(View(right)) && d == Full(View(left), View(right))
    {
      if down {
        activePanel.currentIdx := PageDownIdx(activePanel.currentIdx, activePanel.numFiles);
      } else {
        activePanel.currentIdx := PageUpIdx(activePanel.currentIdx);
      }
      d := RefreshUi();
    }

    /** F5 and its confirmation: on 's' or 'S' the file under the cursor is
        copied to the other panel's drive and that panel is reloaded; in
        every case both panels are redrawn. */
    method CopyToOther(confirm: byte, dev: Bdos, hits: seq<SearchHit>) returns (d: Drawing)
      requires Valid() && WellFormedHits(hits)
      modifies Other(), Other().files, dev, left`scrollOffset, right`scrollOffset
      ensures Valid() && activePanel == old(activePanel) && Other() == old(Other())
      ensures View(activePanel) == old(View(activePanel))
      ensures if Confirms(confirm) then
          var dst := old(View(Other()));
          var (cc, cu) := CopyCalls(old(View(activePanel)), dst.drive, old(dev.replies));
          var (lc, lu, drive) := LoadCalls(dst.drive, Drop(old(dev.replies), cu));
          View(Other()) == Loaded(dst, hits, drive) &&
          dev.trace == old(dev.trace) + cc + lc && dev.replies == Drop(Drop(old(dev.replies), cu), lu)
        else
          View(Other()) == old(View(Other())) && dev.trace == old(dev.trace) && dev.replies == old(dev.replies)
      ensures Drawable(View(left)) && Drawable(View(right)) && d == Full(View(left), View(right))
    {
      var dest := Other();
      if Confirms(confirm) {
        CopyAndReload(activePanel, dest, dev, hits);
      }
      d := Redraw();
    }

    /** F8 and its confirmation: on 's' or 'S' the file under the cursor is
        deleted and the focused panel is reloaded; in every case both panels
        are redrawn. */
    method DeleteCurrent(confirm: byte, dev: Bdos, hits: seq<SearchHit>) returns (d: Drawing)
      requires Valid() && WellFormedHits(hits)
      modifies activePanel, activePanel.files, dev, left`scrollOffset, right`scrollOffset
      ensures Valid() && activePanel == old(activePanel) && Other() == old(Other())
      ensures View(Other()) == old(View(Other()))
      ensures if Confirms(confirm) then
          var was := old(View(activePanel));
          var dc := DeleteCalls(was);
          var (lc, lu, drive) := LoadCalls(was.drive, Drop(old(dev.replies), |dc|));
          View(activePanel) == Loaded(was, hits, drive) &&
          dev.trace == old(dev.trace) + dc + lc && dev.replies == Drop(Drop(old(dev.replies), |dc|), lu)
        else
          View(activePanel) == old(View(activePanel)) && dev.trace == old(dev.trace) && dev.replies == old(dev.replies)
      ensures Drawable(View(left)) && Drawable(View(right)) && d == Full(View(left), View(right))
    {
      if Confirms(confirm) {
        DeleteAndReload(activePanel, dev, hits);
      }
      d := Redraw();
    }

    /** One turn of the key loop for a key other than Ctrl-X. Only a drive
        change to a letter and a confirmed copy or delete call the BDOS, and
        each of them takes one listing from the queue. */
    method Step(k: Key, dev: Bdos, dirs: seq<seq<SearchHit>>) returns (d: Drawing, rest: seq<seq<SearchHit>>)
      requires Valid() && AllWellFormed(dirs) && k != Quit
      modifies this`activePanel, left, right, left.files, right.files, dev
      ensures Valid()
      ensures rest == (if Loads(k) then RestDirs(dirs) else dirs) && AllWellFormed(rest)
      ensures !Loads(k) ==> dev.trace == old(dev.trace) && dev.replies == old(dev.replies)
      ensures k.SwitchPanel? ==> activePanel == old(Other())
      ensures !k.SwitchPanel? ==> activePanel == old(activePanel)
    {
      if k.ChangeDrive? || k.CopyKey? || k.DeleteKey? {
        d, rest := DiskStep(k, dev, dirs);
      } else {
        d := ScreenStep(k);
        rest := dirs;
      }
    }

    /** The keys that call the BDOS when they go ahead. */
    method DiskStep(k: Key, dev: Bdos, dirs: seq<seq<SearchHit>>) returns (d: Drawing, rest: seq<seq<SearchHit>>)
      requires Valid() && AllWellFormed(dirs) && (k.ChangeDrive? || k.CopyKey? || k.DeleteKey?)
      modifies left, right, left.files, right.files, dev
      ensures Valid() && activePanel == old(activePanel)
      ensures rest == (if Loads(k) then RestDirs(dirs) else dirs) && AllWellFormed(rest)
      ensures !Loads(k) ==> dev.trace == old(dev.trace) && dev.replies == old(dev.replies)
    {
      rest := if Loads(k) then RestDirs(dirs) else dirs;
      match k
      case ChangeDrive(c) => d := SelectDrive(c, dev, NextDir(dirs));
      case CopyKey(c) => d := CopyToOther(c, dev, NextDir(dirs));
      case DeleteKey(c) => d := DeleteCurrent(c, dev, NextDir(dirs));
    }

    /** The keys that only move the cursor, mark, switch the focus or redraw. */
    method ScreenStep(k: Key) returns (d: Drawing)
      requires Valid() && !(k.ChangeDrive? || k.CopyKey? || k.DeleteKey? || k.Quit?)
      modifies this`activePanel, left, right, left.files, right.files
      ensures Valid()
      ensures k.SwitchPanel? ==> activePanel == old(Other())
      ensures !k.SwitchPanel? ==> activePanel == old(activePanel)
    {
      match k
      case SwitchPanel => d := SwitchFocus();
      case ToggleMark => d := ToggleMark();
      case CursorUp => d := CursorUp();
      case CursorDown => d := CursorDown();
      case PageUpKey => d := Page(false);
      case PageDownKey => d := Page(true);
      // F1 waits for a key (already read with the sequence); view_file and
      // dump_file are not part of this model
      case FunctionOne => d := Redraw();
      case HelpKey => d := Redraw();
      case ViewKey => d := Redraw();
      case DumpKey => d := Redraw();
      case NoKey => d := NoDrawing;
    }

    /** Step, seen from the key loop. */
    method Turn(k: Key, dev: Bdos, dirs: seq<seq<SearchHit>>) returns (d: Drawing, rest: seq<seq<SearchHit>>)
      requires Valid() && AllWellFormed(dirs) && k != Quit
      modifies this`activePanel, left, right, left.files, right.files, dev
      ensures Valid() && AllWellFormed(rest)
      ensures !Loads(k) ==> dev.trace == old(dev.trace)
    {
      d, rest := Step(k, dev, dirs);
    }

    /** The key loop of main: keys are read and acted on until Ctrl-X or
        until the input runs out, with one drawing per key acted on. */
    method Run(dev: Bdos, input: seq<byte>, dirs: seq<seq<SearchHit>>) returns (drawings: seq<Drawing>, used: nat, quit: bool)
      requires Valid() && AllWellFormed(dirs)
      modifies this`activePanel, left, right, left.files, right.files, dev
      ensures Valid()
      ensures var (keys, u, q) := KeyStream(input);
        used == u && quit == q && |drawings| == |keys| - (if q then 1 else 0)
      ensures Quiet(KeyStream(input).0) ==> dev.trace == old(dev.trace)
    {
      var rest := input;
      var ds := dirs;
      drawings := [];
      ghost var seen: seq<Key> := [];
      ghost var quiet := true;
      while true
        invariant Valid() && AllWellFormed(ds)
        invariant Scanned(input, seen, rest)
        invariant |drawings| == |seen|
        invariant quiet == Quiet(seen)
        invariant quiet ==> dev.trace == old(dev.trace)
        decreases |rest|
      {
        var next := DecodeKey(rest);
        if next.None? {
          ScannedEnd(input, seen, rest);
          return drawings, |input| - |rest|, false;
        }
        var (k, u) := next.value;
        if k == Quit {
          ScannedQuit(input, seen, rest, u);
          QuietSnoc(seen, Quit);
          return drawings, |input| - |rest| + u, true;
        }
        ScannedStep(input, seen, rest, k, u);
        var d;
        d, ds := Turn(k, dev, ds);
        QuietSnoc(seen, k);
        drawings := drawings + [d];
        seen := seen + [k];
        quiet := quiet && !Loads(k);
        rest := rest[u..];
      }
    }
  }

  /** The loop's bookkeeping: `seen` are the keys read so far and `rest`
      the input still to read. */
  predicate Scanned(input: seq<byte>, seen: seq<Key>, rest: seq<byte>) {
    |rest| <= |input| &&
    KeyStream(input).0 == seen + KeyStream(rest).0 &&
    KeyStream(input).1 == |input| - |rest| + KeyStream(rest).1 &&
    KeyStream(input).2 == KeyStream(rest).2
  }

  /** When the input runs out the keys read are the whole stream. */
  lemma ScannedEnd(input: seq<byte>, seen: seq<Key>, rest: seq<byte>)
    requires Scanned(input, seen, rest) && DecodeKey(rest).None?
    ensures KeyStream(input).0 == seen && KeyStream(input).1 == |input| - |rest| && !KeyStream(input).2
  {
    assert KeyStream(rest) == ([], 0, false);
  }

  /** Ctrl-X ends the stream. */
  lemma ScannedQuit(input: seq<byte>, seen: seq<Key>, rest: seq<byte>, u: nat)
    requires Scanned(input, seen, rest) && DecodeKey(rest) == Some((Quit, u))
    ensures KeyStream(input).0 == seen + [Quit] && KeyStream(input).1 == |input| - |rest| + u && KeyStream(input).2
  {
    assert KeyStream(rest) == ([Quit], u, true);
  }

  /** Reading one more key keeps the bookkeeping. */
  lemma ScannedStep(input: seq<byte>, seen: seq<Key>, rest: seq<byte>, k: Key, u: nat)
    requires Scanned(input, seen, rest) && DecodeKey(rest) == Some((k, u)) && k != Quit
    ensures u <= |rest| && Scanned(input, seen + [k], rest[u..])
  {
    var t := KeyStream(rest[u..]);
    assert KeyStream(rest) == ([k] + t.0, u + t.1, t.2);
    assert seen + ([k] + t.0) == (seen + [k]) + t.0;
  }

  /** No key of `keys` calls the BDOS. */
  predicate Quiet(keys: seq<Key>) {
    forall j :: 0 <= j < |keys| ==> !Loads(keys[j])
  }

  lemma QuietSnoc(seen: seq<Key>, k: Key)
    ensures Quiet(seen + [k]) <==> Quiet(seen) && !Loads(k)
  {
    if Quiet(seen + [k]) {
      assert (seen + [k])[|seen|] == k;
      forall j | 0 <= j < |seen| ensures !Loads(seen[j]) {
        assert (seen + [k])[j] == seen[j];
      }
    }
  }

  /** The drive key's reload: the panel's drive is set to a letter, then
      load_directory. */
  method Reload(p: Panel, drive: byte, dev: Bdos, hits: seq<SearchHit>)
    requires p.Valid() && WellFormedHits(hits) && drive != AT
    modifies p, p.files, dev
    ensures p.Valid() && p.active == old(p.active)
    ensures p.currentIdx == 0 && p.scrollOffset == 0
    ensures View(p) == Loaded(old(View(p)), hits, drive)
    ensures dev.trace == old(dev.trace) + [WithValue(DRV_SET, drive as int - 'A' as int)] && dev.replies == Drop(old(dev.replies), 1)
  {
    p.drive := drive;
    Operaciones.LoadDirectory(p, dev, hits);
  }

  /** copiar_archivo from `src` to `dst`, then load_directory of `dst`. */
  method CopyAndReload(src: Panel, dst: Panel, dev: Bdos, hits: seq<SearchHit>)
    requires src != dst && src.files != dst.files && src.Valid() && dst.Valid() && WellFormedHits(hits)
    requires 0 <= src.currentIdx < MAX_FILES
    modifies dst, dst.files, dev
    ensures dst.Valid() && dst.active == old(dst.active)
    ensures dst.currentIdx == 0 && dst.scrollOffset == 0
    ensures var (cc, cu) := CopyCalls(old(View(src)), old(dst.drive), old(dev.replies));
      var (lc, lu, drive) := LoadCalls(old(dst.drive), Drop(old(dev.replies), cu));
      View(dst) == Loaded(old(View(dst)), hits, drive) &&
      dev.trace == old(dev.trace) + cc + lc && dev.replies == Drop(Drop(old(dev.replies), cu), lu)
  {
    ghost var was, trace0, replies0 := View(dst), dev.trace, dev.replies;
    ghost var cc := CopyCalls(View(src), dst.drive, replies0);
    var _ := Operaciones.CopiarArchivo(src, dst, dev);
    assert dev.trace == trace0 + cc.0 && dev.replies == Drop(replies0, cc.1);
    assert View(dst) == was;
    Operaciones.LoadDirectory(dst, dev, hits);
  }

  /** borrar_archivo on `p`, then load_directory of `p`. */
  method DeleteAndReload(p: Panel, dev: Bdos, hits: seq<SearchHit>)
    requires p.Valid() && WellFormedHits(hits) && 0 <= p.currentIdx < MAX_FILES
    modifies p, p.files, dev
    ensures p.Valid() && p.active == old(p.active)
    ensures p.currentIdx == 0 && p.scrollOffset == 0
    ensures var dc := DeleteCalls(old(View(p)));
      var (lc, lu, drive) := LoadCalls(old(p.drive), Drop(old(dev.replies), |dc|));
      View(p) == Loaded(old(View(p)), hits, drive) &&
      dev.trace == old(dev.trace) + dc + lc && dev.replies == Drop(Drop(old(dev.replies), |dc|), lu)
  {
    ghost var was, trace0, replies0 := View(p), dev.trace, dev.replies;
    var _ := Operaciones.BorrarArchivo(p, dev);
    assert dev.trace == trace0 + DeleteCalls(was) && dev.replies == Drop(replies0, |DeleteCalls(was)|);
    Operaciones.LoadDirectory(p, dev, hits);
  }

  /** The start of main: the left panel on drive A with the focus, the
      right one on drive B, both loaded, then both drawn. */
  method Startup(dev: Bdos, dirs: seq<seq<SearchHit>>) returns (app: App, d: Drawing, rest: seq<seq<SearchHit>>)
    requires AllWellFormed(dirs)
    modifies dev
    ensures fresh(app) && fresh(app.left) && fresh(app.right) && fresh(app.left.files) && fresh(app.right.files)
    ensures app.Valid() && app.activePanel == app.left
    ensures View(app.left) == Loaded(Initial(B('A'), true), NextDir(dirs), B('A'))
    ensures View(app.right) == Loaded(Initial(B('B'), false), NextDir(RestDirs(dirs)), B('B'))
    ensures rest == RestDirs(RestDirs(dirs)) && AllWellFormed(rest)
    ensures dev.trace == old(dev.trace) + [WithValue(DRV_SET, 0), WithValue(DRV_SET, 1)]
    ensures dev.replies == Drop(Drop(old(dev.replies), 1), 1)
    ensures Drawable(View(app.left)) && Drawable(View(app.right)) && d == Full(View(app.left), View(app.right))
  {
    var l := new Panel(B('A'), true);
    var r := new Panel(B('B'), false);
    app := new App(l, r);
    Operaciones.LoadDirectory(l, dev, NextDir(dirs));
    Operaciones.LoadDirectory(r, dev, NextDir(RestDirs(dirs)));
    rest := RestDirs(RestDirs(dirs));
    d := app.RefreshUi();
  }
}
