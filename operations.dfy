/** The panel operations of operations.c over the catalogue entries: the
    directory loader with extent merging, deleting and copying the file under
    the cursor or a given one, and the batch copy and delete over the
    selected entries. The BDOS is the device of module Cpm; the directory
    search is given as the list of its answers. */
module Operations {
  import opened Common
  import opened Directory
  import opened Catalog
  import opened Cpm
  import Fcb

  const QUERY: byte := '?' as byte

  /** The search block load_directory leaves in `fcb_src`: current drive,
      '?' over name, type, EX, S1, S2 and RC, zeros after. */
  const WILDCARD: seq<byte> := [0] + Fill(15, QUERY) + Fill(20, 0)

  /** A panel as operations.c uses it. */
  class Panel {
    var files: array<FileEntry>
    var numFiles: int
    var currentIdx: int
    var scrollOffset: int
    var drive: byte

    ghost predicate Valid()
      reads this
    {
      files.Length == MAX_FILES && 0 <= numFiles <= MAX_FILES
    }

    /** The entries the panel shows. */
    ghost function Entries(): seq<FileEntry>
      reads this, files
      requires Valid()
    {
      files[..numFiles]
    }

    /** A panel on `drive` before its first load. */
    constructor (drive: byte)
      ensures Valid() && fresh(files)
      ensures this.drive == drive && numFiles == 0 && currentIdx == 0 && scrollOffset == 0
    {
      files := new FileEntry[MAX_FILES](_ => FileEntry([DOT], 0, 0, 0, NO_DATE));
      numFiles := 0;
      currentIdx := 0;
      scrollOffset := 0;
      this.drive := drive;
    }
  }

  /** The catalogue load_directory builds from the search answers, given what
      the sort leaves in the array (`arrange`, see the README): the stored
      entries, sorted, marked extents squeezed out, sizes formed. */
  function Built(hits: seq<SearchHit>, arrange: seq<FileEntry> -> seq<FileEntry>): (r: seq<FileEntry>)
    requires WellFormedHits(hits)
    ensures forall i :: 0 <= i < |r| ==> !IsMarked(r[i])
  {
    UnmarkedClean(arrange(Gathered(hits)));
    Sized(Unmarked(arrange(Gathered(hits))))
  }

  /** A catalogue never holds more than MAX_FILES entries nor a marked one. */
  lemma BuiltBounds(hits: seq<SearchHit>, arrange: seq<FileEntry> -> seq<FileEntry>)
    requires WellFormedHits(hits)
    requires forall s :: |arrange(s)| == |s|
    ensures |Built(hits, arrange)| <= MAX_FILES
    ensures forall i :: 0 <= i < |Built(hits, arrange)| ==> !IsMarked(Built(hits, arrange)[i])
  {
    GatheredBounds(hits);
    UnmarkedExactly(arrange(Gathered(hits)));
  }

  /** The search loop: store the decoded non-erased answers until the
      answers run out or MAX_FILES are stored. */
  method StoreEntries(files: array<FileEntry>, hits: seq<SearchHit>) returns (count: nat)
    requires files.Length == MAX_FILES && WellFormedHits(hits)
    modifies files
    ensures count == |Gathered(hits)| && files[..count] == Gathered(hits)
  {
    count := 0;
    var i := 0;
    while i < |hits| && count < MAX_FILES
      invariant 0 <= i <= |hits|
      invariant count == |Live(hits[..i])| <= MAX_FILES
      invariant WellFormedHits(Live(hits[..i]))
      invariant files[..count] == DecodeAll(Live(hits[..i]))
    {
      count := StoreOne(files, hits, i, count);
      i := i + 1;
    }
    GatheredAtStop(hits, i);
  }

  /** One turn of the search loop: answer `i` is decoded and stored unless
      it is an erased record. */
  method StoreOne(files: array<FileEntry>, hits: seq<SearchHit>, i: nat, count: nat) returns (next: nat)
    requires files.Length == MAX_FILES && WellFormedHits(hits) && i < |hits| && count < MAX_FILES
    requires count == |Live(hits[..i])| && WellFormedHits(Live(hits[..i]))
    requires files[..count] == DecodeAll(Live(hits[..i]))
    modifies files
    ensures next <= count + 1
    ensures next == |Live(hits[..i + 1])| && WellFormedHits(Live(hits[..i + 1]))
    ensures files[..next] == DecodeAll(Live(hits[..i + 1]))
  {
    LiveSnoc(hits, i);
    next := count;
    if !IsErased(hits[i]) {
      var e := DecodeRecord(hits[i]);
      DecodeAllSnoc(Live(hits[..i]), hits[i]);
      ghost var before := files[..];
      files[count] := e;
      StoredSlot(before, files[..], count, e);
      next := count + 1;
    }
  }

  lemma StoredSlot(before: seq<FileEntry>, after: seq<FileEntry>, n: nat, e: FileEntry)
    requires n < |before| && after == before[n := e]
    ensures after[..n + 1] == before[..n] + [e]
  {
  }

  /** The steps of load_directory after the search: sort, squeeze out the
      marked extents, form the sizes. */
  method BuildCatalog(files: array<FileEntry>, hits: seq<SearchHit>,
                      arrange: seq<FileEntry> -> seq<FileEntry>) returns (count: nat)
    requires files.Length == MAX_FILES && WellFormedHits(hits)
    requires forall s :: |arrange(s)| == |s|
    modifies files
    ensures count <= MAX_FILES && files[..count] == Built(hits, arrange)
  {
    count := StoreEntries(files, hits);
    var sorted := arrange(files[..count]);
    forall k | 0 <= k < count {
      files[k] := sorted[k];
    }
    assert files[..count] == sorted;
    ghost var gathered := Gathered(hits);
    assert sorted == arrange(gathered);
    count := TrimMarkedTail(files, count);
    assert Unmarked(files[..count]) == Unmarked(sorted);
    count := SqueezeMarked(files, count);
    ghost var kept := files[..count];
    assert kept == Unmarked(sorted);
    SetSizes(files, count);
    assert files[..count] == Sized(kept);
  }

  /** load_directory. */
  method LoadDirectory(p: Panel, fcbs: Fcb.FcbBuffers, dev: Bdos, hits: seq<SearchHit>,
                       arrange: seq<FileEntry> -> seq<FileEntry>)
    requires p.Valid() && fcbs.Valid() && WellFormedHits(hits)
    requires forall s :: |arrange(s)| == |s|
    modifies p, p.files, fcbs.src, dev
    ensures p.Valid() && p.files == old(p.files)
    ensures p.Entries() == Built(hits, arrange)
    ensures p.currentIdx == 0 && p.scrollOffset == 0
    ensures var (calls, used, drive) := LoadCalls(old(p.drive), old(dev.replies));
      p.drive == drive && dev.trace == old(dev.trace) + calls && dev.replies == Drop(old(dev.replies), used)
    ensures fcbs.src[..] == WILDCARD
  {
    p.numFiles := 0;
    p.currentIdx := 0;
    p.scrollOffset := 0;
    p.drive := SelectDrive(dev, p.drive);
    forall i | 0 <= i < Fcb.FCB_SIZE {
      fcbs.src[i] := if 1 <= i < 16 then QUERY else 0;
    }
    assert fcbs.src[..] == WILDCARD;
    ghost var trace, replies := dev.trace, dev.replies;
    var count := BuildCatalog(p.files, hits, arrange);
    p.numFiles := count;
    assert dev.trace == trace && dev.replies == replies;
  }

  // ---------------------------------------------------------------------
  // Single-file operations

  /** delete_file: -1 on an empty panel, otherwise the answer of BDOS 19
      for the block of the entry under the cursor. */
  method DeleteFile(p: Panel, fcbs: Fcb.FcbBuffers, dev: Bdos) returns (r: int)
    requires p.Valid() && fcbs.Valid() && 0 <= p.currentIdx < MAX_FILES
    modifies fcbs.src, fcbs.dst, dev
    ensures fcbs.dst[..] == old(fcbs.dst[..])
    ensures p.numFiles == 0 ==>
      r == -1 && dev.trace == old(dev.trace) && dev.replies == old(dev.replies) && fcbs.src[..] == old(fcbs.src[..])
    ensures p.numFiles != 0 ==>
      var block := Fcb.FcbImage(p.drive, p.files[p.currentIdx].cpmname);
      fcbs.src[..] == block && r == Reply(old(dev.replies), 0) &&
      dev.trace == old(dev.trace) + [WithFcb(F_DELETE, block)] && dev.replies == Drop(old(dev.replies), 1)
  {
    if p.numFiles == 0 {
      return -1;
    }
    fcbs.PrepareFcb(p.files[p.currentIdx].cpmname, Some(p.drive), None);
    r := dev.Invoke(WithFcb(F_DELETE, fcbs.src[..]));
  }

  /** copy_file: -1 on an empty source panel; otherwise the copy protocol on
      the blocks of the entry under the cursor on the two drives, with -2
      when the source does not open, -3 when the destination cannot be
      created, 0 after the transfer. */
  method CopyFile(src: Panel, dst: Panel, fcbs: Fcb.FcbBuffers, dev: Bdos) returns (r: int)
    requires src.Valid() && fcbs.Valid() && 0 <= src.currentIdx < MAX_FILES
    modifies fcbs.src, fcbs.dst, dev
    ensures src.numFiles == 0 ==> r == -1 && dev.trace == old(dev.trace) && dev.replies == old(dev.replies)
    ensures src.numFiles != 0 ==>
      var name := src.files[src.currentIdx].cpmname;
      var (calls, used, outcome) := CopyProtocol(Fcb.FcbImage(src.drive, name), Fcb.FcbImage(dst.drive, name), old(dev.replies));
      dev.trace == old(dev.trace) + calls && dev.replies == Drop(old(dev.replies), used) &&
      r == CopyFileCode(outcome)
    ensures r == 0 || r == -1 || r == -2 || r == -3
  {
    if src.numFiles == 0 {
      return -1;
    }
    var name := src.files[src.currentIdx].cpmname;
    fcbs.PrepareFcb(name, Some(src.drive), Some(dst.drive));
    var outcome := RunCopy(dev, fcbs.src[..], fcbs.dst[..]);
    r := CopyFileCode(outcome);
  }

  /** copy_file_by_index: the copy protocol for entry `idx`, with no check
      of the panel's size; -1 when open or create fail, else 0. */
  method CopyFileByIndex(src: Panel, dst: Panel, fcbs: Fcb.FcbBuffers, dev: Bdos, idx: nat) returns (r: int)
    requires src.Valid() && fcbs.Valid() && idx < MAX_FILES
    modifies fcbs.src, fcbs.dst, dev
    ensures var name := src.files[idx].cpmname;
      var (calls, used, outcome) := CopyProtocol(Fcb.FcbImage(src.drive, name), Fcb.FcbImage(dst.drive, name), old(dev.replies));
      dev.trace == old(dev.trace) + calls && dev.replies == Drop(old(dev.replies), used) &&
      r == IndexCopyCode(outcome)
  {
    var name := src.files[idx].cpmname;
    fcbs.PrepareFcb(name, Some(src.drive), Some(dst.drive));
    var outcome := RunCopy(dev, fcbs.src[..], fcbs.dst[..]);
    r := IndexCopyCode(outcome);
  }

  // ---------------------------------------------------------------------
  // Batch operations

  predicate Selected(e: FileEntry) {
    e.attrib & B_SEL != 0
  }

  /** `attrib &= ~B_SEL`. */
  function Unselect(e: FileEntry): (u: FileEntry)
    ensures !Selected(u) && u.(attrib := e.attrib) == e
    ensures forall i :: 0 <= i < 8 && Bit(i) != B_SEL ==> (HasBit(u.attrib, i) <==> HasBit(e.attrib, i))
  {
    e.(attrib := e.attrib & !B_SEL)
  }

  /** The indices of the selected entries, ascending. */
  function SelectedIndices(s: seq<FileEntry>): (r: seq<nat>)
    ensures forall j :: 0 <= j < |r| ==> r[j] < |s|
    decreases |s|
  {
    if s == [] then []
    else SelectedIndices(s[..|s| - 1]) + (if Selected(s[|s| - 1]) then [|s| - 1] else [])
  }

  lemma SelectedIndicesSnoc(s: seq<FileEntry>, i: nat)
    requires i < |s|
    ensures SelectedIndices(s[..i + 1]) == SelectedIndices(s[..i]) + (if Selected(s[i]) then [i] else [])
  {
    assert s[..i + 1][..i] == s[..i];
  }

  /** SelectedIndices lists exactly the selected entries, each once, in
      ascending order. */
  lemma {:induction false} SelectedIndicesExactly(s: seq<FileEntry>)
    ensures var r := SelectedIndices(s);
      (forall j, k :: 0 <= j < k < |r| ==> r[j] < r[k]) &&
      (forall i :: 0 <= i < |s| ==> (Selected(s[i]) <==> i in r))
    decreases |s|
  {
    if s != [] {
      var init := s[..|s| - 1];
      SelectedIndicesExactly(init);
      forall i | 0 <= i < |s| - 1 ensures s[i] == init[i] { }
    }
  }

  /** The entries a batch operation acts on: the selected ones in order, or
      the entry under the cursor when none is selected. */
  function Targets(s: seq<FileEntry>, current: nat): (t: seq<nat>)
    ensures |t| > 0
    ensures SelectedIndices(s) == [] ==> t == [current]
  {
    var sel := SelectedIndices(s);
    if sel == [] then [current] else sel
  }

  /** The flags after a batch: B_SEL cleared on the first `n` entries, all
      else as before. */
  function ClearSelected(s: seq<FileEntry>, n: nat): (r: seq<FileEntry>)
    ensures |r| == |s|
  {
    seq(|s|, k requires 0 <= k < |s| => if k < n && Selected(s[k]) then Unselect(s[k]) else s[k])
  }

  /** Clearing the flags changes only the selected entries among the first
      `n`, and only in their B_SEL bit; with nothing selected it changes nothing. */
  lemma ClearSelectedEffect(s: seq<FileEntry>, n: nat)
    requires n <= |s|
    ensures forall k :: 0 <= k < |s| ==> ClearSelected(s, n)[k].(attrib := s[k].attrib) == s[k]
    ensures forall k :: 0 <= k < n ==> !Selected(ClearSelected(s, n)[k])
    ensures forall k :: 0 <= k < |s| && !(k < n && Selected(s[k])) ==> ClearSelected(s, n)[k] == s[k]
    ensures SelectedIndices(s[..n]) == [] ==> ClearSelected(s, n) == s
  {
    if SelectedIndices(s[..n]) == [] {
      SelectedIndicesExactly(s[..n]);
      forall k | 0 <= k < n ensures !Selected(s[k]) {
        assert s[..n][k] == s[k];
      }
    }
  }

  lemma ClearSelectedStep(s: seq<FileEntry>, i: nat, cur: seq<FileEntry>)
    requires i < |s| && cur == ClearSelected(s, i)
    ensures ClearSelected(s, i + 1) == cur[i := if Selected(s[i]) then Unselect(s[i]) else s[i]]
  {
  }

  /** The blocks prepare_fcb builds for the entries at `idx`: each name on
      the source drive and on the destination drive. */
  function Blocks(srcDrive: byte, dstDrive: byte, s: seq<FileEntry>, idx: seq<nat>): (r: seq<BlockPair>)
    requires forall j :: 0 <= j < |idx| ==> idx[j] < |s|
    ensures |r| == |idx|
    ensures forall j :: 0 <= j < |idx| ==>
      r[j] == (Fcb.FcbImage(srcDrive, s[idx[j]].cpmname), Fcb.FcbImage(dstDrive, s[idx[j]].cpmname))
  {
    seq(|idx|, j requires 0 <= j < |idx| =>
      (Fcb.FcbImage(srcDrive, s[idx[j]].cpmname), Fcb.FcbImage(dstDrive, s[idx[j]].cpmname)))
  }

  lemma BlocksSnoc(srcDrive: byte, dstDrive: byte, s: seq<FileEntry>, idx: seq<nat>, k: nat)
    requires forall j :: 0 <= j < |idx| ==> idx[j] < |s|
    requires k < |s|
    ensures Blocks(srcDrive, dstDrive, s, idx + [k]) ==
      Blocks(srcDrive, dstDrive, s, idx) + [(Fcb.FcbImage(srcDrive, s[k].cpmname), Fcb.FcbImage(dstDrive, s[k].cpmname))]
  {
  }

  /** Counting loop of the batch functions. */
  method CountSelected(files: array<FileEntry>, n: int) returns (marked: nat)
    requires 0 <= n <= files.Length
    ensures marked == |SelectedIndices(files[..n])|
  {
    marked := 0;
    var i := 0;
    while i < n
      invariant 0 <= i <= n
      invariant marked == |SelectedIndices(files[..i])|
    {
      assert files[..i + 1][..i] == files[..i];
      if Selected(files[i]) {
        marked := marked + 1;
      }
      i := i + 1;
    }
  }

  /** The loop of exec_multi_copy over a panel with entries selected: copy
      each selected entry in order and clear its flag. */
  method CopySelected(src: Panel, dst: Panel, fcbs: Fcb.FcbBuffers, dev: Bdos)
    requires src.Valid() && fcbs.Valid()
    modifies src.files, fcbs.src, fcbs.dst, dev
    ensures var was := old(src.files[..]);
      var copies := CopyEach(Blocks(src.drive, dst.drive, was, SelectedIndices(was[..src.numFiles])), old(dev.replies));
      dev.trace == old(dev.trace) + copies.0 && dev.replies == Drop(old(dev.replies), copies.1) &&
      src.files[..] == ClearSelected(was, src.numFiles)
  {
    ghost var was := src.files[..];
    ghost var rs := dev.replies;
    ghost var t0 := dev.trace;
    ghost var pairs: seq<BlockPair> := [];
    var i := 0;
    while i < src.numFiles
      invariant 0 <= i <= src.numFiles
      invariant src.files[..] == ClearSelected(was, i)
      invariant pairs == Blocks(src.drive, dst.drive, was, SelectedIndices(was[..i]))
      invariant dev.trace == t0 + CopyEach(pairs, rs).0
      invariant dev.replies == Drop(rs, CopyEach(pairs, rs).1)
    {
      pairs := CopyStep(src, dst, fcbs, dev, i, was, pairs, rs, t0);
      i := i + 1;
    }
    assert was[..src.numFiles] == was[..i];
  }

  /** One turn of CopySelected's loop: entry `i` is copied when selected,
      and its flag cleared. */
  method CopyStep(src: Panel, dst: Panel, fcbs: Fcb.FcbBuffers, dev: Bdos, i: nat,
                  ghost was: seq<FileEntry>, ghost pairs: seq<BlockPair>, ghost rs: seq<int>, ghost t0: seq<Call>)
    returns (ghost more: seq<BlockPair>)
    requires src.Valid() && fcbs.Valid() && i < src.numFiles && |was| == MAX_FILES
    requires src.files[..] == ClearSelected(was, i)
    requires pairs == Blocks(src.drive, dst.drive, was, SelectedIndices(was[..i]))
    requires dev.trace == t0 + CopyEach(pairs, rs).0 && dev.replies == Drop(rs, CopyEach(pairs, rs).1)
    modifies src.files, fcbs.src, fcbs.dst, dev
    ensures src.files[..] == ClearSelected(was, i + 1)
    ensures more == Blocks(src.drive, dst.drive, was, SelectedIndices(was[..i + 1]))
    ensures dev.trace == t0 + CopyEach(more, rs).0 && dev.replies == Drop(rs, CopyEach(more, rs).1)
  {
    ghost var done := SelectedIndices(was[..i]);
    SelectedIndicesSnoc(was, i);
    assert src.files[i] == was[i];
    ClearSelectedStep(was, i, src.files[..]);
    more := pairs;
    if Selected(src.files[i]) {
      var last := CopyOne(src, dst, fcbs, dev, i, pairs, rs, t0);
      BlocksSnoc(src.drive, dst.drive, was, done, i);
      more := pairs + [last];
    }
  }

  /** Copy entry `i` after the copies of `pairs` and clear its flag. */
  method CopyOne(src: Panel, dst: Panel, fcbs: Fcb.FcbBuffers, dev: Bdos, i: nat,
                 ghost pairs: seq<BlockPair>, ghost rs: seq<int>, ghost t0: seq<Call>)
    returns (ghost last: BlockPair)
    requires src.Valid() && fcbs.Valid() && i < MAX_FILES
    requires dev.trace == t0 + CopyEach(pairs, rs).0
    requires dev.replies == Drop(rs, CopyEach(pairs, rs).1)
    modifies src.files, fcbs.src, fcbs.dst, dev
    ensures var name := old(src.files[i]).cpmname;
      last == (Fcb.FcbImage(src.drive, name), Fcb.FcbImage(dst.drive, name))
    ensures dev.trace == t0 + CopyEach(pairs + [last], rs).0 && dev.replies == Drop(rs, CopyEach(pairs + [last], rs).1)
    ensures src.files[..] == old(src.files[..])[i := Unselect(old(src.files[i]))]
  {
    ghost var name := src.files[i].cpmname;
    last := (Fcb.FcbImage(src.drive, name), Fcb.FcbImage(dst.drive, name));
    var _ := CopyFileByIndex(src, dst, fcbs, dev, i);
    CopyEachAfter(pairs, last, rs, t0, dev.trace, dev.replies);
    src.files[i] := Unselect(src.files[i]);
  }

  /** The copying half of exec_multi_copy: the selected entries, or the one
      under the cursor when none is selected. */
  method CopyTargets(src: Panel, dst: Panel, fcbs: Fcb.FcbBuffers, dev: Bdos)
    requires src.Valid() && fcbs.Valid() && 0 <= src.currentIdx < MAX_FILES
    modifies src.files, fcbs.src, fcbs.dst, dev
    ensures var was := old(src.files[..]);
      var copies := CopyEach(Blocks(src.drive, dst.drive, was, Targets(was[..src.numFiles], src.currentIdx)), old(dev.replies));
      dev.trace == old(dev.trace) + copies.0 && dev.replies == Drop(old(dev.replies), copies.1) &&
      src.files[..] == ClearSelected(was, src.numFiles)
  {
    ghost var was := src.files[..];
    var marked := CountSelected(src.files, src.numFiles);
    assert src.files[..src.numFiles] == was[..src.numFiles];
    if marked == 0 {
      CopyCurrent(src, dst, fcbs, dev);
      ClearSelectedEffect(was, src.numFiles);
    } else {
      CopySelected(src, dst, fcbs, dev);
    }
  }

  /** copy_file_by_index on the entry under the cursor, as a batch of one. */
  method CopyCurrent(src: Panel, dst: Panel, fcbs: Fcb.FcbBuffers, dev: Bdos)
    requires src.Valid() && fcbs.Valid() && 0 <= src.currentIdx < MAX_FILES
    modifies fcbs.src, fcbs.dst, dev
    ensures var copies := CopyEach(Blocks(src.drive, dst.drive, src.files[..], [src.currentIdx]), old(dev.replies));
      dev.trace == old(dev.trace) + copies.0 && dev.replies == Drop(old(dev.replies), copies.1)
  {
    ghost var name := src.files[src.currentIdx].cpmname;
    ghost var last := (Fcb.FcbImage(src.drive, name), Fcb.FcbImage(dst.drive, name));
    assert Blocks(src.drive, dst.drive, src.files[..], [src.currentIdx]) == [last];
    CopyEachSingle(last, dev.replies);
    var _ := CopyFileByIndex(src, dst, fcbs, dev, src.currentIdx);
  }

  /** exec_multi_copy: copy every selected entry (or the one under the
      cursor when none is selected) to the other panel's drive, clear the
      flags of the copied entries, then reload the destination panel once. */
  method ExecMultiCopy(src: Panel, dst: Panel, fcbs: Fcb.FcbBuffers, dev: Bdos,
                       dstHits: seq<SearchHit>, arrange: seq<FileEntry> -> seq<FileEntry>)
    requires src.Valid() && dst.Valid() && fcbs.Valid() && src.files != dst.files && src != dst
    requires 0 <= src.currentIdx < MAX_FILES
    requires WellFormedHits(dstHits) && forall s :: |arrange(s)| == |s|
    modifies src.files, dst, dst.files, fcbs.src, fcbs.dst, dev
    ensures var was := old(src.files[..]);
      var targets := Targets(was[..src.numFiles], src.currentIdx);
      var copies := CopyEach(Blocks(src.drive, old(dst.drive), was, targets), old(dev.replies));
      var load := LoadCalls(old(dst.drive), Drop(old(dev.replies), copies.1));
      dev.trace == old(dev.trace) + copies.0 + load.0 &&
      dev.replies == Drop(Drop(old(dev.replies), copies.1), load.1) &&
      src.files[..] == ClearSelected(was, src.numFiles) &&
      dst.Valid() && dst.drive == load.2 && dst.Entries() == Built(dstHits, arrange) &&
      dst.currentIdx == 0 && dst.scrollOffset == 0
  {
    CopyTargets(src, dst, fcbs, dev);
    ghost var cleared := src.files[..];
    LoadDirectory(dst, fcbs, dev, dstHits, arrange);
    assert src.files[..] == cleared;
  }

  /** The delete calls for the entries at `idx`, in order, each on the
      entry's block on `drive`. */
  function DeleteCalls(drive: byte, s: seq<FileEntry>, idx: seq<nat>): (r: seq<Call>)
    requires forall j :: 0 <= j < |idx| ==> idx[j] < |s|
    ensures |r| == |idx|
    ensures forall j :: 0 <= j < |idx| ==> r[j] == WithFcb(F_DELETE, Fcb.FcbImage(drive, s[idx[j]].cpmname))
  {
    seq(|idx|, j requires 0 <= j < |idx| => WithFcb(F_DELETE, Fcb.FcbImage(drive, s[idx[j]].cpmname)))
  }

  lemma DeleteCallsSnoc(drive: byte, s: seq<FileEntry>, idx: seq<nat>, k: nat)
    requires forall j :: 0 <= j < |idx| ==> idx[j] < |s|
    requires k < |s|
    ensures DeleteCalls(drive, s, idx + [k]) == DeleteCalls(drive, s, idx) + [WithFcb(F_DELETE, Fcb.FcbImage(drive, s[k].cpmname))]
  {
  }

  /** The entries exec_multi_delete deletes: none on an empty panel,
      otherwise the batch targets. */
  function DeleteTargets(s: seq<FileEntry>, n: nat, current: nat): (t: seq<nat>)
    requires n <= |s|
    ensures n == 0 ==> t == []
    ensures n > 0 && SelectedIndices(s[..n]) == [] ==> t == [current]
    ensures SelectedIndices(s[..n]) != [] ==> t == SelectedIndices(s[..n])
  {
    if n == 0 then [] else Targets(s[..n], current)
  }

  /** The loop of exec_multi_delete over a panel with entries selected:
      delete each selected entry in order and clear its flag. */
  method DeleteSelected(p: Panel, fcbs: Fcb.FcbBuffers, dev: Bdos)
    requires p.Valid() && fcbs.Valid()
    modifies p.files, fcbs.src, fcbs.dst, dev
    ensures var was := old(p.files[..]);
      var sel := SelectedIndices(was[..p.numFiles]);
      dev.trace == old(dev.trace) + DeleteCalls(p.drive, was, sel) && dev.replies == Drop(old(dev.replies), |sel|) &&
      p.files[..] == ClearSelected(was, p.numFiles)
    ensures fcbs.dst[..] == old(fcbs.dst[..])
  {
    ghost var was := p.files[..];
    ghost var rs := dev.replies;
    ghost var t0 := dev.trace;
    ghost var calls: seq<Call> := [];
    var i := 0;
    while i < p.numFiles
      invariant 0 <= i <= p.numFiles
      invariant p.files[..] == ClearSelected(was, i)
      invariant calls == DeleteCalls(p.drive, was, SelectedIndices(was[..i]))
      invariant dev.trace == t0 + calls && dev.replies == Drop(rs, |calls|)
      invariant fcbs.dst[..] == old(fcbs.dst[..])
    {
      calls := DeleteStep(p, fcbs, dev, i, was, calls, rs, t0);
      i := i + 1;
    }
    assert was[..p.numFiles] == was[..i];
  }

  /** One turn of DeleteSelected's loop: entry `i` is deleted when selected,
      and its flag cleared. */
  method DeleteStep(p: Panel, fcbs: Fcb.FcbBuffers, dev: Bdos, i: nat,
                    ghost was: seq<FileEntry>, ghost calls: seq<Call>, ghost rs: seq<int>, ghost t0: seq<Call>)
    returns (ghost more: seq<Call>)
    requires p.Valid() && fcbs.Valid() && i < p.numFiles && |was| == MAX_FILES
    requires p.files[..] == ClearSelected(was, i)
    requires calls == DeleteCalls(p.drive, was, SelectedIndices(was[..i]))
    requires dev.trace == t0 + calls && dev.replies == Drop(rs, |calls|)
    modifies p.files, fcbs.src, fcbs.dst, dev
    ensures p.files[..] == ClearSelected(was, i + 1)
    ensures more == DeleteCalls(p.drive, was, SelectedIndices(was[..i + 1]))
    ensures dev.trace == t0 + more && dev.replies == Drop(rs, |more|)
    ensures fcbs.dst[..] == old(fcbs.dst[..])
  {
    ghost var done := SelectedIndices(was[..i]);
    SelectedIndicesSnoc(was, i);
    assert p.files[i] == was[i];
    ClearSelectedStep(was, i, p.files[..]);
    more := calls;
    if Selected(p.files[i]) {
      var call := DeleteOne(p, fcbs, dev, i);
      DropDrop(rs, |calls|, 1);
      DeleteCallsSnoc(p.drive, was, done, i);
      ConcatAssoc(t0, calls, [call]);
      more := calls + [call];
    }
  }

  /** Delete entry `i` of the panel and clear its flag. */
  method DeleteOne(p: Panel, fcbs: Fcb.FcbBuffers, dev: Bdos, i: nat) returns (call: Call)
    requires p.Valid() && fcbs.Valid() && i < MAX_FILES
    modifies p.files, fcbs.src, fcbs.dst, dev
    ensures call == WithFcb(F_DELETE, Fcb.FcbImage(p.drive, old(p.files[i]).cpmname))
    ensures dev.trace == old(dev.trace) + [call] && dev.replies == Drop(old(dev.replies), 1)
    ensures p.files[..] == old(p.files[..])[i := Unselect(old(p.files[i]))]
    ensures fcbs.dst[..] == old(fcbs.dst[..])
  {
    fcbs.PrepareFcb(p.files[i].cpmname, Some(p.drive), None);
    call := WithFcb(F_DELETE, fcbs.src[..]);
    var _ := dev.Invoke(call);
    p.files[i] := Unselect(p.files[i]);
  }

  /** exec_multi_delete: delete every selected entry (or the one under the
      cursor when none is selected, nothing on an empty panel) and clear
      the flags of the deleted entries. The panel is not reloaded. */
  method ExecMultiDelete(p: Panel, fcbs: Fcb.FcbBuffers, dev: Bdos)
    requires p.Valid() && fcbs.Valid() && 0 <= p.currentIdx < MAX_FILES
    modifies p.files, fcbs.src, fcbs.dst, dev
    ensures var was := old(p.files[..]);
      var targets := DeleteTargets(was, p.numFiles, p.currentIdx);
      dev.trace == old(dev.trace) + DeleteCalls(p.drive, was, targets) &&
      dev.replies == Drop(old(dev.replies), |targets|) &&
      p.files[..] == ClearSelected(was, p.numFiles)
  {
    ghost var was := p.files[..];
    var marked := CountSelected(p.files, p.numFiles);
    assert p.files[..p.numFiles] == was[..p.numFiles];
    if marked == 0 {
      var _ := DeleteFile(p, fcbs, dev);
      ClearSelectedEffect(was, p.numFiles);
      if p.numFiles > 0 {
        assert DeleteCalls(p.drive, was, [p.currentIdx]) == [WithFcb(F_DELETE, Fcb.FcbImage(p.drive, was[p.currentIdx].cpmname))];
      } else {
        assert dev.replies == Drop(old(dev.replies), 0);
      }
    } else {
      DeleteSelected(p, fcbs, dev);
    }
  }
}
