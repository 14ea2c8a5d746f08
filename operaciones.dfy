/** The panel operations of operaciones.c over the entries of zmc.h: the
    directory loader (one entry per non-erased record, no extent merging),
    deleting and copying the entry under the cursor or a given one, and the
    batch copy and delete over the entries whose `seleccionado` flag is set.
    The blocks are local arrays filled by the same loops as in operations.c;
    the BDOS is the device of module Cpm and the directory search is given as
    the list of its answers. */
module Operaciones {
  import opened Common
  import opened Directory
  import opened Cpm
  import opened Zmc
  import Fcb
  import Catalog

  // ---------------------------------------------------------------------
  // The loader

  /** `(rc * 128) / 1024`, raised to 1 for an extent that holds records:
      whole kilobytes rounded down, but never 0 for a non-empty extent.
      (`rc * 128` is at most 32640 and fits the 16-bit `int`.) */
  function SizeKb(rc: byte): (kb: nat)
    ensures kb == 0 <==> rc == 0
    ensures kb <= rc as int
    ensures rc >= 8 ==> kb * 1024 <= rc as int * 128 < kb * 1024 + 1024
    ensures 0 < rc < 8 ==> kb == 1
  {
    var k := (rc as int * 128) / 1024;
    if k == 0 && rc > 0 then 1 else k
  }

  /** The records the loop lists: the non-erased answers, in order, cut off
      after MAX_FILES of them. */
  function FirstLive(hits: seq<SearchHit>): (r: seq<SearchHit>)
    ensures |r| <= MAX_FILES
  {
    var live := Catalog.Live(hits);
    if |live| <= MAX_FILES then live else live[..MAX_FILES]
  }

  /** Slot `k` of the array after `live` has been listed over `was`: the
      first |live| slots get the record's display name and size, every slot
      keeps its `seleccionado` flag, the others are left as they were. */
  function Relisted(live: seq<SearchHit>, was: seq<FileEntry>): (r: seq<FileEntry>)
    requires WellFormedHits(live) && |live| <= |was|
    ensures |r| == |was|
  {
    seq(|was|, k requires 0 <= k < |was| =>
      if k < |live|
      then was[k].(name := FormatName(live[k].entry.name, live[k].entry.typ), sizeKb := SizeKb(live[k].entry.rc))
      else was[k])
  }

  lemma FirstLiveWellFormed(hits: seq<SearchHit>)
    requires WellFormedHits(hits)
    ensures WellFormedHits(FirstLive(hits))
  {
    Catalog.LiveWellFormed(hits);
  }

  /** What a reload lists: one entry per non-erased record up to MAX_FILES,
      named "NAME.EXT" from the record with its size in kilobytes; the
      selection flags of the array are not reset, and the slots past the
      listing keep their old entries. */
  lemma ListingShape(hits: seq<SearchHit>, was: seq<FileEntry>)
    requires WellFormedHits(hits) && |was| == MAX_FILES
    ensures WellFormedHits(FirstLive(hits))
    ensures var live, n := Catalog.Live(hits), |FirstLive(hits)|;
      var r := Relisted(FirstLive(hits), was);
      n == Min(|live|, MAX_FILES) &&
      (forall k :: 0 <= k < n ==>
        r[k].name == FormatName(live[k].entry.name, live[k].entry.typ) &&
        |r[k].name| <= 12 && DOT in r[k].name &&
        r[k].sizeKb == SizeKb(live[k].entry.rc)) &&
      (forall k :: 0 <= k < |was| ==> r[k].seleccionado == was[k].seleccionado) &&
      (forall k :: n <= k < |was| ==> r[k] == was[k])
  {
    FirstLiveWellFormed(hits);
    var live := Catalog.Live(hits);
    Catalog.LiveWellFormed(hits);
    var first := FirstLive(hits);
    var n := |first|;
    var r := Relisted(first, was);
    forall k | 0 <= k < n
      ensures r[k].name == FormatName(live[k].entry.name, live[k].entry.typ)
      ensures |r[k].name| <= 12 && DOT in r[k].name
      ensures r[k].sizeKb == SizeKb(live[k].entry.rc)
    {
      assert first[k] == live[k];
      FormatNameFits(live[k].entry.name, live[k].entry.typ);
    }
    forall k | 0 <= k < |was| ensures r[k].seleccionado == was[k].seleccionado {
    }
    forall k | n <= k < |was| ensures r[k] == was[k] {
    }
  }

  /** A reload over a marked entry leaves the new entry in that slot marked,
      whichever file it now names. */
  lemma ReloadKeepsMarks(hits: seq<SearchHit>, was: seq<FileEntry>, k: nat)
    requires WellFormedHits(hits) && |was| == MAX_FILES && k < MAX_FILES
    requires Marked(was[k])
    ensures WellFormedHits(FirstLive(hits))
    ensures Marked(Relisted(FirstLive(hits), was)[k])
  {
    FirstLiveWellFormed(hits);
  }

  /** The search loop: list the non-erased answers until they run out or
      MAX_FILES are listed. */
  method StoreListing(files: array<FileEntry>, hits: seq<SearchHit>) returns (count: nat)
    requires files.Length == MAX_FILES && WellFormedHits(hits)
    modifies files
    ensures WellFormedHits(FirstLive(hits))
    ensures count == |FirstLive(hits)| && files[..] == Relisted(FirstLive(hits), old(files[..]))
  {
    ghost var was := files[..];
    count := 0;
    var i := 0;
    while i < |hits| && count < MAX_FILES
      invariant 0 <= i <= |hits|
      invariant count == |Catalog.Live(hits[..i])| <= MAX_FILES
      invariant WellFormedHits(Catalog.Live(hits[..i]))
      invariant files[..] == Relisted(Catalog.Live(hits[..i]), was)
    {
      count := ListOne(files, hits, i, count, was);
      i := i + 1;
    }
    FirstLiveAtStop(hits, i);
  }

  /** One turn of the search loop: answer `i` fills the name and size of
      slot `count` unless it is an erased record. */
  method ListOne(files: array<FileEntry>, hits: seq<SearchHit>, i: nat, count: nat, ghost was: seq<FileEntry>)
    returns (next: nat)
    requires files.Length == MAX_FILES && |was| == MAX_FILES && WellFormedHits(hits) && i < |hits| && count < MAX_FILES
    requires count == |Catalog.Live(hits[..i])| && WellFormedHits(Catalog.Live(hits[..i]))
    requires files[..] == Relisted(Catalog.Live(hits[..i]), was)
    modifies files
    ensures next <= count + 1
    ensures next == |Catalog.Live(hits[..i + 1])| && WellFormedHits(Catalog.Live(hits[..i + 1]))
    ensures files[..] == Relisted(Catalog.Live(hits[..i + 1]), was)
  {
    Catalog.LiveSnoc(hits, i);
    ghost var live := Catalog.Live(hits[..i]);
    next := count;
    if !IsErased(hits[i]) {
      var d := hits[i].entry;
      ghost var before := files[..];
      files[count] := files[count].(name := FormatName(d.name, d.typ), sizeKb := SizeKb(d.rc));
      RelistedSnoc(live, hits[i], was, before, files[..]);
      next := count + 1;
    }
  }

  /** Listing one more record fills the next slot and nothing else. */
  lemma RelistedSnoc(live: seq<SearchHit>, h: SearchHit, was: seq<FileEntry>, before: seq<FileEntry>, after: seq<FileEntry>)
    requires WellFormedHits(live) && WellFormedHit(h) && |live| < |was|
    requires before == Relisted(live, was)
    requires after == before[|live| := before[|live|].(name := FormatName(h.entry.name, h.entry.typ), sizeKb := SizeKb(h.entry.rc))]
    ensures WellFormedHits(live + [h])
    ensures after == Relisted(live + [h], was)
  {
  }

  /** Where the search loop stops, at the end of the answers or with
      MAX_FILES entries listed, it has listed FirstLive. */
  lemma FirstLiveAtStop(hits: seq<SearchHit>, i: nat)
    requires i <= |hits|
    requires |Catalog.Live(hits[..i])| <= MAX_FILES
    requires i == |hits| || |Catalog.Live(hits[..i])| == MAX_FILES
    ensures Catalog.Live(hits[..i]) == FirstLive(hits)
  {
    var pre := Catalog.Live(hits[..i]);
    assert hits == hits[..i] + hits[i..];
    Catalog.LiveConcat(hits[..i], hits[i..]);
    var live := Catalog.Live(hits);
    assert live[..|pre|] == pre;
    if i == |hits| {
      assert hits[i..] == [];
      assert live == pre;
    }
  }

  /** load_directory: reset the counters, resolve '@' and select the drive,
      then list the directory. */
  method LoadDirectory(p: Panel, dev: Bdos, hits: seq<SearchHit>)
    requires p.Valid() && WellFormedHits(hits)
    modifies p, p.files, dev
    ensures p.Valid() && p.active == old(p.active)
    ensures WellFormedHits(FirstLive(hits))
    ensures p.numFiles == |FirstLive(hits)| && p.files[..] == Relisted(FirstLive(hits), old(p.files[..]))
    ensures p.currentIdx == 0 && p.scrollOffset == 0
    ensures var (calls, used, drive) := LoadCalls(old(p.drive), old(dev.replies));
      p.drive == drive && dev.trace == old(dev.trace) + calls && dev.replies == Drop(old(dev.replies), used)
  {
    p.numFiles := 0;
    p.currentIdx := 0;
    p.scrollOffset := 0;
    p.drive := SelectDrive(dev, p.drive);
    ghost var trace, replies := dev.trace, dev.replies;
    var count := StoreListing(p.files, hits);
    p.numFiles := count;
    assert dev.trace == trace && dev.replies == replies;
  }

  // ---------------------------------------------------------------------
  // Single-file operations

  /** borrar_archivo: -1 on an empty panel, otherwise the answer of BDOS 19
      for the block of the entry under the cursor. */
  method BorrarArchivo(p: Panel, dev: Bdos) returns (r: int)
    requires p.Valid() && 0 <= p.currentIdx < MAX_FILES
    modifies dev
    ensures p.numFiles == 0 ==> r == -1 && dev.trace == old(dev.trace) && dev.replies == old(dev.replies)
    ensures p.numFiles != 0 ==>
      var block := Fcb.FcbImage(p.drive, p.files[p.currentIdx].name);
      r == Reply(old(dev.replies), 0) &&
      dev.trace == old(dev.trace) + [WithFcb(F_DELETE, block)] && dev.replies == Drop(old(dev.replies), 1)
  {
    if p.numFiles == 0 {
      return -1;
    }
    var fcb := new byte[Fcb.FCB_SIZE];
    var _ := Fcb.FillFcb(fcb, p.drive, p.files[p.currentIdx].name);
    r := dev.Invoke(WithFcb(F_DELETE, fcb[..]));
  }

  /** The fill loops of copiar_archivo and copiar_archivo_por_indice, which
      write each name byte into both blocks at once. */
  method FillFcbPair(a: array<byte>, b: array<byte>, da: byte, db: byte, name: CString)
    requires a.Length == Fcb.FCB_SIZE && b.Length == Fcb.FCB_SIZE && a != b
    modifies a, b
    ensures a[..] == Fcb.FcbImage(da, name) && b[..] == Fcb.FcbImage(db, name)
  {
    forall i | 0 <= i < Fcb.FCB_SIZE {
      a[i] := if i == 0 then Fcb.DriveCode(da) else if i < 12 then SPACE else 0;
    }
    forall i | 0 <= i < Fcb.FCB_SIZE {
      b[i] := if i == 0 then Fcb.DriveCode(db) else if i < 12 then SPACE else 0;
    }
    CopyStemPair(a, b, da, db, name);
    var p := 0;
    while At(name, p) != NUL && At(name, p) != DOT
      invariant 0 <= p <= |Fcb.Stem(name)|
      decreases |name| - p
    {
      p := p + 1;
    }
    if At(name, p) == DOT {
      p := p + 1;
      CopyTypePair(a, b, da, db, name, p);
    } else {
      assert Fcb.Prefix(Fcb.AfterDot(name), 3) == [];
    }
    Fcb.FcbImageSlots(da, name);
    Fcb.FcbImageSlots(db, name);
    assert a[..] == Fcb.FcbImage(da, name);
    assert b[..] == Fcb.FcbImage(db, name);
  }

  /** The stem loop of the paired fill. */
  method CopyStemPair(a: array<byte>, b: array<byte>, da: byte, db: byte, name: CString)
    requires a.Length == Fcb.FCB_SIZE && b.Length == Fcb.FCB_SIZE && a != b
    requires forall i :: 0 <= i < Fcb.FCB_SIZE ==> a[i] == Fcb.Slot(da, [], [], i)
    requires forall i :: 0 <= i < Fcb.FCB_SIZE ==> b[i] == Fcb.Slot(db, [], [], i)
    modifies a, b
    ensures forall i :: 0 <= i < Fcb.FCB_SIZE ==> a[i] == Fcb.Slot(da, Fcb.Prefix(Fcb.Stem(name), 8), [], i)
    ensures forall i :: 0 <= i < Fcb.FCB_SIZE ==> b[i] == Fcb.Slot(db, Fcb.Prefix(Fcb.Stem(name), 8), [], i)
  {
    var stem := Fcb.Stem(name);
    var j := 0;
    while j < 8 && At(name, j) != DOT && At(name, j) != NUL
      invariant 0 <= j <= 8 && j <= |stem|
      invariant forall i :: 0 <= i < Fcb.FCB_SIZE ==> a[i] == Fcb.Slot(da, stem[..j], [], i)
      invariant forall i :: 0 <= i < Fcb.FCB_SIZE ==> b[i] == Fcb.Slot(db, stem[..j], [], i)
    {
      b[1 + j] := name[j];
      a[1 + j] := name[j];
      j := j + 1;
    }
    assert stem[..j] == Fcb.Prefix(stem, 8);
  }

  /** The type loop of the paired fill, from just past the '.'. */
  method CopyTypePair(a: array<byte>, b: array<byte>, da: byte, db: byte, name: CString, p: nat)
    requires a.Length == Fcb.FCB_SIZE && b.Length == Fcb.FCB_SIZE && a != b
    requires 0 < p <= |name| && name[p - 1] == DOT && p - 1 == |Fcb.Stem(name)|
    requires forall i :: 0 <= i < Fcb.FCB_SIZE ==> a[i] == Fcb.Slot(da, Fcb.Prefix(Fcb.Stem(name), 8), [], i)
    requires forall i :: 0 <= i < Fcb.FCB_SIZE ==> b[i] == Fcb.Slot(db, Fcb.Prefix(Fcb.Stem(name), 8), [], i)
    modifies a, b
    ensures forall i :: 0 <= i < Fcb.FCB_SIZE ==>
      a[i] == Fcb.Slot(da, Fcb.Prefix(Fcb.Stem(name), 8), Fcb.Prefix(Fcb.AfterDot(name), 3), i)
    ensures forall i :: 0 <= i < Fcb.FCB_SIZE ==>
      b[i] == Fcb.Slot(db, Fcb.Prefix(Fcb.Stem(name), 8), Fcb.Prefix(Fcb.AfterDot(name), 3), i)
  {
    var stem := Fcb.Prefix(Fcb.Stem(name), 8);
    var after := Fcb.AfterDot(name);
    assert after == name[p..];
    var j := 0;
    while j < 3 && At(name, p + j) != NUL
      invariant 0 <= j <= 3 && j <= |after|
      invariant forall i :: 0 <= i < Fcb.FCB_SIZE ==> a[i] == Fcb.Slot(da, stem, after[..j], i)
      invariant forall i :: 0 <= i < Fcb.FCB_SIZE ==> b[i] == Fcb.Slot(db, stem, after[..j], i)
      invariant At(name, p + j) == At(after, j)
    {
      PutTypeByte(a, b, da, db, stem, after, j);
      j := j + 1;
    }
    assert after[..j] == Fcb.Prefix(after, 3);
  }

  /** `fcb_src[9+i] = fcb_dst[9+i] = name_ptr[i]`. */
  method PutTypeByte(a: array<byte>, b: array<byte>, da: byte, db: byte, stem: seq<byte>, after: seq<byte>, j: nat)
    requires a.Length == Fcb.FCB_SIZE && b.Length == Fcb.FCB_SIZE && a != b && j < 3 && j < |after|
    requires forall i :: 0 <= i < Fcb.FCB_SIZE ==> a[i] == Fcb.Slot(da, stem, after[..j], i)
    requires forall i :: 0 <= i < Fcb.FCB_SIZE ==> b[i] == Fcb.Slot(db, stem, after[..j], i)
    modifies a, b
    ensures forall i :: 0 <= i < Fcb.FCB_SIZE ==> a[i] == Fcb.Slot(da, stem, after[..j + 1], i)
    ensures forall i :: 0 <= i < Fcb.FCB_SIZE ==> b[i] == Fcb.Slot(db, stem, after[..j + 1], i)
  {
    b[9 + j] := after[j];
    a[9 + j] := after[j];
  }

  /** copiar_archivo: -1 on an empty source panel; otherwise the copy
      protocol on the blocks of the entry under the cursor on the two
      drives, with -2 when the source does not open, -3 when the
      destination cannot be created, 0 after the transfer. */
  method CopiarArchivo(src: Panel, dst: Panel, dev: Bdos) returns (r: int)
    requires src.Valid() && 0 <= src.currentIdx < MAX_FILES
    modifies dev
    ensures src.numFiles == 0 ==> r == -1 && dev.trace == old(dev.trace) && dev.replies == old(dev.replies)
    ensures src.numFiles != 0 ==>
      var name := src.files[src.currentIdx].name;
      var (calls, used, outcome) := CopyProtocol(Fcb.FcbImage(src.drive, name), Fcb.FcbImage(dst.drive, name), old(dev.replies));
      dev.trace == old(dev.trace) + calls && dev.replies == Drop(old(dev.replies), used) &&
      r == CopyFileCode(outcome)
    ensures r == 0 || r == -1 || r == -2 || r == -3
  {
    if src.numFiles == 0 {
      return -1;
    }
    var fcbSrc := new byte[Fcb.FCB_SIZE];
    var fcbDst := new byte[Fcb.FCB_SIZE];
    FillFcbPair(fcbSrc, fcbDst, src.drive, dst.drive, src.files[src.currentIdx].name);
    var outcome := RunCopy(dev, fcbSrc[..], fcbDst[..]);
    r := CopyFileCode(outcome);
  }

  /** copiar_archivo_por_indice: the copy protocol for entry `idx`, with no
      check of the panel's size; -1 when open or create fail, else 0. */
  method CopiarArchivoPorIndice(src: Panel, dst: Panel, dev: Bdos, idx: nat) returns (r: int)
    requires src.Valid() && idx < MAX_FILES
    modifies dev
    ensures var name := src.files[idx].name;
      var (calls, used, outcome) := CopyProtocol(Fcb.FcbImage(src.drive, name), Fcb.FcbImage(dst.drive, name), old(dev.replies));
      dev.trace == old(dev.trace) + calls && dev.replies == Drop(old(dev.replies), used) &&
      r == IndexCopyCode(outcome)
  {
    var fcbSrc := new byte[Fcb.FCB_SIZE];
    var fcbDst := new byte[Fcb.FCB_SIZE];
    FillFcbPair(fcbSrc, fcbDst, src.drive, dst.drive, src.files[idx].name);
    var outcome := RunCopy(dev, fcbSrc[..], fcbDst[..]);
    r := IndexCopyCode(outcome);
  }

  // ---------------------------------------------------------------------
  // Batch operations

  /** `seleccionado = 0`. */
  function Unmark(e: FileEntry): (u: FileEntry)
    ensures !Marked(u) && u.(seleccionado := e.seleccionado) == e
  {
    e.(seleccionado := 0)
  }

  /** The indices of the marked entries, ascending. */
  function MarkedIndices(s: seq<FileEntry>): (r: seq<nat>)
    ensures forall j :: 0 <= j < |r| ==> r[j] < |s|
    decreases |s|
  {
    if s == [] then []
    else MarkedIndices(s[..|s| - 1]) + (if Marked(s[|s| - 1]) then [|s| - 1] else [])
  }

  lemma MarkedIndicesSnoc(s: seq<FileEntry>, i: nat)
    requires i < |s|
    ensures MarkedIndices(s[..i + 1]) == MarkedIndices(s[..i]) + (if Marked(s[i]) then [i] else [])
  {
    assert s[..i + 1][..i] == s[..i];
  }

  /** MarkedIndices lists exactly the marked entries, each once, in
      ascending order. */
  lemma {:induction false} MarkedIndicesExactly(s: seq<FileEntry>)
    ensures var r := MarkedIndices(s);
      (forall j, k :: 0 <= j < k < |r| ==> r[j] < r[k]) &&
      (forall i :: 0 <= i < |s| ==> (Marked(s[i]) <==> i in r))
    decreases |s|
  {
    if s != [] {
      var init := s[..|s| - 1];
      MarkedIndicesExactly(init);
      forall i | 0 <= i < |s| - 1 ensures s[i] == init[i] { }
    }
  }

  /** The entries a batch acts on: the marked ones in order, or the entry
      under the cursor when none is marked. */
  function BatchTargets(s: seq<FileEntry>, current: nat): (t: seq<nat>)
    ensures |t| > 0
    ensures MarkedIndices(s) == [] ==> t == [current]
    ensures MarkedIndices(s) != [] ==> t == MarkedIndices(s)
  {
    var sel := MarkedIndices(s);
    if sel == [] then [current] else sel
  }

  /** The flags after a batch: `seleccionado` cleared on the marked entries
      among the first `n`, all else as before. */
  function ClearMarks(s: seq<FileEntry>, n: nat): (r: seq<FileEntry>)
    ensures |r| == |s|
  {
    seq(|s|, k requires 0 <= k < |s| => if k < n && Marked(s[k]) then Unmark(s[k]) else s[k])
  }

  /** Clearing the flags changes only the marked entries among the first
      `n`, and only their flag; with nothing marked it changes nothing. */
  lemma ClearMarksEffect(s: seq<FileEntry>, n: nat)
    requires n <= |s|
    ensures forall k :: 0 <= k < |s| ==> ClearMarks(s, n)[k].(seleccionado := s[k].seleccionado) == s[k]
    ensures forall k :: 0 <= k < n ==> !Marked(ClearMarks(s, n)[k])
    ensures forall k :: 0 <= k < |s| && !(k < n && Marked(s[k])) ==> ClearMarks(s, n)[k] == s[k]
    ensures MarkedIndices(s[..n]) == [] ==> ClearMarks(s, n) == s
  {
    if MarkedIndices(s[..n]) == [] {
      MarkedIndicesExactly(s[..n]);
      forall k | 0 <= k < n ensures !Marked(s[k]) {
        assert s[..n][k] == s[k];
      }
    }
  }

  lemma ClearMarksStep(s: seq<FileEntry>, i: nat, cur: seq<FileEntry>)
    requires i < |s| && cur == ClearMarks(s, i)
    ensures ClearMarks(s, i + 1) == cur[i := if Marked(s[i]) then Unmark(s[i]) else s[i]]
  {
  }

  /** The source and destination blocks of the entries at `idx`. */
  function Pairs(srcDrive: byte, dstDrive: byte, s: seq<FileEntry>, idx: seq<nat>): (r: seq<BlockPair>)
    requires forall j :: 0 <= j < |idx| ==> idx[j] < |s|
    ensures |r| == |idx|
    ensures forall j :: 0 <= j < |idx| ==>
      r[j] == (Fcb.FcbImage(srcDrive, s[idx[j]].name), Fcb.FcbImage(dstDrive, s[idx[j]].name))
  {
    seq(|idx|, j requires 0 <= j < |idx| =>
      (Fcb.FcbImage(srcDrive, s[idx[j]].name), Fcb.FcbImage(dstDrive, s[idx[j]].name)))
  }

  lemma PairsSnoc(srcDrive: byte, dstDrive: byte, s: seq<FileEntry>, idx: seq<nat>, k: nat)
    requires forall j :: 0 <= j < |idx| ==> idx[j] < |s|
    requires k < |s|
    ensures Pairs(srcDrive, dstDrive, s, idx + [k]) ==
      Pairs(srcDrive, dstDrive, s, idx) + [(Fcb.FcbImage(srcDrive, s[k].name), Fcb.FcbImage(dstDrive, s[k].name))]
  {
  }

  /** The counting loop of both batch functions. */
  method CountMarked(files: array<FileEntry>, n: int) returns (marked: nat)
    requires 0 <= n <= files.Length
    ensures marked == |MarkedIndices(files[..n])|
  {
    marked := 0;
    var i := 0;
    while i < n
      invariant 0 <= i <= n
      invariant marked == |MarkedIndices(files[..i])|
    {
      assert files[..i + 1][..i] == files[..i];
      if Marked(files[i]) {
        marked := marked + 1;
      }
      i := i + 1;
    }
  }

  /** The loop of ejecutar_copia_multiple over a panel with entries marked:
      copy each marked entry in order and clear its flag. */
  method CopyMarked(src: Panel, dst: Panel, dev: Bdos)
    requires src.Valid()
    modifies src.files, dev
    ensures var was := old(src.files[..]);
      var copies := CopyEach(Pairs(src.drive, dst.drive, was, MarkedIndices(was[..src.numFiles])), old(dev.replies));
      dev.trace == old(dev.trace) + copies.0 && dev.replies == Drop(old(dev.replies), copies.1) &&
      src.files[..] == ClearMarks(was, src.numFiles)
  {
    ghost var was := src.files[..];
    ghost var rs := dev.replies;
    ghost var t0 := dev.trace;
    ghost var pairs: seq<BlockPair> := [];
    var i := 0;
    while i < src.numFiles
      invariant 0 <= i <= src.numFiles
      invariant src.files[..] == ClearMarks(was, i)
      invariant pairs == Pairs(src.drive, dst.drive, was, MarkedIndices(was[..i]))
      invariant dev.trace == t0 + CopyEach(pairs, rs).0
      invariant dev.replies == Drop(rs, CopyEach(pairs, rs).1)
    {
      pairs := CopyMarkedStep(src, dst, dev, i, was, pairs, rs, t0);
      i := i + 1;
    }
    assert was[..src.numFiles] == was[..i];
  }

  /** One turn of CopyMarked's loop: entry `i` is copied when marked, and
      its flag cleared. */
  method CopyMarkedStep(src: Panel, dst: Panel, dev: Bdos, i: nat,
                        ghost was: seq<FileEntry>, ghost pairs: seq<BlockPair>, ghost rs: seq<int>, ghost t0: seq<Call>)
    returns (ghost more: seq<BlockPair>)
    requires src.Valid() && i < src.numFiles && |was| == MAX_FILES
    requires src.files[..] == ClearMarks(was, i)
    requires pairs == Pairs(src.drive, dst.drive, was, MarkedIndices(was[..i]))
    requires dev.trace == t0 + CopyEach(pairs, rs).0 && dev.replies == Drop(rs, CopyEach(pairs, rs).1)
    modifies src.files, dev
    ensures src.files[..] == ClearMarks(was, i + 1)
    ensures more == Pairs(src.drive, dst.drive, was, MarkedIndices(was[..i + 1]))
    ensures dev.trace == t0 + CopyEach(more, rs).0 && dev.replies == Drop(rs, CopyEach(more, rs).1)
  {
    ghost var done := MarkedIndices(was[..i]);
    MarkedIndicesSnoc(was, i);
    assert src.files[i] == was[i];
    ClearMarksStep(was, i, src.files[..]);
    more := pairs;
    if Marked(src.files[i]) {
      var last := CopyMarkedOne(src, dst, dev, i, pairs, rs, t0);
      PairsSnoc(src.drive, dst.drive, was, done, i);
      more := pairs + [last];
    }
  }

  /** Copy entry `i` after the copies of `pairs` and clear its flag. */
  method CopyMarkedOne(src: Panel, dst: Panel, dev: Bdos, i: nat,
                       ghost pairs: seq<BlockPair>, ghost rs: seq<int>, ghost t0: seq<Call>)
    returns (ghost last: BlockPair)
    requires src.Valid() && i < MAX_FILES
    requires dev.trace == t0 + CopyEach(pairs, rs).0
    requires dev.replies == Drop(rs, CopyEach(pairs, rs).1)
    modifies src.files, dev
    ensures var name := old(src.files[i]).name;
      last == (Fcb.FcbImage(src.drive, name), Fcb.FcbImage(dst.drive, name))
    ensures dev.trace == t0 + CopyEach(pairs + [last], rs).0 && dev.replies == Drop(rs, CopyEach(pairs + [last], rs).1)
    ensures src.files[..] == old(src.files[..])[i := Unmark(old(src.files[i]))]
  {
    ghost var name := src.files[i].name;
    last := (Fcb.FcbImage(src.drive, name), Fcb.FcbImage(dst.drive, name));
    var _ := CopiarArchivoPorIndice(src, dst, dev, i);
    CopyEachAfter(pairs, last, rs, t0, dev.trace, dev.replies);
    src.files[i] := Unmark(src.files[i]);
  }

  /** copiar_archivo_por_indice on the entry under the cursor, as a batch of one. */
  method CopyCursor(src: Panel, dst: Panel, dev: Bdos)
    requires src.Valid() && 0 <= src.currentIdx < MAX_FILES
    modifies dev
    ensures var copies := CopyEach(Pairs(src.drive, dst.drive, src.files[..], [src.currentIdx]), old(dev.replies));
      dev.trace == old(dev.trace) + copies.0 && dev.replies == Drop(old(dev.replies), copies.1)
  {
    ghost var name := src.files[src.currentIdx].name;
    ghost var last := (Fcb.FcbImage(src.drive, name), Fcb.FcbImage(dst.drive, name));
    assert Pairs(src.drive, dst.drive, src.files[..], [src.currentIdx]) == [last];
    CopyEachSingle(last, dev.replies);
    var _ := CopiarArchivoPorIndice(src, dst, dev, src.currentIdx);
  }

  /** The copying half of ejecutar_copia_multiple: the marked entries, or
      the one under the cursor when none is marked. */
  method CopyBatch(src: Panel, dst: Panel, dev: Bdos)
    requires src.Valid() && 0 <= src.currentIdx < MAX_FILES
    modifies src.files, dev
    ensures var was := old(src.files[..]);
      var copies := CopyEach(Pairs(src.drive, dst.drive, was, BatchTargets(was[..src.numFiles], src.currentIdx)), old(dev.replies));
      dev.trace == old(dev.trace) + copies.0 && dev.replies == Drop(old(dev.replies), copies.1) &&
      src.files[..] == ClearMarks(was, src.numFiles)
  {
    ghost var was := src.files[..];
    var marked := CountMarked(src.files, src.numFiles);
    assert src.files[..src.numFiles] == was[..src.numFiles];
    if marked == 0 {
      CopyCursor(src, dst, dev);
      ClearMarksEffect(was, src.numFiles);
    } else {
      CopyMarked(src, dst, dev);
    }
  }

  /** ejecutar_copia_multiple: copy every marked entry (or the one under
      the cursor when none is marked) to the other panel's drive, clear the
      flags of the copied entries, then reload the destination panel once. */
  method EjecutarCopiaMultiple(src: Panel, dst: Panel, dev: Bdos, dstHits: seq<SearchHit>)
    requires src.Valid() && dst.Valid() && src.files != dst.files && src != dst
    requires 0 <= src.currentIdx < MAX_FILES && WellFormedHits(dstHits)
    modifies src.files, dst, dst.files, dev
    ensures WellFormedHits(FirstLive(dstHits))
    ensures var was := old(src.files[..]);
      var targets := BatchTargets(was[..src.numFiles], src.currentIdx);
      var copies := CopyEach(Pairs(src.drive, old(dst.drive), was, targets), old(dev.replies));
      var load := LoadCalls(old(dst.drive), Drop(old(dev.replies), copies.1));
      dev.trace == old(dev.trace) + copies.0 + load.0 &&
      dev.replies == Drop(Drop(old(dev.replies), copies.1), load.1) &&
      src.files[..] == ClearMarks(was, src.numFiles) &&
      dst.Valid() && dst.drive == load.2 && dst.numFiles == |FirstLive(dstHits)| &&
      dst.files[..] == Relisted(FirstLive(dstHits), old(dst.files[..])) &&
      dst.currentIdx == 0 && dst.scrollOffset == 0
  {
    CopyBatch(src, dst, dev);
    ghost var cleared := src.files[..];
    LoadDirectory(dst, dev, dstHits);
    assert src.files[..] == cleared;
  }

  /** The delete calls for the entries at `idx`, in order, each on the
      entry's block on `drive`. */
  function Deletes(drive: byte, s: seq<FileEntry>, idx: seq<nat>): (r: seq<Call>)
    requires forall j :: 0 <= j < |idx| ==> idx[j] < |s|
    ensures |r| == |idx|
    ensures forall j :: 0 <= j < |idx| ==> r[j] == WithFcb(F_DELETE, Fcb.FcbImage(drive, s[idx[j]].name))
  {
    seq(|idx|, j requires 0 <= j < |idx| => WithFcb(F_DELETE, Fcb.FcbImage(drive, s[idx[j]].name)))
  }

  lemma DeletesSnoc(drive: byte, s: seq<FileEntry>, idx: seq<nat>, k: nat)
    requires forall j :: 0 <= j < |idx| ==> idx[j] < |s|
    requires k < |s|
    ensures Deletes(drive, s, idx + [k]) == Deletes(drive, s, idx) + [WithFcb(F_DELETE, Fcb.FcbImage(drive, s[k].name))]
  {
  }

  /** The entries ejecutar_borrado_multiple deletes: none on an empty
      panel, otherwise the batch targets. */
  function DeleteTargets(s: seq<FileEntry>, n: nat, current: nat): (t: seq<nat>)
    requires n <= |s|
    ensures n == 0 ==> t == []
    ensures n > 0 && MarkedIndices(s[..n]) == [] ==> t == [current]
    ensures MarkedIndices(s[..n]) != [] ==> t == MarkedIndices(s[..n])
  {
    if n == 0 then [] else BatchTargets(s[..n], current)
  }

  /** The loop of ejecutar_borrado_multiple over a panel with entries
      marked: delete each marked entry in order and clear its flag. */
  method DeleteMarked(p: Panel, dev: Bdos)
    requires p.Valid()
    modifies p.files, dev
    ensures var was := old(p.files[..]);
      var sel := MarkedIndices(was[..p.numFiles]);
      dev.trace == old(dev.trace) + Deletes(p.drive, was, sel) && dev.replies == Drop(old(dev.replies), |sel|) &&
      p.files[..] == ClearMarks(was, p.numFiles)
  {
    ghost var was := p.files[..];
    ghost var rs := dev.replies;
    ghost var t0 := dev.trace;
    ghost var calls: seq<Call> := [];
    var i := 0;
    while i < p.numFiles
      invariant 0 <= i <= p.numFiles
      invariant p.files[..] == ClearMarks(was, i)
      invariant calls == Deletes(p.drive, was, MarkedIndices(was[..i]))
      invariant dev.trace == t0 + calls && dev.replies == Drop(rs, |calls|)
    {
      calls := DeleteMarkedStep(p, dev, i, was, calls, rs, t0);
      i := i + 1;
    }
    assert was[..p.numFiles] == was[..i];
  }

  /** One turn of DeleteMarked's loop: entry `i` is deleted when marked,
      and its flag cleared. */
  method DeleteMarkedStep(p: Panel, dev: Bdos, i: nat,
                          ghost was: seq<FileEntry>, ghost calls: seq<Call>, ghost rs: seq<int>, ghost t0: seq<Call>)
    returns (ghost more: seq<Call>)
    requires p.Valid() && i < p.numFiles && |was| == MAX_FILES
    requires p.files[..] == ClearMarks(was, i)
    requires calls == Deletes(p.drive, was, MarkedIndices(was[..i]))
    requires dev.trace == t0 + calls && dev.replies == Drop(rs, |calls|)
    modifies p.files, dev
    ensures p.files[..] == ClearMarks(was, i + 1)
    ensures more == Deletes(p.drive, was, MarkedIndices(was[..i + 1]))
    ensures dev.trace == t0 + more && dev.replies == Drop(rs, |more|)
  {
    ghost var done := MarkedIndices(was[..i]);
    MarkedIndicesSnoc(was, i);
    assert p.files[i] == was[i];
    ClearMarksStep(was, i, p.files[..]);
    more := calls;
    if Marked(p.files[i]) {
      var call := DeleteMarkedOne(p, dev, i);
      DropDrop(rs, |calls|, 1);
      DeletesSnoc(p.drive, was, done, i);
      ConcatAssoc(t0, calls, [call]);
      more := calls + [call];
    }
  }

  /** Delete entry `i` through a freshly filled local block and clear its flag. */
  method DeleteMarkedOne(p: Panel, dev: Bdos, i: nat) returns (call: Call)
    requires p.Valid() && i < MAX_FILES
    modifies p.files, dev
    ensures call == WithFcb(F_DELETE, Fcb.FcbImage(p.drive, old(p.files[i]).name))
    ensures dev.trace == old(dev.trace) + [call] && dev.replies == Drop(old(dev.replies), 1)
    ensures p.files[..] == old(p.files[..])[i := Unmark(old(p.files[i]))]
  {
    var fcb := new byte[Fcb.FCB_SIZE];
    var _ := Fcb.FillFcb(fcb, p.drive, p.files[i].name);
    call := WithFcb(F_DELETE, fcb[..]);
    var _ := dev.Invoke(call);
    p.files[i] := Unmark(p.files[i]);
  }

  /** ejecutar_borrado_multiple: delete every marked entry (or the one under
      the cursor when none is marked, nothing on an empty panel) and clear
      the flags of the deleted entries. The panel is not reloaded. */
  method EjecutarBorradoMultiple(p: Panel, dev: Bdos)
    requires p.Valid() && 0 <= p.currentIdx < MAX_FILES
    modifies p.files, dev
    ensures var was := old(p.files[..]);
      var targets := DeleteTargets(was, p.numFiles, p.currentIdx);
      dev.trace == old(dev.trace) + Deletes(p.drive, was, targets) &&
      dev.replies == Drop(old(dev.replies), |targets|) &&
      p.files[..] == ClearMarks(was, p.numFiles)
  {
    ghost var was := p.files[..];
    var marked := CountMarked(p.files, p.numFiles);
    assert p.files[..p.numFiles] == was[..p.numFiles];
    if marked == 0 {
      var _ := BorrarArchivo(p, dev);
      ClearMarksEffect(was, p.numFiles);
      if p.numFiles > 0 {
        assert Deletes(p.drive, was, [p.currentIdx]) == [WithFcb(F_DELETE, Fcb.FcbImage(p.drive, was[p.currentIdx].name))];
      } else {
        assert dev.replies == Drop(old(dev.replies), 0);
      }
    } else {
      DeleteMarked(p, dev);
    }
  }
}
