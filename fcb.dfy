/** The 36-byte CP/M 2.2 File Control Block as the program fills it from a
    "NAME.EXT" display name: drive code, 8-byte name and 3-byte type, both
    space padded, everything else zero (operations.c prepare_fcb and the
    inline copies of the same loops in operaciones.c). */
module Fcb {
  import opened Common
  import Directory

  const FCB_SIZE: nat := 36

  /** `(drive - 'A') + 1` stored in a byte: 1 for A, 2 for B, ... */
  function DriveCode(drive: byte): (code: byte)
    ensures 'A' as byte <= drive <= 'Z' as byte ==> code as int == drive as int - 'A' as int + 1
  {
    ((drive as int - 'A' as int + 1) % 256) as byte
  }

  /** The part of a name before its first '.'. */
  function Stem(name: CString): CString {
    UpTo(name, DOT)
  }

  /** Where `name_ptr` points after one pass: just past the first '.', or at
      the terminating NUL when there is no '.'. */
  function AfterDot(name: CString): CString {
    var k := |Stem(name)|;
    if k < |name| then name[k + 1..] else []
  }

  function Prefix(s: seq<byte>, n: nat): (r: seq<byte>)
    ensures |r| == Min(n, |s|) && r == s[..|r|]
  {
    if |s| <= n then s else s[..n]
  }

  /** `s` followed by spaces up to length `n` (`s` no longer than `n`). */
  function Pad(s: seq<byte>, n: nat): (r: seq<byte>)
    requires |s| <= n
    ensures |r| == n && r[..|s|] == s
    ensures forall i :: |s| <= i < n ==> r[i] == SPACE
  {
    s + Fill(n - |s|, SPACE)
  }

  /** Bytes 1..11 of the block: up to 8 stem bytes and up to 3 bytes after the dot. */
  function NameField(name: CString): (f: seq<byte>)
    ensures |f| == 11
  {
    Pad(Prefix(Stem(name), 8), 8) + Pad(Prefix(AfterDot(name), 3), 3)
  }

  /** The whole block one pass of the fill loops leaves behind. */
  function FcbImage(drive: byte, name: CString): (f: seq<byte>)
    ensures |f| == FCB_SIZE
  {
    [DriveCode(drive)] + NameField(name) + Fill(24, 0)
  }

  /** Byte `i` of a block whose name field starts with `stem` and whose type
      field starts with `typ`, the rest of both blank. */
  function Slot(drive: byte, stem: seq<byte>, typ: seq<byte>, i: nat): byte {
    if i == 0 then DriveCode(drive)
    else if i < 9 then (if i - 1 < |stem| then stem[i - 1] else SPACE)
    else if i < 12 then (if i - 9 < |typ| then typ[i - 9] else SPACE)
    else 0
  }

  lemma FcbImageSlots(drive: byte, name: CString)
    ensures forall i :: 0 <= i < FCB_SIZE ==>
      FcbImage(drive, name)[i] == Slot(drive, Prefix(Stem(name), 8), Prefix(AfterDot(name), 3), i)
  {
  }

  /** One pass of the loops of prepare_fcb over `fcb`: clear it, set the drive
      code, blank the name and type, copy the stem and the type. Returns the
      offset `name_ptr` has moved to. */
  method FillFcb(fcb: array<byte>, drive: byte, name: CString) returns (moved: nat)
    requires fcb.Length == FCB_SIZE
    modifies fcb
    ensures fcb[..] == FcbImage(drive, name)
    ensures moved <= |name| && name[moved..] == AfterDot(name)
  {
    forall i | 0 <= i < FCB_SIZE {
      fcb[i] := if i == 0 then DriveCode(drive) else if i < 12 then SPACE else 0;
    }
    CopyStem(fcb, drive, name);
    var p := 0;
    while At(name, p) != NUL && At(name, p) != DOT
      invariant 0 <= p <= |Stem(name)|
      decreases |name| - p
    {
      p := p + 1;
    }
    if At(name, p) == DOT {
      p := p + 1;
      CopyType(fcb, drive, name, p);
    } else {
      assert Prefix(AfterDot(name), 3) == [];
    }
    FcbImageSlots(drive, name);
    assert fcb[..] == FcbImage(drive, name);
    moved := p;
  }

  /** The first loop of the fill: up to 8 bytes of the name before its '.'. */
  method CopyStem(fcb: array<byte>, drive: byte, name: CString)
    requires fcb.Length == FCB_SIZE
    requires forall i :: 0 <= i < FCB_SIZE ==> fcb[i] == Slot(drive, [], [], i)
    modifies fcb
    ensures forall i :: 0 <= i < FCB_SIZE ==> fcb[i] == Slot(drive, Prefix(Stem(name), 8), [], i)
  {
    var stem := Stem(name);
    var j := 0;
    while j < 8 && At(name, j) != DOT && At(name, j) != NUL
      invariant 0 <= j <= 8 && j <= |stem|
      invariant forall i :: 0 <= i < FCB_SIZE ==> fcb[i] == Slot(drive, stem[..j], [], i)
    {
      fcb[1 + j] := name[j];
      j := j + 1;
    }
    assert stem[..j] == Prefix(stem, 8);
  }

  /** The second loop of the fill: up to 3 bytes from `name_ptr`, just past the '.'. */
  method CopyType(fcb: array<byte>, drive: byte, name: CString, p: nat)
    requires fcb.Length == FCB_SIZE
    requires 0 < p <= |name| && name[p - 1] == DOT && p - 1 == |Stem(name)|
    requires forall i :: 0 <= i < FCB_SIZE ==> fcb[i] == Slot(drive, Prefix(Stem(name), 8), [], i)
    modifies fcb
    ensures forall i :: 0 <= i < FCB_SIZE ==> fcb[i] == Slot(drive, Prefix(Stem(name), 8), Prefix(AfterDot(name), 3), i)
  {
    var after := AfterDot(name);
    assert after == name[p..];
    var j := 0;
    while j < 3 && At(name, p + j) != NUL
      invariant 0 <= j <= 3 && j <= |after|
      invariant forall i :: 0 <= i < FCB_SIZE ==> fcb[i] == Slot(drive, Prefix(Stem(name), 8), after[..j], i)
    {
      fcb[9 + j] := name[p + j];
      j := j + 1;
    }
    assert after[..j] == Prefix(after, 3);
  }

  /** The global blocks `fcb_src` and `fcb_dst`. */
  class FcbBuffers {
    var src: array<byte>
    var dst: array<byte>

    ghost predicate Valid()
      reads this
    {
      src.Length == FCB_SIZE && dst.Length == FCB_SIZE && src != dst
    }

    constructor ()
      ensures Valid() && fresh(src) && fresh(dst)
      ensures src[..] == Fill(FCB_SIZE, 0) && dst[..] == Fill(FCB_SIZE, 0)
    {
      src := new byte[FCB_SIZE](_ => 0);
      dst := new byte[FCB_SIZE](_ => 0);
    }

    /** prepare_fcb exactly as written: the destination pass starts from
        `name_ptr` where the source pass left it, past the '.'. A drive of
        None stands for a NULL panel pointer. */
    method PrepareFcbAsWritten(name: CString, srcDrive: Option<byte>, dstDrive: Option<byte>)
      requires Valid()
      modifies src, dst
      ensures Valid()
      ensures srcDrive.Some? ==> src[..] == FcbImage(srcDrive.value, name)
      ensures srcDrive.None? ==> src[..] == old(src[..])
      ensures dstDrive.Some? ==>
        dst[..] == FcbImage(dstDrive.value, if srcDrive.Some? then AfterDot(name) else name)
      ensures dstDrive.None? ==> dst[..] == old(dst[..])
    {
      var namePtr := name;
      if srcDrive.Some? {
        var moved := FillFcb(src, srcDrive.value, namePtr);
        namePtr := namePtr[moved..];
      }
      if dstDrive.Some? {
        var _ := FillFcb(dst, dstDrive.value, namePtr);
      }
    }

    /** prepare_fcb as evidently intended: both blocks are filled from the
        whole name, so they agree on bytes 1..35. */
    method PrepareFcb(name: CString, srcDrive: Option<byte>, dstDrive: Option<byte>)
      requires Valid()
      modifies src, dst
      ensures Valid()
      ensures srcDrive.Some? ==> src[..] == FcbImage(srcDrive.value, name)
      ensures srcDrive.None? ==> src[..] == old(src[..])
      ensures dstDrive.Some? ==> dst[..] == FcbImage(dstDrive.value, name)
      ensures dstDrive.None? ==> dst[..] == old(dst[..])
      ensures srcDrive.Some? && dstDrive.Some? ==> src[1..] == dst[1..]
    {
      if srcDrive.Some? {
        var _ := FillFcb(src, srcDrive.value, name);
      }
      if dstDrive.Some? {
        var _ := FillFcb(dst, dstDrive.value, name);
      }
    }
  }

  /** A name field that is non-space bytes followed only by spaces. */
  predicate SpacePadded(s: seq<byte>) {
    forall i, j :: 0 <= i < j < |s| && s[i] == SPACE ==> s[j] == SPACE
  }

  /** Round trip: the display name built from a directory record gives back
      the record's cleaned 8+3 name field in the block, for any name that is
      space padded and holds no '.' (names as CP/M stores them). */
  lemma FormatThenFcbRoundTrip(name: seq<byte>, typ: seq<byte>)
    requires |name| == 8 && |typ| == 3
    requires NUL !in StripAll(name) && NUL !in StripAll(typ)
    requires DOT !in StripAll(name)
    requires SpacePadded(StripAll(name))
    ensures NameField(Directory.FormatName(name, typ)) == StripAll(name) + StripAll(typ)
  {
    Directory.FormatNameShape(name, typ);
    PaddedNameField(StripAll(name), StripAll(typ));
  }

  /** The block's name field of `stem.ext`, where the stem is a space-padded
      8-byte field cut at its first space, gives back both fields. */
  lemma PaddedNameField(s: seq<byte>, t: seq<byte>)
    requires |s| == 8 && |t| == 3
    requires NUL !in s && NUL !in t && DOT !in s
    requires SpacePadded(s)
    ensures NameField(UpTo(s, SPACE) + [DOT] + t) == s + t
  {
    var base := UpTo(s, SPACE);
    var f := base + [DOT] + t;
    StemOfDotted(base, t);
    assert Pad(Prefix(Stem(f), 8), 8) == s by {
      assert Prefix(Stem(f), 8) == base;
      forall i | |base| <= i < 8 ensures s[i] == SPACE {
        assert s[|base|] == SPACE;
      }
    }
    assert Pad(Prefix(AfterDot(f), 3), 3) == t;
  }

  /** For `base.ext` with no '.' in `base`, the stem is `base` and `name_ptr`
      ends up at `ext`. */
  lemma StemOfDotted(base: CString, ext: CString)
    requires DOT !in base
    ensures Stem(base + [DOT] + ext) == base
    ensures AfterDot(base + [DOT] + ext) == ext
  {
    var f := base + [DOT] + ext;
    assert f[..|base|] == base;
    UpToAt(f, DOT, |base|);
    assert f[|base| + 1..] == ext;
  }

  /** The destination bug of prepare_fcb as written: called with both panels,
      the destination block is filled from the text after the '.', so the
      extension becomes the destination's file name and its type is blank. */
  lemma AsWrittenDestinationIsExtension(srcDrive: byte, dstDrive: byte, base: CString, ext: CString)
    requires DOT !in base && DOT !in ext && |ext| <= 3
    ensures FcbImage(dstDrive, AfterDot(base + [DOT] + ext))[1..12] == Pad(ext, 8) + Fill(3, SPACE)
    ensures ext != [] && ext[0] != SPACE ==>
      FcbImage(dstDrive, AfterDot(base + [DOT] + ext))[1..12] != FcbImage(srcDrive, base + [DOT] + ext)[1..12]
  {
    StemOfDotted(base, ext);
    var f := base + [DOT] + ext;
    assert Stem(ext) == ext;
    assert AfterDot(ext) == [];
    var img := FcbImage(dstDrive, ext);
    assert img[1..12] == NameField(ext);
    if ext != [] && ext[0] != SPACE {
      var srcImg := FcbImage(srcDrive, f);
      assert srcImg[1..12] == NameField(f);
      assert NameField(f)[8] == ext[0];
      assert NameField(ext)[8] == SPACE;
    }
  }
}
