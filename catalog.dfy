/** The catalogue entries of operations.c: how one directory record becomes
    an entry, how the sort comparator marks and dates extents of one file,
    how the marked extents are squeezed out of the array, and how the size
    in records is formed (operations.c load_directory and
    fileNameExtentCompare). */
module Catalog {
  import opened Common
  import opened Directory
  import Calendar

  /** Attribute bits of an entry: read-only, system and archived come from
      bit 7 of the three type bytes; B_SEL is the panel's selection mark. */
  const READ_ONLY: bv8 := 0x01
  const SYSTEM: bv8 := 0x02
  const ARCHIVED: bv8 := 0x04
  const B_SEL: bv8 := 0x08

  function Bit(i: nat): bv8
    requires i < 8
  {
    (1 as bv8) << i
  }

  predicate HasBit(a: bv8, i: nat)
    requires i < 8
  {
    a & Bit(i) != 0
  }

  /** An entry name as the loader writes it: "NAME.EXT", never empty. */
  type EntryName = s: CString | |s| > 0 witness [DOT]

  /** The six bytes copied as one block by the comparator: the 16-bit `date`
      (the day number, then the year once converted), `month`, `day`, `hour`
      and `minute`. */
  datatype DateTime = DateTime(date: u16, month: byte, day: byte, hour: byte, minute: byte)

  const NO_DATE: DateTime := DateTime(0, 0, 0, 0, 0)

  /** One catalogue entry: display name, attribute bits, the extent number
      (after post-processing: the size in 128-byte records), the record count
      of that extent, and its date and time. */
  datatype FileEntry = FileEntry(cpmname: EntryName, attrib: bv8, extent: u16, rc: byte, when: DateTime)

  /** The comparator's test for "has a date": a non-zero `date` field. */
  predicate Dated(e: FileEntry) {
    e.when.date != 0
  }

  /** An entry whose name starts with '~' is marked for removal. */
  predicate IsMarked(e: FileEntry) {
    e.cpmname[0] == TILDE
  }

  /** `*cpmname = '~'`: overwrite the first byte of the name. */
  function Mark(e: FileEntry): (m: FileEntry)
    ensures IsMarked(m) && |m.cpmname| == |e.cpmname| && m.cpmname[1..] == e.cpmname[1..]
    ensures m.(cpmname := e.cpmname) == e
  {
    e.(cpmname := [TILDE] + e.cpmname[1..])
  }

  // ---------------------------------------------------------------------
  // Decoding one directory record

  /** Attribute bit i (i < 3) is set exactly when type byte i has bit 7 set. */
  function AttribOf(typ: seq<byte>): (a: bv8)
    requires |typ| == 3
  {
    (if typ[0] > 0x7F then Bit(0) else 0) |
    (if typ[1] > 0x7F then Bit(1) else 0) |
    (if typ[2] > 0x7F then Bit(2) else 0)
  }

  /** The date and time the loader stores for a record: the update stamp of
      the record's slot when the sector carries a date-time record ('!') and
      the record is one of the first three of the sector, otherwise zeros. */
  function StampOf(h: SearchHit): DateTime
    requires WellFormedHit(h)
  {
    if h.slot < 3 && h.stampMark == BANG then
      var s := h.stamps[h.slot];
      var d := Calendar.CalendarDate(s.days as nat);
      Calendar.CalendarDateCorrect(s.days as nat);
      Calendar.CalendarYearBound(s.days as nat);
      DateTime(if s.days == 0 then 0 else d.year as u16, d.month as byte, d.day as byte, s.hour, s.minute)
    else NO_DATE
  }

  /** The entry the loader stores for a non-erased record. */
  function Decoded(h: SearchHit): (r: FileEntry)
    requires WellFormedHit(h)
    ensures |r.cpmname| <= 12
    ensures !(h.slot < 3 && h.stampMark == BANG) ==> r.when == NO_DATE
  {
    var e := h.entry;
    FileEntry(FormatName(e.name, e.typ), AttribOf(e.typ), (e.s2 as int * 32 + e.ex as int) as u16, e.rc, StampOf(h))
  }

  /** The decoded entry: attribute bits from the type bytes, extent
      `s2 * 32 + ex`, and a date only for stamped records, which is then the
      calendar date of the stamp's day number. */
  lemma DecodedFields(h: SearchHit)
    requires WellFormedHit(h)
    ensures var d := Decoded(h);
      d.cpmname == FormatName(h.entry.name, h.entry.typ) &&
      (forall i :: 0 <= i < 8 ==> (HasBit(d.attrib, i) <==> i < 3 && h.entry.typ[i] > 0x7F)) &&
      d.extent as int == h.entry.s2 as int * 32 + h.entry.ex as int && d.rc == h.entry.rc &&
      (!(h.slot < 3 && h.stampMark == BANG) ==> d.when == NO_DATE) &&
      (h.slot < 3 && h.stampMark == BANG ==>
        var s := h.stamps[h.slot];
        d.when.hour == s.hour && d.when.minute == s.minute &&
        (s.days == 0 <==> d.when.date == 0) &&
        (s.days == 0 ==> d.when.month == 0 && d.when.day == 0) &&
        (s.days != 0 ==>
          Calendar.ValidDate(d.when.date as int, d.when.month as int, d.when.day as int) &&
          Calendar.DayNumber(d.when.date as int, d.when.month as int, d.when.day as int) == s.days as int))
  {
    var typ := h.entry.typ;
    var a := AttribOf(typ);
    forall i | 0 <= i < 8 ensures HasBit(a, i) <==> i < 3 && typ[i] > 0x7F {
      assert Bit(i) & (Bit(0) | Bit(1) | Bit(2)) == (if i < 3 then Bit(i) else 0);
    }
    if h.slot < 3 && h.stampMark == BANG {
      Calendar.CalendarDateCorrect(h.stamps[h.slot].days as nat);
    }
  }

  /** The record decode of the loader's loop body, with the attribute loop
      and the in-place date conversion. */
  method DecodeRecord(h: SearchHit) returns (e: FileEntry)
    requires WellFormedHit(h)
    ensures e == Decoded(h)
  {
    var d := h.entry;
    var attrib := AttributeBits(d.typ);
    var when := RecordStamp(h);
    e := FileEntry(FormatName(d.name, d.typ), attrib, (d.s2 as int * 32 + d.ex as int) as u16, d.rc, when);
  }

  /** The attribute loop: bit i for each type byte i above 0x7F. */
  method AttributeBits(typ: seq<byte>) returns (attrib: bv8)
    requires |typ| == 3
    ensures attrib == AttribOf(typ)
  {
    attrib := 0;
    for bit := 0 to 3
      invariant attrib == (if 0 < bit && typ[0] > 0x7F then Bit(0) else 0) |
                          (if 1 < bit && typ[1] > 0x7F then Bit(1) else 0) |
                          (if 2 < bit && typ[2] > 0x7F then Bit(2) else 0)
    {
      if typ[bit] > 0x7F {
        attrib := attrib | Bit(bit);
      }
    }
  }

  /** The date-time branch: copy the stamp and convert its day number in place. */
  method RecordStamp(h: SearchHit) returns (when: DateTime)
    requires WellFormedHit(h)
    ensures when == StampOf(h)
  {
    when := NO_DATE;
    if h.slot < 3 && h.stampMark == BANG {
      var s := h.stamps[h.slot];
      var year, month, day := Calendar.DaysToDate(s.days as nat);
      when := DateTime(year as u16, month as byte, day as byte, s.hour, s.minute);
    }
  }

  /** The non-erased records, in directory order. */
  function Live(hits: seq<SearchHit>): (r: seq<SearchHit>)
    ensures |r| <= |hits|
    ensures forall i :: 0 <= i < |r| ==> !IsErased(r[i]) && r[i] in hits
  {
    if hits == [] then []
    else if IsErased(hits[0]) then Live(hits[1..])
    else [hits[0]] + Live(hits[1..])
  }

  lemma {:induction false} LiveConcat(s: seq<SearchHit>, t: seq<SearchHit>)
    ensures Live(s + t) == Live(s) + Live(t)
  {
    if s != [] {
      assert (s + t)[1..] == s[1..] + t;
      LiveConcat(s[1..], t);
    } else {
      assert s + t == t;
    }
  }

  function DecodeAll(hits: seq<SearchHit>): (r: seq<FileEntry>)
    requires WellFormedHits(hits)
    ensures |r| == |hits| && forall i :: 0 <= i < |hits| ==> r[i] == Decoded(hits[i])
  {
    seq(|hits|, i requires 0 <= i < |hits| => Decoded(hits[i]))
  }

  /** What the search loop stores: the decoded non-erased records, in order,
      cut off after MAX_FILES of them. */
  function Gathered(hits: seq<SearchHit>): (r: seq<FileEntry>)
    requires WellFormedHits(hits)
    ensures |r| <= MAX_FILES && |r| <= |hits|
  {
    var live := Live(hits);
    DecodeAll(if |live| <= MAX_FILES then live else live[..MAX_FILES])
  }

  lemma {:induction false} LiveWellFormed(hits: seq<SearchHit>)
    requires WellFormedHits(hits)
    ensures WellFormedHits(Live(hits))
  {
    var live := Live(hits);
    forall i | 0 <= i < |live| ensures WellFormedHit(live[i]) {
      assert live[i] in hits;
    }
  }

  /** At most MAX_FILES entries are stored, erased records are skipped, and
      nothing is lost while there is room. */
  lemma GatheredBounds(hits: seq<SearchHit>)
    requires WellFormedHits(hits)
    ensures |Gathered(hits)| == Min(|Live(hits)|, MAX_FILES)
    ensures forall i :: 0 <= i < |Gathered(hits)| ==> Gathered(hits)[i] == Decoded(Live(hits)[i])
    ensures (forall i :: 0 <= i < |hits| ==> !IsErased(hits[i])) ==> Live(hits) == hits
  {
    var live := Live(hits);
    var kept := if |live| <= MAX_FILES then live else live[..MAX_FILES];
    LiveWellFormed(hits);
    assert forall i :: 0 <= i < |kept| ==> kept[i] == live[i];
    assert WellFormedHits(kept);
    var g := DecodeAll(kept);
    assert Gathered(hits) == g;
    assert forall i :: 0 <= i < |g| ==> g[i] == Decoded(live[i]);
    if forall i :: 0 <= i < |hits| ==> !IsErased(hits[i]) {
      LiveOfAllLive(hits);
    }
  }

  lemma LiveSnoc(hits: seq<SearchHit>, i: nat)
    requires i < |hits|
    ensures Live(hits[..i + 1]) == Live(hits[..i]) + (if IsErased(hits[i]) then [] else [hits[i]])
  {
    assert hits[..i + 1] == hits[..i] + [hits[i]];
    LiveConcat(hits[..i], [hits[i]]);
  }

  lemma DecodeAllSnoc(hits: seq<SearchHit>, h: SearchHit)
    requires WellFormedHits(hits) && WellFormedHit(h)
    ensures WellFormedHits(hits + [h])
    ensures DecodeAll(hits + [h]) == DecodeAll(hits) + [Decoded(h)]
  {
    var a := hits + [h];
    assert WellFormedHits(a) by {
      forall i | 0 <= i < |a| ensures WellFormedHit(a[i]) {
        if i < |hits| { assert a[i] == hits[i]; }
      }
    }
    var l, r := DecodeAll(a), DecodeAll(hits) + [Decoded(h)];
    forall i | 0 <= i < |l| ensures l[i] == r[i] {
      if i < |hits| { assert a[i] == hits[i]; }
    }
  }

  /** Where the search loop stops, at the end of the answers or with
      MAX_FILES entries stored, it has stored the Gathered entries. */
  lemma GatheredAtStop(hits: seq<SearchHit>, i: nat)
    requires WellFormedHits(hits) && i <= |hits|
    requires |Live(hits[..i])| <= MAX_FILES
    requires i == |hits| || |Live(hits[..i])| == MAX_FILES
    ensures WellFormedHits(Live(hits[..i]))
    ensures Gathered(hits) == DecodeAll(Live(hits[..i]))
  {
    var pre := Live(hits[..i]);
    assert hits == hits[..i] + hits[i..];
    LiveConcat(hits[..i], hits[i..]);
    var live := Live(hits);
    assert live[..|pre|] == pre;
    assert WellFormedHits(pre) by {
      forall k | 0 <= k < |pre| ensures WellFormedHit(pre[k]) {
        assert pre[k] == live[k] && live[k] in hits;
      }
    }
    if i == |hits| {
      assert hits[i..] == [];
      assert live == pre;
    }
    var kept := if |live| <= MAX_FILES then live else live[..MAX_FILES];
    assert kept == pre;
  }

  lemma {:induction false} LiveOfAllLive(hits: seq<SearchHit>)
    requires forall i :: 0 <= i < |hits| ==> !IsErased(hits[i])
    ensures Live(hits) == hits
  {
    if hits != [] {
      LiveOfAllLive(hits[1..]);
    }
  }

  // ---------------------------------------------------------------------
  // The comparator

  /** `s` before `t` in strcmp order: a common prefix followed by a smaller
      byte, the end of a C string counting as NUL. */
  predicate LexLess(s: CString, t: CString) {
    exists k :: 0 <= k <= |s| && k <= |t| && s[..k] == t[..k] && At(s, k) < At(t, k)
  }

  /** strcmp: the difference of the first bytes that differ. */
  function StrCmp(s: CString, t: CString): (r: int)
    ensures r == 0 <==> s == t
    decreases |s|
  {
    if s == [] || t == [] || s[0] != t[0] then At(s, 0) as int - At(t, 0) as int
    else StrCmp(s[1..], t[1..])
  }

  /** strcmp's sign is the order LexLess, and exactly one of the three cases holds. */
  lemma {:induction false} StrCmpOrder(s: CString, t: CString)
    ensures StrCmp(s, t) < 0 <==> LexLess(s, t)
    ensures StrCmp(s, t) > 0 <==> LexLess(t, s)
    decreases |s|
  {
    if s == [] || t == [] || s[0] != t[0] {
      if StrCmp(s, t) < 0 {
        assert s[..0] == t[..0];
        assert LexLess(s, t);
      }
      if StrCmp(s, t) > 0 {
        assert t[..0] == s[..0];
        assert LexLess(t, s);
      }
      if LexLess(s, t) {
        LexLessHead(s, t);
      }
      if LexLess(t, s) {
        LexLessHead(t, s);
      }
    } else {
      StrCmpOrder(s[1..], t[1..]);
      LexLessTail(s, t);
      LexLessTail(t, s);
    }
  }

  /** A LexLess pair differs at its first byte or shares it. */
  lemma LexLessHead(s: CString, t: CString)
    requires LexLess(s, t)
    ensures At(s, 0) < At(t, 0) || (s != [] && t != [] && s[0] == t[0])
  {
    var k :| 0 <= k <= |s| && k <= |t| && s[..k] == t[..k] && At(s, k) < At(t, k);
    if k > 0 {
      assert s[0] == s[..k][0] && t[0] == t[..k][0];
    }
  }

  /** Strings that start with the same byte are ordered by their tails. */
  lemma LexLessTail(s: CString, t: CString)
    requires s != [] && t != [] && s[0] == t[0]
    ensures LexLess(s, t) <==> LexLess(s[1..], t[1..])
  {
    if LexLess(s, t) {
      var k :| 0 <= k <= |s| && k <= |t| && s[..k] == t[..k] && At(s, k) < At(t, k);
      assert k > 0;
      assert s[1..][..k - 1] == s[..k][1..] == t[..k][1..] == t[1..][..k - 1];
      assert At(s[1..], k - 1) < At(t[1..], k - 1);
    }
    if LexLess(s[1..], t[1..]) {
      var k :| 0 <= k <= |s[1..]| && k <= |t[1..]| && s[1..][..k] == t[1..][..k] && At(s[1..], k) < At(t[1..], k);
      assert s[..k + 1] == [s[0]] + s[1..][..k];
      assert t[..k + 1] == [t[0]] + t[1..][..k];
      assert At(s, k + 1) < At(t, k + 1);
    }
  }

  /** The comparator's result and the two entries as it leaves them. */
  datatype Compared = Compared(res: int, a: FileEntry, b: FileEntry)

  /** fileNameExtentCompare on a pair. Different names: the strcmp value, the
      entries untouched. Equal names: if exactly one of the two is dated its
      date/time block is copied onto the other; then the one with the lower
      extent (the second one when the extents are equal) is marked, and the
      result is the extent difference. */
  function Compare(a: FileEntry, b: FileEntry): (c: Compared)
    ensures a.cpmname != b.cpmname ==> c == Compared(StrCmp(a.cpmname, b.cpmname), a, b)
    ensures c.res == 0 ==> a.cpmname == b.cpmname && a.extent == b.extent
    ensures a.cpmname == b.cpmname ==>
      c.res == a.extent as int - b.extent as int &&
      // exactly one of the pair is marked: the lower extent, or b on a tie
      c.a == (if a.extent < b.extent then Mark(c.a.(cpmname := a.cpmname)) else c.a.(cpmname := a.cpmname)) &&
      c.b == (if a.extent < b.extent then c.b.(cpmname := b.cpmname) else Mark(c.b.(cpmname := b.cpmname))) &&
      // nothing but the name and the date/time block changes
      c.a.(cpmname := a.cpmname, when := a.when) == a && c.b.(cpmname := b.cpmname, when := b.when) == b &&
      // a date present on either side ends up on both sides when only one had it
      (Dated(a) && !Dated(b) ==> c.a.when == a.when && c.b.when == a.when) &&
      (Dated(b) && !Dated(a) ==> c.a.when == b.when && c.b.when == b.when) &&
      (Dated(a) == Dated(b) ==> c.a.when == a.when && c.b.when == b.when)
  {
    var res := StrCmp(a.cpmname, b.cpmname);
    if res != 0 then Compared(res, a, b)
    else
      var a1 := if Dated(b) && !Dated(a) then a.(when := b.when) else a;
      var b1 := if Dated(a) && !Dated(b) then b.(when := a.when) else b;
      var diff := a.extent as int - b.extent as int;
      if diff < 0 then Compared(diff, Mark(a1), b1) else Compared(diff, a1, Mark(b1))
  }

  /** The plain name order (fileNameCompare, defined next to the comparator
      and unused by the loader). */
  function NameCompare(a: FileEntry, b: FileEntry): (r: int)
    ensures r < 0 <==> LexLess(a.cpmname, b.cpmname)
    ensures r > 0 <==> LexLess(b.cpmname, a.cpmname)
    ensures r == 0 <==> a.cpmname == b.cpmname
  {
    StrCmpOrder(a.cpmname, b.cpmname);
    StrCmp(a.cpmname, b.cpmname)
  }

  // ---------------------------------------------------------------------
  // The merge outcome intended by the comparator

  /** A group of extents of one file, as the directory holds them: one name,
      not itself starting with '~', distinct extent numbers, and a date on at
      most one of them (CP/M stamps only the first extent). */
  predicate Fragments(frags: seq<FileEntry>) {
    |frags| > 0 &&
    (forall i :: 0 <= i < |frags| ==> frags[i].cpmname == frags[0].cpmname) &&
    !IsMarked(frags[0]) &&
    (forall i, j :: 0 <= i < j < |frags| ==> frags[i].extent != frags[j].extent) &&
    (forall i, j :: 0 <= i < j < |frags| && Dated(frags[i]) ==> !Dated(frags[j]))
  }

  /** The entry a group should leave behind: the fragment with the highest
      extent, carrying the group's date when there is one. */
  predicate Intended(frags: seq<FileEntry>, survivor: FileEntry)
    requires Fragments(frags)
  {
    Highest(frags, survivor) && DateKept(frags, survivor)
  }

  /** `survivor` is, up to its date, the fragment with the highest extent. */
  predicate Highest(frags: seq<FileEntry>, survivor: FileEntry) {
    exists i :: 0 <= i < |frags| &&
      survivor.(when := frags[i].when) == frags[i] &&
      forall j :: 0 <= j < |frags| ==> frags[j].extent <= frags[i].extent
  }

  /** `survivor` carries the date of a dated fragment, or none when no
      fragment is dated. */
  predicate DateKept(frags: seq<FileEntry>, survivor: FileEntry) {
    (exists j :: 0 <= j < |frags| && Dated(frags[j]) && survivor.when == frags[j].when) ||
    ((forall j :: 0 <= j < |frags| ==> !Dated(frags[j])) && !Dated(survivor))
  }

  /** The group run through the comparator one fragment at a time, the
      current survivor against the next fragment (as a sort that meets the
      fragments in that order would): the entries marked on the way and the
      final survivor. */
  function Chain(survivor: FileEntry, rest: seq<FileEntry>): (r: (seq<FileEntry>, FileEntry))
    ensures |r.0| == |rest|
    decreases |rest|
  {
    if rest == [] then ([], survivor)
    else
      var c := Compare(survivor, rest[0]);
      var (kept, loser) := if IsMarked(c.a) then (c.b, c.a) else (c.a, c.b);
      var t := Chain(kept, rest[1..]);
      ([loser] + t.0, t.1)
  }

  /** Whatever the order of the fragments, the comparisons of the chain mark
      every fragment but one, and the one left unmarked is the intended
      survivor: highest extent, the group's date. */
  lemma ChainMerges(frags: seq<FileEntry>)
    requires Fragments(frags)
    ensures var (losers, survivor) := Chain(frags[0], frags[1..]);
      (forall i :: 0 <= i < |losers| ==> IsMarked(losers[i])) && !IsMarked(survivor) &&
      Intended(frags, survivor)
  {
    assert forall i :: 0 <= i < |frags[1..]| ==> frags[1..][i].cpmname == frags[i + 1].cpmname;
    ChainMarks(frags[0], frags[1..]);
    ChainIntended(frags);
  }

  /** Each comparison of the chain marks one entry and keeps the other
      unmarked. */
  lemma {:induction false} ChainMarks(survivor: FileEntry, rest: seq<FileEntry>)
    requires !IsMarked(survivor)
    requires forall i :: 0 <= i < |rest| ==> rest[i].cpmname == survivor.cpmname
    ensures forall i :: 0 <= i < |rest| ==> IsMarked(Chain(survivor, rest).0[i])
    ensures !IsMarked(Chain(survivor, rest).1)
    decreases |rest|
  {
    if rest != [] {
      var c := Compare(survivor, rest[0]);
      var kept := if IsMarked(c.a) then c.b else c.a;
      var loser := if IsMarked(c.a) then c.a else c.b;
      assert IsMarked(loser) && !IsMarked(kept) && kept.cpmname == survivor.cpmname;
      var tail := Chain(kept, rest[1..]);
      assert Chain(survivor, rest) == ([loser] + tail.0, tail.1);
      ChainMarks(kept, rest[1..]);
      forall i | 0 <= i < |rest| ensures IsMarked(([loser] + tail.0)[i]) {
        if i > 0 { assert ([loser] + tail.0)[i] == tail.0[i - 1]; }
      }
    }
  }

  /** The final survivor of the chain is the intended one. */
  lemma {:induction false} ChainIntended(frags: seq<FileEntry>)
    requires Fragments(frags)
    ensures Intended(frags, Chain(frags[0], frags[1..]).1)
    decreases |frags|
  {
    var s, rest := frags[0], frags[1..];
    if rest == [] {
      assert s.(when := frags[0].when) == frags[0];
      if Dated(s) {
        assert Dated(frags[0]) && s.when == frags[0].when;
      }
    } else {
      var c := Compare(s, rest[0]);
      var kept := if IsMarked(c.a) then c.b else c.a;
      var next := [kept] + rest[1..];
      var tail := Chain(kept, rest[1..]);
      assert Chain(frags[0], frags[1..]).1 == tail.1;
      KeptFacts(s, rest[0], kept);
      FragmentsStep(frags, kept);
      assert next[0] == kept && next[1..] == rest[1..];
      ChainIntended(next);
      IntendedStep(frags, kept, tail.1);
    }
  }

  /** What the comparison of two fragments of one group keeps: the one with
      the higher extent, unmarked, with the date of whichever was dated. */
  lemma KeptFacts(s: FileEntry, t: FileEntry, kept: FileEntry)
    requires s.cpmname == t.cpmname && !IsMarked(s) && s.extent != t.extent && !(Dated(s) && Dated(t))
    requires var c := Compare(s, t);
      kept == (if IsMarked(c.a) then c.b else c.a)
    ensures !IsMarked(kept) && kept.cpmname == s.cpmname
    ensures var w := if s.extent < t.extent then t else s;
      kept.(when := w.when) == w
    ensures kept.extent >= s.extent && kept.extent >= t.extent
    ensures Dated(s) ==> kept.when == s.when
    ensures Dated(t) ==> kept.when == t.when
    ensures !Dated(s) && !Dated(t) ==> !Dated(kept)
  {
  }

  /** Folding the first two fragments into the one kept by their comparison
      leaves a group of fragments again. */
  lemma FragmentsStep(frags: seq<FileEntry>, kept: FileEntry)
    requires Fragments(frags) && |frags| >= 2
    requires !IsMarked(kept) && kept.cpmname == frags[0].cpmname
    requires kept.extent == frags[0].extent || kept.extent == frags[1].extent
    requires Dated(kept) ==> Dated(frags[0]) || Dated(frags[1])
    ensures Fragments([kept] + frags[2..])
  {
    var next := [kept] + frags[2..];
    forall i, j | 0 <= i < j < |next| ensures next[i].extent != next[j].extent {
      assert next[j] == frags[j + 1];
      if i > 0 {
        assert next[i] == frags[i + 1];
      }
    }
    forall i, j | 0 <= i < j < |next| && Dated(next[i]) ensures !Dated(next[j]) {
      assert next[j] == frags[j + 1];
      if i > 0 {
        assert next[i] == frags[i + 1];
      }
    }
  }

  /** Folding the first two fragments into the one kept by their comparison
      does not change the intended survivor. */
  lemma IntendedStep(frags: seq<FileEntry>, kept: FileEntry, survivor: FileEntry)
    requires Fragments(frags) && |frags| >= 2
    requires var c := Compare(frags[0], frags[1]);
      kept == (if IsMarked(c.a) then c.b else c.a)
    requires Fragments([kept] + frags[2..])
    requires Intended([kept] + frags[2..], survivor)
    ensures Intended(frags, survivor)
  {
    KeptFacts(frags[0], frags[1], kept);
    HighestStep(frags, kept, survivor);
    DateKeptStep(frags, kept, survivor);
  }

  lemma HighestStep(frags: seq<FileEntry>, kept: FileEntry, survivor: FileEntry)
    requires |frags| >= 2
    requires var w := if frags[0].extent < frags[1].extent then 1 else 0;
      kept.(when := frags[w].when) == frags[w]
    requires kept.extent >= frags[0].extent && kept.extent >= frags[1].extent
    requires Highest([kept] + frags[2..], survivor)
    ensures Highest(frags, survivor)
  {
    var next := [kept] + frags[2..];
    var w := if frags[0].extent < frags[1].extent then 1 else 0;
    var i :| 0 <= i < |next| && survivor.(when := next[i].when) == next[i] &&
      forall j :: 0 <= j < |next| ==> next[j].extent <= next[i].extent;
    var top := if i == 0 then w else i + 1;
    assert survivor.(when := frags[top].when) == frags[top] by {
      if i > 0 { assert next[i] == frags[i + 1]; }
    }
    forall j | 0 <= j < |frags| ensures frags[j].extent <= frags[top].extent {
      if j >= 2 { assert frags[j] == next[j - 1]; }
      else { assert next[0].extent <= next[i].extent; }
      if i > 0 { assert next[i] == frags[i + 1]; }
    }
  }

  lemma DateKeptStep(frags: seq<FileEntry>, kept: FileEntry, survivor: FileEntry)
    requires |frags| >= 2
    requires Dated(frags[0]) ==> kept.when == frags[0].when
    requires Dated(frags[1]) ==> kept.when == frags[1].when
    requires !Dated(frags[0]) && !Dated(frags[1]) ==> !Dated(kept)
    requires DateKept([kept] + frags[2..], survivor)
    ensures DateKept(frags, survivor)
  {
    var next := [kept] + frags[2..];
    if exists j :: 0 <= j < |next| && Dated(next[j]) && survivor.when == next[j].when {
      var j :| 0 <= j < |next| && Dated(next[j]) && survivor.when == next[j].when;
      if j == 0 {
        if Dated(frags[0]) {
          assert Dated(frags[0]) && survivor.when == frags[0].when;
        } else {
          assert Dated(frags[1]) && survivor.when == frags[1].when;
        }
      } else {
        assert next[j] == frags[j + 1];
        assert Dated(frags[j + 1]) && survivor.when == frags[j + 1].when;
      }
    } else {
      assert !Dated(survivor) && !Dated(next[0]);
      forall j | 0 <= j < |frags| ensures !Dated(frags[j]) {
        if j >= 2 { assert frags[j] == next[j - 1]; }
      }
    }
  }

  // ---------------------------------------------------------------------
  // Compaction and sizes

  /** The entries not marked for removal, in their order. */
  function Unmarked(s: seq<FileEntry>): (r: seq<FileEntry>)
    ensures |r| <= |s|
  {
    if s == [] then [] else if IsMarked(s[0]) then Unmarked(s[1..]) else [s[0]] + Unmarked(s[1..])
  }

  lemma {:induction false} UnmarkedConcat(s: seq<FileEntry>, t: seq<FileEntry>)
    ensures Unmarked(s + t) == Unmarked(s) + Unmarked(t)
  {
    if s != [] {
      assert (s + t)[1..] == s[1..] + t;
      UnmarkedConcat(s[1..], t);
    } else {
      assert s + t == t;
    }
  }

  /** Number of entries marked for removal. */
  function MarkedCount(s: seq<FileEntry>): nat {
    if s == [] then 0 else (if IsMarked(s[0]) then 1 else 0) + MarkedCount(s[1..])
  }

  /** Compaction removes exactly the marked entries: none is left, every
      unmarked entry stays, nothing new appears, and the count drops by the
      number removed. */
  lemma UnmarkedExactly(s: seq<FileEntry>)
    ensures |Unmarked(s)| == |s| - MarkedCount(s)
    ensures forall i :: 0 <= i < |Unmarked(s)| ==> !IsMarked(Unmarked(s)[i])
    ensures forall x :: x in s && !IsMarked(x) ==> x in Unmarked(s)
    ensures forall x :: x in Unmarked(s) ==> x in s
    ensures (forall i :: 0 <= i < |s| ==> !IsMarked(s[i])) ==> Unmarked(s) == s
  {
    UnmarkedLength(s);
    UnmarkedClean(s);
    UnmarkedMembers(s);
    if forall i :: 0 <= i < |s| ==> !IsMarked(s[i]) {
      UnmarkedOfClean(s);
    }
  }

  lemma {:induction false} UnmarkedLength(s: seq<FileEntry>)
    ensures |Unmarked(s)| == |s| - MarkedCount(s)
  {
    if s != [] {
      UnmarkedLength(s[1..]);
    }
  }

  lemma {:induction false} UnmarkedClean(s: seq<FileEntry>)
    ensures forall i :: 0 <= i < |Unmarked(s)| ==> !IsMarked(Unmarked(s)[i])
  {
    if s != [] {
      UnmarkedClean(s[1..]);
    }
  }

  lemma {:induction false} UnmarkedMembers(s: seq<FileEntry>)
    ensures forall x :: x in s && !IsMarked(x) ==> x in Unmarked(s)
    ensures forall x :: x in Unmarked(s) ==> x in s
  {
    if s != [] {
      UnmarkedMembers(s[1..]);
      forall x | x in s && !IsMarked(x) ensures x in Unmarked(s) {
        if x != s[0] { assert x in s[1..]; }
      }
    }
  }

  lemma {:induction false} UnmarkedOfClean(s: seq<FileEntry>)
    requires forall i :: 0 <= i < |s| ==> !IsMarked(s[i])
    ensures Unmarked(s) == s
  {
    if s != [] {
      UnmarkedOfClean(s[1..]);
    }
  }

  /** Unmarked entries keep their relative order: an entry before another in
      the result was before it in the input. */
  lemma {:induction false} UnmarkedKeepsOrder(s: seq<FileEntry>, i: nat, j: nat) returns (p: nat, q: nat)
    requires i < j < |Unmarked(s)|
    ensures p < q < |s| && s[p] == Unmarked(s)[i] && s[q] == Unmarked(s)[j]
  {
    var r, t := Unmarked(s), s[1..];
    if IsMarked(s[0]) {
      assert r == Unmarked(t);
      p, q := UnmarkedKeepsOrder(t, i, j);
      p, q := p + 1, q + 1;
    } else if i == 0 {
      assert r == [s[0]] + Unmarked(t);
      q := UnmarkedOrigin(t, j - 1);
      p, q := 0, q + 1;
    } else {
      assert r == [s[0]] + Unmarked(t);
      p, q := UnmarkedKeepsOrder(t, i - 1, j - 1);
      p, q := p + 1, q + 1;
    }
  }

  /** Where entry `k` of the compacted sequence came from. */
  lemma {:induction false} UnmarkedOrigin(s: seq<FileEntry>, k: nat) returns (q: nat)
    requires k < |Unmarked(s)|
    ensures q < |s| && s[q] == Unmarked(s)[k]
  {
    var t := s[1..];
    if IsMarked(s[0]) {
      q := UnmarkedOrigin(t, k);
      q := q + 1;
    } else if k == 0 {
      q := 0;
    } else {
      q := UnmarkedOrigin(t, k - 1);
      q := q + 1;
    }
  }

  /** `(extent << 7) + rc` in a 16-bit field: the size in 128-byte records. */
  function Size(e: FileEntry): (r: u16)
    ensures e.extent as int * 128 + e.rc as int < 0x1_0000 ==> r as int == e.extent as int * 128 + e.rc as int
  {
    ((e.extent as int * 128 + e.rc as int) % 0x1_0000) as u16
  }

  function Sized(s: seq<FileEntry>): (r: seq<FileEntry>)
    ensures |r| == |s|
    ensures forall i :: 0 <= i < |s| ==> r[i] == s[i].(extent := Size(s[i]))
  {
    seq(|s|, i requires 0 <= i < |s| => s[i].(extent := Size(s[i])))
  }

  /** The first loop of the compaction: drop the marked entries at the end
      of the array by lowering the count. */
  method TrimMarkedTail(files: array<FileEntry>, count: nat) returns (n: nat)
    requires count <= files.Length
    ensures n <= count
    ensures Unmarked(files[..n]) == Unmarked(files[..count])
    ensures n == 0 || !IsMarked(files[n - 1])
    ensures forall k :: n <= k < count ==> IsMarked(files[k])
  {
    n := count;
    var fIdx := count;
    while true
      invariant fIdx == n <= count
      invariant forall k :: n <= k < count ==> IsMarked(files[k])
      invariant Unmarked(files[..n]) == Unmarked(files[..count])
      decreases fIdx
    {
      if fIdx == 0 {
        break;
      }
      fIdx := fIdx - 1;
      if !IsMarked(files[fIdx]) {
        fIdx := fIdx + 1;
        break;
      }
      assert files[..n] == files[..fIdx] + [files[fIdx]];
      UnmarkedConcat(files[..fIdx], [files[fIdx]]);
      n := n - 1;
    }
  }

  /** `memcpy(it, it + 1, (end - it - 1) * sizeof(FileEntry))`: entries
      it+1 .. end-1 move down by one; slot end-1 and everything after it keep
      their old values. */
  method ShiftDown(files: array<FileEntry>, it: nat, end: nat)
    requires it < end <= files.Length
    modifies files
    ensures files[..end - 1] == old(files[..it]) + old(files[it + 1..end])
    ensures files[end - 1..] == old(files[end - 1..])
  {
    ghost var was := files[..];
    var k := it;
    while k + 1 < end
      invariant it <= k < end
      invariant forall j {:trigger files[j]} :: 0 <= j < files.Length ==> files[j] == (if it <= j < k then was[j + 1] else was[j])
    {
      files[k] := files[k + 1];
      k := k + 1;
    }
    ShiftedDown(files[..], was, it, end);
  }

  lemma ShiftedDown(now: seq<FileEntry>, was: seq<FileEntry>, it: nat, end: nat)
    requires it < end <= |now| == |was|
    requires forall j {:trigger now[j]} :: 0 <= j < |now| ==> now[j] == (if it <= j < end - 1 then was[j + 1] else was[j])
    ensures now[..end - 1] == was[..it] + was[it + 1..end]
    ensures now[end - 1..] == was[end - 1..]
  {
    forall j | 0 <= j < end - 1 ensures now[j] == (was[..it] + was[it + 1..end])[j] {
      if j >= it {
        assert (was[..it] + was[it + 1..end])[j] == was[j + 1];
      }
    }
  }

  /** Removing one marked entry does not change the unmarked ones. */
  lemma {:induction false} UnmarkedSkip(s: seq<FileEntry>, i: nat)
    requires i < |s| && IsMarked(s[i])
    ensures Unmarked(s[..i] + s[i + 1..]) == Unmarked(s)
  {
    if i == 0 {
      assert s[..0] + s[1..] == s[1..];
    } else {
      var t := s[1..];
      UnmarkedSkip(t, i - 1);
      assert s[..i] + s[i + 1..] == [s[0]] + (t[..i - 1] + t[i..]);
    }
  }

  /** The second loop of the compaction: walk the array and, at every marked
      entry, shift the rest down and shorten it. Requires what the first loop
      leaves: the last entry unmarked. */
  method SqueezeMarked(files: array<FileEntry>, count: nat) returns (n: nat)
    requires count <= files.Length
    requires count == 0 || !IsMarked(files[count - 1])
    modifies files
    ensures n <= count && files[..n] == Unmarked(old(files[..count]))
  {
    ghost var was := files[..count];
    n := count;
    var it := 0;
    var end := count;
    while it < end
      invariant it <= end == n <= count
      invariant forall k :: 0 <= k < it ==> !IsMarked(files[k])
      invariant end == 0 || !IsMarked(files[end - 1])
      invariant Unmarked(files[..end]) == Unmarked(was)
      decreases end - it
    {
      while IsMarked(files[it])
        invariant it < end == n <= count
        invariant forall k :: 0 <= k < it ==> !IsMarked(files[k])
        invariant !IsMarked(files[end - 1])
        invariant Unmarked(files[..end]) == Unmarked(was)
        decreases end
      {
        SqueezeOne(files, it, end, was);
        n := n - 1;
        end := end - 1;
      }
      it := it + 1;
    }
    UnmarkedExactly(files[..end]);
  }

  /** One turn of the inner loop of SqueezeMarked: the marked entry at `it`
      is shifted out of the first `end` entries. */
  method SqueezeOne(files: array<FileEntry>, it: nat, end: nat, ghost was: seq<FileEntry>)
    requires it < end <= files.Length
    requires IsMarked(files[it]) && !IsMarked(files[end - 1])
    requires forall k :: 0 <= k < it ==> !IsMarked(files[k])
    requires Unmarked(files[..end]) == Unmarked(was)
    modifies files
    ensures it < end - 1
    ensures forall k :: 0 <= k < it ==> !IsMarked(files[k])
    ensures !IsMarked(files[end - 2])
    ensures Unmarked(files[..end - 1]) == Unmarked(was)
  {
    ghost var before := files[..end];
    assert before[..it] == files[..it] && before[it + 1..] == files[it + 1..end];
    ShiftDown(files, it, end);
    UnmarkedSkip(before, it);
    assert files[end - 2] == (before[..it] + before[it + 1..])[end - 2] == before[end - 1];
    assert forall k :: 0 <= k < it ==> files[k] == before[k];
  }

  /** The size loop: every surviving entry's extent becomes its size. */
  method SetSizes(files: array<FileEntry>, count: nat)
    requires count <= files.Length
    modifies files
    ensures files[..count] == Sized(old(files[..count]))
    ensures files[count..] == old(files[count..])
  {
    ghost var was := files[..];
    for i := 0 to count
      invariant forall j :: 0 <= j < files.Length ==>
        files[j] == (if j < i then was[j].(extent := Size(was[j])) else was[j])
    {
      files[i] := files[i].(extent := Size(files[i]));
    }
  }

  /** A file of two extents, 0 with 10 records and a date, 1 with 5 records
      and none: whichever way round the comparator meets them, one entry is
      left, of 133 records, carrying the date of extent 0. */
  lemma TwoExtentExample(name: EntryName, attrib: bv8, stamp: DateTime)
    requires name[0] != TILDE && stamp.date != 0
    ensures var first := FileEntry(name, attrib, 0, 10, stamp);
      var second := FileEntry(name, attrib, 1, 5, NO_DATE);
      var c := Compare(first, second);
      var d := Compare(second, first);
      Sized(Unmarked([c.a, c.b])) == [FileEntry(name, attrib, 133, 5, stamp)] &&
      Sized(Unmarked([d.a, d.b])) == [FileEntry(name, attrib, 133, 5, stamp)]
  {
    var first := FileEntry(name, attrib, 0, 10, stamp);
    var second := FileEntry(name, attrib, 1, 5, NO_DATE);
    var c := Compare(first, second);
    var d := Compare(second, first);
    assert IsMarked(c.a) && !IsMarked(c.b);
    assert [c.a, c.b][1..] == [c.b];
    assert Unmarked([c.a, c.b]) == [c.b];
    assert !IsMarked(d.a) && IsMarked(d.b);
    assert [d.a, d.b][1..] == [d.b];
    assert Unmarked([d.a, d.b]) == [d.a];
  }
}
