/** CP/M directory records as the directory search delivers them, and the
    "NAME.EXT" display name both loaders build from a record
    (operations.c load_directory, operaciones.c load_directory). */
module Directory {
  import opened Common

  /** One 32-byte directory record: user number (0xE5 when erased), 8 name
      bytes and 3 type bytes whose bit 7 carries attributes, the extent
      counters EX/S1/S2 and the record count RC of that extent. The
      allocation map is not used. */
  datatype DirEntry = DirEntry(user: byte, name: seq<byte>, typ: seq<byte>,
                               ex: byte, s1: byte, s2: byte, rc: byte)

  /** The update stamp of one CP/M 3 date-time record slot: a day number and
      BCD hour and minute. */
  datatype Stamp = Stamp(days: u16, hour: byte, minute: byte)

  /** One successful directory search: the search answer `slot` (0..3) is the
      index of the record inside the 128-byte sector; `stampMark` is the
      first byte of the sector's fourth record (address 0xE0) and `stamps`
      its three update stamps, meaningful when that record is a date-time
      record ('!'). */
  datatype SearchHit = SearchHit(slot: nat, entry: DirEntry, stampMark: byte, stamps: seq<Stamp>)

  predicate WellFormedEntry(e: DirEntry) {
    |e.name| == 8 && |e.typ| == 3
  }

  predicate WellFormedHit(h: SearchHit) {
    h.slot < 4 && WellFormedEntry(h.entry) && |h.stamps| == 3
  }

  predicate WellFormedHits(hits: seq<SearchHit>) {
    forall i :: 0 <= i < |hits| ==> WellFormedHit(hits[i])
  }

  predicate IsErased(h: SearchHit) {
    h.entry.user == ERASED
  }

  function SkipSpaces(s: seq<byte>): (r: seq<byte>)
    ensures |r| <= |s| && r == s[|s| - |r|..]
    ensures r == [] || r[0] != SPACE
    ensures forall i :: 0 <= i < |s| - |r| ==> s[i] == SPACE
  {
    if s != [] && s[0] == SPACE then SkipSpaces(s[1..]) else s
  }

  /** `strtok(s, " ")`: the first run of non-space bytes. When there is none
      C returns NULL; the model gives the empty token. */
  function Token(s: seq<byte>): (r: seq<byte>)
    ensures |r| <= |s| && SPACE !in r
  {
    UpTo(SkipSpaces(s), SPACE)
  }

  /** The token is empty exactly when `strtok` finds no token: the field
      holds only spaces. */
  lemma TokenEmpty(s: seq<byte>)
    ensures Token(s) == [] <==> forall i :: 0 <= i < |s| ==> s[i] == SPACE
  {
    var t := SkipSpaces(s);
    if t != [] {
      assert t[0] != SPACE && t[0] == s[|s| - |t|];
      assert Token(s) != [] by { assert Token(s) == UpTo(t, SPACE); }
    }
  }

  /** `sprintf(name, "%s.%s", strtok(clean_name, " "), clean_ext)` with the
      cleaned (bit 7 stripped, NUL terminated) name and type fields. */
  function FormatName(name: seq<byte>, typ: seq<byte>): (r: CString)
    ensures |r| <= |name| + 1 + |typ|
  {
    Token(CStr(StripAll(name))) + [DOT] + CStr(StripAll(typ))
  }

  /** Every byte below 128. */
  predicate SevenBit(s: seq<byte>) {
    forall i :: 0 <= i < |s| ==> s[i] < 128
  }

  /** A slice of a 7-bit sequence is 7-bit. */
  lemma SevenBitSlice(s: seq<byte>, lo: nat, hi: nat)
    requires SevenBit(s) && lo <= hi <= |s|
    ensures SevenBit(s[lo..hi])
  {
    forall i | 0 <= i < hi - lo ensures s[lo..hi][i] < 128 {
      assert s[lo..hi][i] == s[lo + i];
    }
  }

  /** Two 7-bit parts joined by '.' are 7-bit. */
  lemma SevenBitJoin(a: seq<byte>, b: seq<byte>)
    requires SevenBit(a) && SevenBit(b)
    ensures SevenBit(a + [DOT] + b)
  {
    var r := a + [DOT] + b;
    forall i | 0 <= i < |r| ensures r[i] < 128 {
      if i < |a| {
        assert r[i] == a[i];
      } else if i > |a| {
        assert r[i] == b[i - |a| - 1];
      }
    }
  }

  /** The display name is 7-bit ASCII: bit 7 is cleared before it is built. */
  lemma FormatNameSevenBit(name: seq<byte>, typ: seq<byte>)
    ensures SevenBit(FormatName(name, typ))
  {
    var sn, st := StripAll(name), StripAll(typ);
    assert SevenBit(sn) && SevenBit(st);
    var clean, ext := CStr(sn), CStr(st);
    SevenBitSlice(sn, 0, |clean|);
    SevenBitSlice(st, 0, |ext|);
    assert sn[0..|clean|] == clean && st[0..|ext|] == ext;
    var t := SkipSpaces(clean);
    SevenBitSlice(clean, |clean| - |t|, |clean|);
    assert clean[|clean| - |t|..|clean|] == t;
    var stem := UpTo(t, SPACE);
    SevenBitSlice(t, 0, |stem|);
    assert t[0..|stem|] == stem;
    SevenBitJoin(stem, ext);
  }

  /** The display name: the cleaned name cut at its first space, a '.', and
      the cleaned type; it always fits the 13-byte name buffer. */
  lemma FormatNameShape(name: seq<byte>, typ: seq<byte>)
    requires |name| == 8 && |typ| == 3
    requires NUL !in StripAll(name) && NUL !in StripAll(typ)
    requires StripAll(name)[0] == SPACE ==> forall j :: 0 <= j < 8 ==> StripAll(name)[j] == SPACE
    ensures FormatName(name, typ) == UpTo(StripAll(name), SPACE) + [DOT] + StripAll(typ)
    ensures |FormatName(name, typ)| <= 12
  {
    var s := StripAll(name);
    NoNulCStr(s);
    NoNulCStr(StripAll(typ));
    if s[0] == SPACE {
      UpToAt(s, SPACE, 0);
    }
  }

  lemma {:induction false} NoNulCStr(s: seq<byte>)
    requires NUL !in s
    ensures CStr(s) == s
  {
    if s != [] {
      NoNulCStr(s[1..]);
    }
  }

  /** The display name always fits the 13-byte name buffer with its NUL:
      at most 8 stem bytes, the '.', at most 3 type bytes. */
  lemma FormatNameFits(name: seq<byte>, typ: seq<byte>)
    requires |name| == 8 && |typ| == 3
    ensures |FormatName(name, typ)| <= 12
    ensures NUL !in FormatName(name, typ) && DOT in FormatName(name, typ)
  {
    var t := Token(CStr(StripAll(name)));
    assert FormatName(name, typ)[|t|] == DOT;
  }
}
