/** The BDOS as the program sees it: numbered calls that take a File
    Control Block or a value and answer with a status byte. The device is
    modelled by the calls it receives (`trace`) and the answers it gives, in
    order (`replies`); once the scripted answers run out every call answers
    255, the BDOS "error / not found" code. Also the copy protocol that
    copy_file, copy_file_by_index, copiar_archivo and
    copiar_archivo_por_indice share. */
module Cpm {
  import opened Common

  const DRV_SET: nat := 14
  const F_OPEN: nat := 15
  const F_CLOSE: nat := 16
  const F_DELETE: nat := 19
  const F_READ: nat := 20
  const F_WRITE: nat := 21
  const F_MAKE: nat := 22
  const DRV_GET: nat := 25
  const FAILED: int := 255

  datatype Call = WithFcb(fn: nat, fcb: seq<byte>) | WithValue(fn: nat, value: int)

  /** The answer to the `k`-th of the next calls. */
  function Reply(rs: seq<int>, k: nat): int {
    if k < |rs| then rs[k] else FAILED
  }

  /** The answers left after `k` calls. */
  function Drop(rs: seq<int>, k: nat): seq<int> {
    if k <= |rs| then rs[k..] else []
  }

  lemma DropReply(rs: seq<int>, k: nat, j: nat)
    ensures Reply(Drop(rs, k), j) == Reply(rs, k + j)
  {
  }

  lemma DropDrop(rs: seq<int>, k: nat, j: nat)
    ensures Drop(Drop(rs, k), j) == Drop(rs, k + j)
  {
  }

  class Bdos {
    var trace: seq<Call>
    var replies: seq<int>

    constructor (script: seq<int>)
      ensures trace == [] && replies == script
    {
      trace := [];
      replies := script;
    }

    /** `bdos(fn, arg)`. */
    method Invoke(call: Call) returns (r: int)
      modifies this
      ensures trace == old(trace) + [call]
      ensures r == Reply(old(replies), 0)
      ensures replies == Drop(old(replies), 1)
    {
      trace := trace + [call];
      r := Reply(replies, 0);
      replies := Drop(replies, 1);
    }
  }

  /** The record loop `while (bdos(20, src) == 0) if (bdos(21, dst) != 0) break;`:
      the calls it makes, how many answers it uses and how many records it
      wrote successfully. */
  function Transfer(src: seq<byte>, dst: seq<byte>, rs: seq<int>): (t: (seq<Call>, nat, nat))
    ensures t.1 == |t.0| && t.1 >= 1
    decreases |rs|
  {
    if Reply(rs, 0) != 0 then ([WithFcb(F_READ, src)], 1, 0)
    else if Reply(rs, 1) != 0 then ([WithFcb(F_READ, src), WithFcb(F_WRITE, dst)], 2, 0)
    else
      var t := Transfer(src, dst, rs[2..]);
      ([WithFcb(F_READ, src), WithFcb(F_WRITE, dst)] + t.0, t.1 + 2, t.2 + 1)
  }

  /** The transfer writes records while both the read and the write succeed
      and stops at the first read or write that does not answer 0. */
  lemma {:induction false} TransferStopsAtFirstFailure(src: seq<byte>, dst: seq<byte>, rs: seq<int>)
    ensures var (_, used, n) := Transfer(src, dst, rs);
      (forall k :: 0 <= k < n ==> Reply(rs, 2 * k) == 0 && Reply(rs, 2 * k + 1) == 0) &&
      (Reply(rs, 2 * n) != 0 || Reply(rs, 2 * n + 1) != 0) &&
      used == (if Reply(rs, 2 * n) != 0 then 2 * n + 1 else 2 * n + 2)
    decreases |rs|
  {
    if Reply(rs, 0) == 0 && Reply(rs, 1) == 0 {
      TransferStopsAtFirstFailure(src, dst, rs[2..]);
      var n := Transfer(src, dst, rs[2..]).2;
      assert forall k :: 0 <= k < n + 1 ==> Reply(rs, 2 * k) == 0 && Reply(rs, 2 * k + 1) == 0 by {
        forall k | 0 <= k < n + 1 ensures Reply(rs, 2 * k) == 0 && Reply(rs, 2 * k + 1) == 0 {
          if k > 0 {
            assert Reply(rs[2..], 2 * (k - 1)) == Reply(rs, 2 * k);
            assert Reply(rs[2..], 2 * (k - 1) + 1) == Reply(rs, 2 * k + 1);
          }
        }
      }
      assert Reply(rs[2..], 2 * n) == Reply(rs, 2 * (n + 1));
      assert Reply(rs[2..], 2 * n + 1) == Reply(rs, 2 * (n + 1) + 1);
    }
  }

  /** Every call of the transfer reads from the source or writes to the destination. */
  lemma {:induction false} TransferOnlyReadsAndWrites(src: seq<byte>, dst: seq<byte>, rs: seq<int>)
    ensures forall c :: c in Transfer(src, dst, rs).0 ==> c == WithFcb(F_READ, src) || c == WithFcb(F_WRITE, dst)
    decreases |rs|
  {
    if Reply(rs, 0) == 0 && Reply(rs, 1) == 0 {
      TransferOnlyReadsAndWrites(src, dst, rs[2..]);
    }
  }

  datatype CopyOutcome = OpenFailed | CreateFailed | Copied(records: nat)

  /** The copy of one file once both blocks are built: delete the destination,
      open the source, create the destination, transfer, close the destination. */
  function CopyProtocol(src: seq<byte>, dst: seq<byte>, rs: seq<int>): (r: (seq<Call>, nat, CopyOutcome))
    ensures r.1 == |r.0|
  {
    var prelude := [WithFcb(F_DELETE, dst), WithFcb(F_OPEN, src)];
    if Reply(rs, 1) == FAILED then (prelude, 2, OpenFailed)
    else if Reply(rs, 2) == FAILED then (prelude + [WithFcb(F_MAKE, dst)], 3, CreateFailed)
    else
      var t := Transfer(src, dst, Drop(rs, 3));
      (prelude + [WithFcb(F_MAKE, dst)] + t.0 + [WithFcb(F_CLOSE, dst)], 3 + t.1 + 1, Copied(t.2))
  }

  /** The outcome is decided by the answers to open and create alone, and the
      destination is closed exactly when its creation succeeded. */
  lemma CopyProtocolOutcome(src: seq<byte>, dst: seq<byte>, rs: seq<int>)
    ensures var (calls, _, outcome) := CopyProtocol(src, dst, rs);
      calls[0] == WithFcb(F_DELETE, dst) && calls[1] == WithFcb(F_OPEN, src) &&
      (outcome == OpenFailed <==> Reply(rs, 1) == FAILED) &&
      (outcome == CreateFailed <==> Reply(rs, 1) != FAILED && Reply(rs, 2) == FAILED) &&
      (outcome.Copied? <==> (|calls| > 3 && calls[2] == WithFcb(F_MAKE, dst) && calls[|calls| - 1] == WithFcb(F_CLOSE, dst))) &&
      (WithFcb(F_CLOSE, dst) in calls <==> outcome.Copied?)
  {
    var (calls, _, outcome) := CopyProtocol(src, dst, rs);
    if Reply(rs, 1) != FAILED && Reply(rs, 2) != FAILED {
      var t := Transfer(src, dst, Drop(rs, 3));
      TransferOnlyReadsAndWrites(src, dst, Drop(rs, 3));
      assert calls[|calls| - 1] == WithFcb(F_CLOSE, dst);
    } else {
      assert WithFcb(F_CLOSE, dst) !in calls;
    }
  }

  /** Copying onto the same block (both panels on one drive) starts by
      deleting the very file it is about to open. */
  lemma SameBlockCopyDeletesSource(fcb: seq<byte>, rs: seq<int>)
    ensures CopyProtocol(fcb, fcb, rs).0[0] == WithFcb(F_DELETE, fcb)
    ensures CopyProtocol(fcb, fcb, rs).0[1] == WithFcb(F_OPEN, fcb)
  {
  }

  /** One turn of the record loop: read a record and, if that worked, write it. */
  method ReadWriteRecord(dev: Bdos, src: seq<byte>, dst: seq<byte>) returns (more: bool)
    modifies dev
    ensures more <==> Reply(old(dev.replies), 0) == 0 && Reply(old(dev.replies), 1) == 0
    ensures more ==> (|old(dev.replies)| >= 2 && dev.replies == old(dev.replies)[2..] &&
                      dev.trace == old(dev.trace) + [WithFcb(F_READ, src), WithFcb(F_WRITE, dst)])
    ensures !more ==> (var (calls, used, n) := Transfer(src, dst, old(dev.replies));
                       dev.trace == old(dev.trace) + calls && dev.replies == Drop(old(dev.replies), used) && n == 0)
  {
    var r := dev.Invoke(WithFcb(F_READ, src));
    if r != 0 {
      return false;
    }
    r := dev.Invoke(WithFcb(F_WRITE, dst));
    more := r == 0;
  }

  /** After one successful read and write the rest of the transfer is the
      transfer of the remaining answers. */
  lemma TransferStep(src: seq<byte>, dst: seq<byte>, rs: seq<int>, trace: seq<Call>)
    requires Reply(rs, 0) == 0 && Reply(rs, 1) == 0
    ensures |rs| >= 2
    ensures var t, u := Transfer(src, dst, rs), Transfer(src, dst, rs[2..]);
      trace + t.0 == (trace + [WithFcb(F_READ, src), WithFcb(F_WRITE, dst)]) + u.0 &&
      Drop(rs, t.1) == Drop(rs[2..], u.1) && t.2 == u.2 + 1
  {
    var u := Transfer(src, dst, rs[2..]);
    assert trace + ([WithFcb(F_READ, src), WithFcb(F_WRITE, dst)] + u.0) ==
      (trace + [WithFcb(F_READ, src), WithFcb(F_WRITE, dst)]) + u.0;
  }

  /** The record loop run against the device. */
  method TransferRecords(dev: Bdos, src: seq<byte>, dst: seq<byte>) returns (records: nat)
    modifies dev
    ensures var (calls, used, n) := Transfer(src, dst, old(dev.replies));
      dev.trace == old(dev.trace) + calls && dev.replies == Drop(old(dev.replies), used) && records == n
  {
    ghost var whole := Transfer(src, dst, dev.replies);
    ghost var rs := dev.replies;
    ghost var start := dev.trace;
    records := 0;
    while true
      invariant start + whole.0 == dev.trace + Transfer(src, dst, dev.replies).0
      invariant Drop(rs, whole.1) == Drop(dev.replies, Transfer(src, dst, dev.replies).1)
      invariant whole.2 == records + Transfer(src, dst, dev.replies).2
      decreases |dev.replies|
    {
      ghost var before := dev.replies;
      ghost var traceBefore := dev.trace;
      var more := ReadWriteRecord(dev, src, dst);
      if !more {
        break;
      }
      TransferStep(src, dst, before, traceBefore);
      records := records + 1;
    }
  }

  /** The copy protocol run against the device. */
  method RunCopy(dev: Bdos, src: seq<byte>, dst: seq<byte>) returns (outcome: CopyOutcome)
    modifies dev
    ensures var (calls, used, o) := CopyProtocol(src, dst, old(dev.replies));
      dev.trace == old(dev.trace) + calls && dev.replies == Drop(old(dev.replies), used) && outcome == o
  {
    ghost var rs0, t0 := dev.replies, dev.trace;
    var _ := dev.Invoke(WithFcb(F_DELETE, dst));
    var r := dev.Invoke(WithFcb(F_OPEN, src));
    DropDrop(rs0, 1, 1);
    DropReply(rs0, 1, 0);
    assert dev.trace == t0 + [WithFcb(F_DELETE, dst), WithFcb(F_OPEN, src)];
    if r == FAILED {
      return OpenFailed;
    }
    r := dev.Invoke(WithFcb(F_MAKE, dst));
    DropDrop(rs0, 2, 1);
    DropReply(rs0, 2, 0);
    if r == FAILED {
      return CreateFailed;
    }
    var records := TransferRecords(dev, src, dst);
    var _ := dev.Invoke(WithFcb(F_CLOSE, dst));
    outcome := Copied(records);
    CopiedTail(src, dst, rs0, t0);
  }

  /** The calls and answers of a copy whose open and create succeed, in the
      order the device sees them. */
  lemma CopiedTail(src: seq<byte>, dst: seq<byte>, rs: seq<int>, t0: seq<Call>)
    requires Reply(rs, 1) != FAILED && Reply(rs, 2) != FAILED
    ensures var t := Transfer(src, dst, Drop(rs, 3));
      var c := CopyProtocol(src, dst, rs);
      t0 + [WithFcb(F_DELETE, dst), WithFcb(F_OPEN, src)] + [WithFcb(F_MAKE, dst)] + t.0 + [WithFcb(F_CLOSE, dst)] == t0 + c.0 &&
      Drop(Drop(Drop(rs, 3), t.1), 1) == Drop(rs, c.1) && c.2 == Copied(t.2)
  {
    var t := Transfer(src, dst, Drop(rs, 3));
    DropDrop(rs, 3, t.1);
    DropDrop(rs, 3 + t.1, 1);
  }

  // ---------------------------------------------------------------------
  // Drive selection, shared by both directory loaders

  /** The drive letter that stands for "the current drive". */
  const AT: byte := '@' as byte

  /** `bdos(25, ...) + 'A'` stored in a char. */
  function CurrentDrive(r: int): byte {
    ((r + 'A' as int) % 256) as byte
  }

  /** The BDOS calls load_directory makes before the search, the number of
      answers they use and the drive the panel ends up on: '@' is first
      replaced by the current drive, then the drive is selected. */
  function LoadCalls(drive: byte, rs: seq<int>): (t: (seq<Call>, nat, byte))
    ensures t.1 == |t.0| >= 1 && t.0[|t.0| - 1] == WithValue(DRV_SET, t.2 as int - 'A' as int)
    ensures drive != AT ==> t.0 == [WithValue(DRV_SET, drive as int - 'A' as int)] && t.2 == drive
    ensures drive == AT ==> t.0[0] == WithValue(DRV_GET, 0) && |t.0| == 2 && t.2 == CurrentDrive(Reply(rs, 0))
  {
    if drive == AT then
      var d := CurrentDrive(Reply(rs, 0));
      ([WithValue(DRV_GET, 0), WithValue(DRV_SET, d as int - 'A' as int)], 2, d)
    else ([WithValue(DRV_SET, drive as int - 'A' as int)], 1, drive)
  }

  /** The drive selection at the start of both loaders: '@' becomes the
      current drive (BDOS 25), then the drive is selected (BDOS 14). */
  method SelectDrive(dev: Bdos, drive: byte) returns (selected: byte)
    modifies dev
    ensures var (calls, used, d) := LoadCalls(drive, old(dev.replies));
      selected == d && dev.trace == old(dev.trace) + calls && dev.replies == Drop(old(dev.replies), used)
  {
    ghost var rs := dev.replies;
    selected := drive;
    if selected == AT {
      var r := dev.Invoke(WithValue(DRV_GET, 0));
      selected := CurrentDrive(r);
    }
    var _ := dev.Invoke(WithValue(DRV_SET, selected as int - 'A' as int));
    DropDrop(rs, 1, 1);
  }

  // ---------------------------------------------------------------------
  // Copy return codes and batches of copies

  /** The return code of copy_file and copiar_archivo: -2 when the source
      does not open, -3 when the destination cannot be created, 0 otherwise. */
  function CopyFileCode(o: CopyOutcome): (r: int)
    ensures r == -2 <==> o == OpenFailed
    ensures r == -3 <==> o == CreateFailed
    ensures r == 0 <==> o.Copied?
  {
    match o
    case OpenFailed => -2
    case CreateFailed => -3
    case Copied(_) => 0
  }

  /** The return code of the by-index copies: one code, -1, for both failures. */
  function IndexCopyCode(o: CopyOutcome): (r: int)
    ensures r == 0 <==> o.Copied?
    ensures r != 0 ==> r == -1
  {
    if o.Copied? then 0 else -1
  }

  /** A source and a destination File Control Block. */
  type BlockPair = (seq<byte>, seq<byte>)

  /** One copy protocol per block pair, in order, each on the answers the
      previous ones left. */
  function CopyEach(pairs: seq<BlockPair>, rs: seq<int>): (t: (seq<Call>, nat))
    ensures t.1 == |t.0|
    decreases |pairs|
  {
    if pairs == [] then ([], 0)
    else
      var t := CopyEach(pairs[..|pairs| - 1], rs);
      var last := pairs[|pairs| - 1];
      var c := CopyProtocol(last.0, last.1, Drop(rs, t.1));
      (t.0 + c.0, t.1 + c.1)
  }

  lemma CopyEachSnoc(pairs: seq<BlockPair>, last: BlockPair, rs: seq<int>)
    ensures var t := CopyEach(pairs, rs);
      var c := CopyProtocol(last.0, last.1, Drop(rs, t.1));
      CopyEach(pairs + [last], rs) == (t.0 + c.0, t.1 + c.1)
  {
    var ps := pairs + [last];
    assert ps[..|ps| - 1] == pairs && ps[|ps| - 1] == last;
  }

  /** The open calls of a list of BDOS calls. */
  function Opens(calls: seq<Call>): seq<Call> {
    if calls == [] then []
    else (if calls[0].fn == F_OPEN then [calls[0]] else []) + Opens(calls[1..])
  }

  lemma {:induction false} OpensConcat(a: seq<Call>, b: seq<Call>)
    ensures Opens(a + b) == Opens(a) + Opens(b)
  {
    if a != [] {
      assert (a + b)[1..] == a[1..] + b;
      OpensConcat(a[1..], b);
    } else {
      assert a + b == b;
    }
  }

  lemma {:induction false} TransferOpensNothing(src: seq<byte>, dst: seq<byte>, rs: seq<int>)
    ensures Opens(Transfer(src, dst, rs).0) == []
    decreases |rs|
  {
    if Reply(rs, 0) == 0 && Reply(rs, 1) == 0 {
      TransferOpensNothing(src, dst, rs[2..]);
      var t := Transfer(src, dst, rs[2..]);
      OpensConcat([WithFcb(F_READ, src), WithFcb(F_WRITE, dst)], t.0);
    } else if Reply(rs, 0) == 0 {
      OpensConcat([WithFcb(F_READ, src)], [WithFcb(F_WRITE, dst)]);
      assert [WithFcb(F_READ, src)] + [WithFcb(F_WRITE, dst)] == [WithFcb(F_READ, src), WithFcb(F_WRITE, dst)];
    }
  }

  /** One copy opens its source block once and nothing else. */
  lemma ProtocolOpensOnce(sb: seq<byte>, db: seq<byte>, rs: seq<int>)
    ensures Opens(CopyProtocol(sb, db, rs).0) == [WithFcb(F_OPEN, sb)]
  {
    var prelude := [WithFcb(F_DELETE, db), WithFcb(F_OPEN, sb)];
    assert Opens(prelude) == [WithFcb(F_OPEN, sb)] by {
      OpensConcat([WithFcb(F_DELETE, db)], [WithFcb(F_OPEN, sb)]);
      assert [WithFcb(F_DELETE, db)] + [WithFcb(F_OPEN, sb)] == prelude;
    }
    assert Opens([WithFcb(F_MAKE, db)]) == [];
    assert Opens([WithFcb(F_CLOSE, db)]) == [];
    OpensConcat(prelude, [WithFcb(F_MAKE, db)]);
    if Reply(rs, 1) != FAILED && Reply(rs, 2) != FAILED {
      var t := Transfer(sb, db, Drop(rs, 3));
      TransferOpensNothing(sb, db, Drop(rs, 3));
      OpensConcat(prelude + [WithFcb(F_MAKE, db)], t.0);
      OpensConcat(prelude + [WithFcb(F_MAKE, db)] + t.0, [WithFcb(F_CLOSE, db)]);
    }
  }

  /** A batch copy opens each source block exactly once, in the order of
      the targets, whatever the device answers. */
  lemma {:induction false} CopyEachOpensEachOnce(pairs: seq<BlockPair>, rs: seq<int>)
    ensures Opens(CopyEach(pairs, rs).0) == seq(|pairs|, j requires 0 <= j < |pairs| => WithFcb(F_OPEN, pairs[j].0))
    decreases |pairs|
  {
    if pairs != [] {
      var init, last := pairs[..|pairs| - 1], pairs[|pairs| - 1];
      CopyEachOpensEachOnce(init, rs);
      var t := CopyEach(init, rs);
      ProtocolOpensOnce(last.0, last.1, Drop(rs, t.1));
      OpensConcat(t.0, CopyProtocol(last.0, last.1, Drop(rs, t.1)).0);
    }
  }

  /** The device state after the copies of `pairs` and one more copy is the
      state after the copies of `pairs + [last]`. */
  lemma CopyEachAfter(pairs: seq<BlockPair>, last: BlockPair, rs: seq<int>, t0: seq<Call>, trace: seq<Call>, replies: seq<int>)
    requires var t := CopyEach(pairs, rs);
      var c := CopyProtocol(last.0, last.1, Drop(rs, t.1));
      trace == t0 + t.0 + c.0 && replies == Drop(Drop(rs, t.1), c.1)
    ensures trace == t0 + CopyEach(pairs + [last], rs).0
    ensures replies == Drop(rs, CopyEach(pairs + [last], rs).1)
  {
    var t := CopyEach(pairs, rs);
    var c := CopyProtocol(last.0, last.1, Drop(rs, t.1));
    CopyEachSnoc(pairs, last, rs);
    DropDrop(rs, t.1, c.1);
    ConcatAssoc(t0, t.0, c.0);
  }

  lemma CopyEachSingle(last: BlockPair, rs: seq<int>)
    ensures var c := CopyProtocol(last.0, last.1, rs); CopyEach([last], rs) == (c.0, c.1)
  {
    var c := CopyProtocol(last.0, last.1, rs);
    CopyEachSnoc([], last, rs);
    assert [] + [last] == [last];
    assert Drop(rs, 0) == rs;
    assert [] + c.0 == c.0;
  }

  lemma ConcatAssoc(a: seq<Call>, b: seq<Call>, c: seq<Call>)
    ensures a + b + c == a + (b + c)
  {
  }
}
