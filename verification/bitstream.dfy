/**
 * Writing one decode unit into the decoder's circular bitstream buffer
 * (client/moonlight-embedded-mod/src/video/imx_vpu.c).
 */
module Bitstream {

  const STREAM_BUF_SIZE: nat := 0x20_0000
  const WORD := 0x1_0000_0000

  type Byte = x: int | 0 <= x < 256

  /** The linked list of buffers of a decode unit. */
  datatype Entries = Null | Entry(data: seq<Byte>, next: Entries)

  function Total(e: Entries): seq<Byte> {
    match e
    case Null => []
    case Entry(data, next) => data + Total(next)
  }

  predicate EachFits(e: Entries) {
    e.Entry? ==> |e.data| <= STREAM_BUF_SIZE && EachFits(e.next)
  }

  /** Uint32 addition and subtraction. */
  function Add32(a: int, b: int): int { (a + b) % WORD }
  function Sub32(a: int, b: int): int { (a - b) % WORD }

  /** The position of byte k of a write that starts at `start`. */
  function Slot(start: nat, k: nat): nat {
    (start + k) % STREAM_BUF_SIZE
  }

  /** Two positions that name the same cell of the buffer. */
  predicate SameSlot(a: nat, b: nat) {
    Slot(a, 0) == Slot(b, 0)
  }

  /** Byte after byte, each one cell further, going round at the end. */
  function Written(mem: seq<Byte>, start: nat, bytes: seq<Byte>): (r: seq<Byte>)
    requires |mem| == STREAM_BUF_SIZE
    ensures |r| == STREAM_BUF_SIZE
    decreases |bytes|
  {
    if bytes == [] then mem
    else Written(mem[Slot(start, 0) := bytes[0]], start + 1, bytes[1..])
  }

  // ----- what a circular write leaves in each cell -----

  /** The last byte of the write that lands in cell c, if any does. */
  function LastAt(start: nat, n: nat, c: nat): (k: int)
    ensures k >= 0 ==> k < n && Slot(start, k) == c
    ensures forall j :: k < j < n && j >= 0 ==> Slot(start, j) != c
    ensures k >= -1
  {
    if n == 0 then -1 else if Slot(start, n - 1) == c then n - 1 else LastAt(start, n - 1, c)
  }

  /** Every cell holds the last byte that landed there, or what it held before. */
  lemma {:induction false} CellsAfter(mem: seq<Byte>, start: nat, bytes: seq<Byte>, c: nat)
    requires |mem| == STREAM_BUF_SIZE && c < STREAM_BUF_SIZE
    ensures Written(mem, start, bytes)[c]
            == var k := LastAt(start, |bytes|, c); if k >= 0 then bytes[k] else mem[c]
    decreases |bytes|
  {
    if bytes != [] {
      var mem' := mem[Slot(start, 0) := bytes[0]];
      CellsAfter(mem', start + 1, bytes[1..], c);
      ShiftLast(start, |bytes|, c);
    }
  }

  lemma {:induction false} ShiftLast(start: nat, n: nat, c: nat)
    requires n > 0
    ensures LastAt(start, n, c)
            == if LastAt(start + 1, n - 1, c) >= 0 then LastAt(start + 1, n - 1, c) + 1
               else if Slot(start, 0) == c then 0 else -1
  {
    if n > 1 {
      assert Slot(start, n - 1) == Slot(start + 1, n - 2);
      if Slot(start, n - 1) != c {
        ShiftLast(start, n - 1, c);
      }
    }
  }

  /** A write no longer than the buffer meets no cell twice. */
  lemma SlotsDistinct(start: nat, j: nat, k: nat)
    requires j < k < j + STREAM_BUF_SIZE
    ensures Slot(start, j) != Slot(start, k)
  {
  }

  /**
   * Byte k lands at (start + k) mod size, and every cell that no byte reaches is
   * unchanged, for every write that fits the buffer.
   */
  lemma WrittenCells(mem: seq<Byte>, start: nat, bytes: seq<Byte>)
    requires |mem| == STREAM_BUF_SIZE && |bytes| <= STREAM_BUF_SIZE
    ensures forall k :: 0 <= k < |bytes| ==> Written(mem, start, bytes)[Slot(start, k)] == bytes[k]
    ensures forall c :: 0 <= c < STREAM_BUF_SIZE && (forall k :: 0 <= k < |bytes| ==> Slot(start, k) != c)
              ==> Written(mem, start, bytes)[c] == mem[c]
  {
    forall k | 0 <= k < |bytes|
      ensures Written(mem, start, bytes)[Slot(start, k)] == bytes[k]
    {
      CellsAfter(mem, start, bytes, Slot(start, k));
      var l := LastAt(start, |bytes|, Slot(start, k));
      if l > k {
        SlotsDistinct(start, k, l);
      }
    }
    forall c | 0 <= c < STREAM_BUF_SIZE && (forall k :: 0 <= k < |bytes| ==> Slot(start, k) != c)
      ensures Written(mem, start, bytes)[c] == mem[c]
    {
      CellsAfter(mem, start, bytes, c);
    }
  }

  lemma {:induction false} WrittenConcat(mem: seq<Byte>, start: nat, a: seq<Byte>, b: seq<Byte>)
    requires |mem| == STREAM_BUF_SIZE
    ensures Written(mem, start, a + b) == Written(Written(mem, start, a), start + |a|, b)
    decreases |a|
  {
    if a == [] {
      assert a + b == b;
    } else {
      assert (a + b)[1..] == a[1..] + b;
      WrittenConcat(mem[Slot(start, 0) := a[0]], start + 1, a[1..], b);
    }
  }

  /** Only the position in the buffer matters. */
  lemma {:induction false} WrittenModulo(mem: seq<Byte>, start: nat, start': nat, bytes: seq<Byte>)
    requires |mem| == STREAM_BUF_SIZE && SameSlot(start, start')
    ensures Written(mem, start, bytes) == Written(mem, start', bytes)
    decreases |bytes|
  {
    if bytes != [] {
      WrittenModulo(mem[Slot(start, 0) := bytes[0]], start + 1, start' + 1, bytes[1..]);
    }
  }

  /** A write that does not pass the end is a plain copy. */
  lemma {:induction false} WrittenStraight(mem: seq<Byte>, start: nat, bytes: seq<Byte>)
    requires |mem| == STREAM_BUF_SIZE && start + |bytes| <= STREAM_BUF_SIZE
    ensures Written(mem, start, bytes) == mem[..start] + bytes + mem[start + |bytes|..]
    decreases |bytes|
  {
    if bytes == [] {
      assert mem[..start] + mem[start..] == mem;
    } else {
      WrittenStraight(mem[start := bytes[0]], start + 1, bytes[1..]);
      var m := mem[start := bytes[0]];
      assert m[..start + 1] + bytes[1..] == mem[..start] + bytes;
    }
  }

  // ----- the loop -----

  /** memcpy into the mapped buffer. */
  method CopyTo(buf: array<Byte>, at: nat, bytes: seq<Byte>)
    requires at + |bytes| <= buf.Length
    modifies buf
    ensures buf[..] == old(buf[..at]) + bytes + old(buf[at + |bytes|..])
  {
    for i := 0 to |bytes|
      invariant buf[..] == old(buf[..at]) + bytes[..i] + old(buf[at + i..])
    {
      buf[at + i] := bytes[i];
    }
  }

  /**
   * The copying part of vpu_decode, with the buffer mapped at address `base` and
   * the decoder's write pointer `offset` bytes into it.
   *
   * Unit and buffer may be of equal length or the unit longer: the source only
   * warns then. Each single entry must fit, or the second copy runs out of the buffer.
   */
  method WriteUnit(buf: array<Byte>, base: nat, offset: nat, unit: Entries)
    requires buf.Length == STREAM_BUF_SIZE && offset <= STREAM_BUF_SIZE
    requires base + 2 * STREAM_BUF_SIZE < WORD && EachFits(unit)
    modifies buf
    ensures buf[..] == Written(old(buf[..]), offset, Total(unit))
  {
    NoWrap(base, offset);
    var target := Add32(base, offset);
    var entry := unit;
    ghost var whole, at: nat := Written(buf[..], offset, Total(unit)), offset;
    while entry != Null
      invariant base <= target <= base + STREAM_BUF_SIZE && EachFits(entry)
      invariant SameSlot(target - base, at)
      invariant Written(buf[..], at, Total(entry)) == whole
      decreases entry
    {
      ghost var start := target - base;
      EntryThenRest(buf[..], at, start, entry.data, Total(entry.next));
      target := WriteEntry(buf, base, target, entry.data);
      SameSlotMoves(start, target - base, at, |entry.data|);
      at := at + |entry.data|;
      entry := entry.next;
    }
  }

  lemma SameSlotMoves(start: nat, next: nat, at: nat, n: nat)
    requires SameSlot(start, at) && SameSlot(next, start + n)
    ensures SameSlot(next, at + n)
  {
  }

  /** One turn's step of the loop invariant. */
  lemma EntryThenRest(mem: seq<Byte>, at: nat, start: nat, data: seq<Byte>, rest: seq<Byte>)
    requires |mem| == STREAM_BUF_SIZE && SameSlot(start, at)
    ensures Written(mem, at, data + rest) == Written(Written(mem, start, data), at + |data|, rest)
  {
    WrittenConcat(mem, at, data, rest);
    WrittenModulo(mem, start, at, data);
  }

  /** One turn of the loop: the entry is copied in one piece, or in two around the end. */
  method WriteEntry(buf: array<Byte>, base: nat, target: int, data: seq<Byte>) returns (next: int)
    requires buf.Length == STREAM_BUF_SIZE && base + 2 * STREAM_BUF_SIZE < WORD
    requires base <= target <= base + STREAM_BUF_SIZE && |data| <= STREAM_BUF_SIZE
    modifies buf
    ensures buf[..] == Written(old(buf[..]), target - base, data)
    ensures base <= next <= base + STREAM_BUF_SIZE
    ensures SameSlot(next - base, target - base + |data|)
  {
    ghost var mem, start: nat := buf[..], target - base;
    NoWrap(target, |data|);
    NoWrap(base, STREAM_BUF_SIZE);
    if Add32(target, |data|) > Add32(base, STREAM_BUF_SIZE) {
      var room := Sub32(Add32(base, STREAM_BUF_SIZE), target);
      assert room == STREAM_BUF_SIZE - start;
      WrittenAround(mem, start, data, room);
      CopyTo(buf, target - base, data[..room]);
      assert buf[..] == mem[..start] + data[..room];
      CopyTo(buf, 0, data[room..]);
      NoWrap(base, |data|);
      next := Sub32(Add32(base, |data|), room);
      assert next == base + |data| - room;
    } else {
      CopyTo(buf, target - base, data);
      WrittenStraight(mem, start, data);
      next := Add32(target, |data|);
    }
  }

  lemma NoWrap(a: int, b: int)
    requires 0 <= a + b < WORD
    ensures Add32(a, b) == a + b
  {
  }

  /** A write that passes the end is a copy up to the end and a copy from the beginning. */
  lemma WrittenAround(mem: seq<Byte>, start: nat, data: seq<Byte>, room: nat)
    requires |mem| == STREAM_BUF_SIZE && start + room == STREAM_BUF_SIZE
    requires room <= |data| <= STREAM_BUF_SIZE
    ensures var mid := mem[..start] + data[..room];
            |mid| == STREAM_BUF_SIZE && Written(mem, start, data) == data[room..] + mid[|data| - room..]
  {
    assert data == data[..room] + data[room..];
    WrittenConcat(mem, start, data[..room], data[room..]);
    WrittenStraight(mem, start, data[..room]);
    var mid := mem[..start] + data[..room];
    assert mid == mem[..start] + data[..room] + mem[start + room..];
    WrittenModulo(mid, STREAM_BUF_SIZE, 0, data[room..]);
    WrittenStraight(mid, 0, data[room..]);
    assert mid[..0] + data[room..] == data[room..];
  }
}
