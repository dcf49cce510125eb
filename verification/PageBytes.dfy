/**
 How the slotted layout lies in the bytes of a page: little-endian 32-bit fields for the free
 space pointer, the tuple count and two per slot, then free space, then the tuples.
 */
module PageBytes {
  import opened SlottedPage
  import opened SlottedOps

  const MIN_INT := -0x8000_0000
  const MAX_INT := 0x7fff_ffff

  // Little-endian digits in base 256.
  function ToBytes(u: nat, n: nat): (b: seq<byte>)
    ensures |b| == n
  {
    if n == 0 then [] else [u % 256] + ToBytes(u / 256, n - 1)
  }

  function FromBytes(b: seq<byte>): nat {
    if b == [] then 0 else (b[0] as int) + 256 * FromBytes(b[1..])
  }

  function Power256(n: nat): nat {
    if n == 0 then 1 else 256 * Power256(n - 1)
  }

  lemma {:induction false} DigitsRoundTrip(u: nat, n: nat)
    requires u < Power256(n)
    ensures FromBytes(ToBytes(u, n)) == u
  {
    if n > 0 {
      DigitsRoundTrip(u / 256, n - 1);
      assert ToBytes(u, n)[1..] == ToBytes(u / 256, n - 1);
    }
  }

  // Two's complement in four bytes.
  function Encode(v: int): (b: seq<byte>)
    requires MIN_INT <= v <= MAX_INT
    ensures |b| == 4
  {
    ToBytes(if v < 0 then v + 0x1_0000_0000 else v, 4)
  }

  function Decode(b: seq<byte>): int {
    var u := FromBytes(b);
    if u > MAX_INT then u - 0x1_0000_0000 else u
  }

  lemma EncodeDecode(v: int)
    requires MIN_INT <= v <= MAX_INT
    ensures Decode(Encode(v)) == v
  {
    assert Power256(4) == 256 * Power256(3) == 65536 * Power256(2) == 0x1_0000_0000;
    DigitsRoundTrip(if v < 0 then v + 0x1_0000_0000 else v, 4);
  }

  function GetInt(d: seq<byte>, pos: nat): int
    requires pos + 4 <= |d|
  {
    Decode(d[pos..pos + 4])
  }

  function PutInt(d: seq<byte>, pos: nat, v: int): seq<byte>
    requires pos + 4 <= |d| && MIN_INT <= v <= MAX_INT
  {
    Write(d, pos, Encode(v))
  }

  lemma PutGet(d: seq<byte>, pos: nat, v: int, q: nat)
    requires pos + 4 <= |d| && MIN_INT <= v <= MAX_INT && q + 4 <= |d|
    requires q == pos || q + 4 <= pos || pos + 4 <= q
    ensures GetInt(PutInt(d, pos, v), q) == if q == pos then v else GetInt(d, q)
  {
    EncodeDecode(v);
    var d2 := PutInt(d, pos, v);
    if q == pos {
      assert d2[q..q + 4] == Encode(v);
    } else {
      assert d2[q..q + 4] == d[q..q + 4];
    }
  }

  lemma HeadWrite(d: seq<byte>, n: nat, at: nat, bytes: seq<byte>)
    requires at + |bytes| <= n <= |d|
    ensures Write(d, at, bytes)[n..] == d[n..]
  {}

  const FREE_AT := 16
  const COUNT_AT := 20

  function OffsetAt(i: nat): nat { HEADER_SIZE + SLOT_SIZE * i }
  function SizeAt(i: nat): nat { HEADER_SIZE + SLOT_SIZE * i + 4 }

  // The bytes d hold the layout p.
  ghost predicate Layout(d: seq<byte>, p: Page) {
    && |d| == PAGE_SIZE && |p.body| == PAGE_SIZE && OffsetAt(|p.slots|) <= PAGE_SIZE
    && GetInt(d, FREE_AT) == p.free
    && GetInt(d, COUNT_AT) == |p.slots|
    && (forall i {:trigger SlotAt(d, i, p.slots[i])} :: 0 <= i < |p.slots| ==> SlotAt(d, i, p.slots[i]))
    && d[OffsetAt(|p.slots|)..] == p.body[OffsetAt(|p.slots|)..]
  }

  ghost predicate SlotAt(d: seq<byte>, i: nat, s: Slot) {
    SizeAt(i) + 4 <= |d| && GetInt(d, OffsetAt(i)) == s.off && GetInt(d, SizeAt(i)) == s.size
  }

  lemma WriteFree(d: seq<byte>, p: Page, v: int)
    requires Layout(d, p) && MIN_INT <= v <= MAX_INT
    ensures Layout(PutInt(d, FREE_AT, v), p.(free := v))
  {
    var d2 := PutInt(d, FREE_AT, v);
    HeadWrite(d, OffsetAt(|p.slots|), FREE_AT, Encode(v));
    PutGet(d, FREE_AT, v, FREE_AT);
    PutGet(d, FREE_AT, v, COUNT_AT);
    forall i | 0 <= i < |p.slots| ensures SlotAt(d2, i, p.slots[i]) {
      PutGet(d, FREE_AT, v, OffsetAt(i));
      PutGet(d, FREE_AT, v, SizeAt(i));
      assert SlotAt(d, i, p.slots[i]);
    }
  }

  // Writing one field of a slot.
  lemma WriteSlotField(d: seq<byte>, p: Page, k: nat, v: int, s: Slot, pos: nat)
    requires Layout(d, p) && MIN_INT <= v <= MAX_INT && k < |p.slots|
    requires (pos == OffsetAt(k) && s == p.slots[k].(off := v)) || (pos == SizeAt(k) && s == p.slots[k].(size := v))
    ensures pos + 4 <= |d| && Layout(PutInt(d, pos, v), p.(slots := p.slots[k := s]))
  {
    assert SlotAt(d, k, p.slots[k]);
    var d2, ss := PutInt(d, pos, v), p.slots[k := s];
    HeadWrite(d, OffsetAt(|p.slots|), pos, Encode(v));
    PutGet(d, pos, v, FREE_AT);
    PutGet(d, pos, v, COUNT_AT);
    forall i | 0 <= i < |ss| ensures SlotAt(d2, i, ss[i]) {
      assert SlotAt(d, i, p.slots[i]);
      PutGet(d, pos, v, OffsetAt(i));
      PutGet(d, pos, v, SizeAt(i));
    }
  }

  // A new slot is written into the free space, then the count is raised.
  lemma WriteNewSlot(d: seq<byte>, p: Page, s: Slot)
    requires Layout(d, p) && MIN_INT <= s.off <= MAX_INT && MIN_INT <= s.size <= MAX_INT
    requires OffsetAt(|p.slots| + 1) <= PAGE_SIZE
    ensures var n := |p.slots|;
            Layout(PutInt(PutInt(PutInt(d, OffsetAt(n), s.off), SizeAt(n), s.size), COUNT_AT, n + 1),
                   p.(slots := p.slots + [s]))
  {
    var n := |p.slots|;
    var d1 := PutInt(d, OffsetAt(n), s.off);
    var d2 := PutInt(d1, SizeAt(n), s.size);
    var d3 := PutInt(d2, COUNT_AT, n + 1);
    WriteElsewhere(d, d1, d2, d3, n, s, FREE_AT);
    PutGet(d2, COUNT_AT, n + 1, COUNT_AT);
    forall i | 0 <= i < n + 1 ensures SlotAt(d3, i, (p.slots + [s])[i]) {
      if i < n {
        assert SlotAt(d, i, p.slots[i]);
        WriteElsewhere(d, d1, d2, d3, n, s, OffsetAt(i));
        WriteElsewhere(d, d1, d2, d3, n, s, SizeAt(i));
      } else {
        PutGet(d, OffsetAt(n), s.off, OffsetAt(n));
        PutGet(d1, SizeAt(n), s.size, OffsetAt(n));
        PutGet(d1, SizeAt(n), s.size, SizeAt(n));
        PutGet(d2, COUNT_AT, n + 1, OffsetAt(n));
        PutGet(d2, COUNT_AT, n + 1, SizeAt(n));
      }
    }
    HeadWrite(d, OffsetAt(n + 1), OffsetAt(n), Encode(s.off));
    HeadWrite(d1, OffsetAt(n + 1), SizeAt(n), Encode(s.size));
    HeadWrite(d2, OffsetAt(n + 1), COUNT_AT, Encode(n + 1));
    assert d[OffsetAt(n + 1)..] == d[OffsetAt(n)..][SLOT_SIZE..];
    assert p.body[OffsetAt(n + 1)..] == p.body[OffsetAt(n)..][SLOT_SIZE..];
  }

  lemma WriteElsewhere(d: seq<byte>, d1: seq<byte>, d2: seq<byte>, d3: seq<byte>, n: nat, s: Slot, q: nat)
    requires |d| == PAGE_SIZE && OffsetAt(n + 1) <= PAGE_SIZE && q + 4 <= OffsetAt(n) &&
             (q + 4 <= COUNT_AT || COUNT_AT + 4 <= q)
    requires MIN_INT <= s.off <= MAX_INT && MIN_INT <= s.size <= MAX_INT
    requires d1 == PutInt(d, OffsetAt(n), s.off)
    requires d2 == PutInt(d1, SizeAt(n), s.size)
    requires d3 == PutInt(d2, COUNT_AT, n + 1)
    ensures GetInt(d3, q) == GetInt(d, q)
  {
    PutGet(d, OffsetAt(n), s.off, q);
    PutGet(d1, SizeAt(n), s.size, q);
    PutGet(d2, COUNT_AT, n + 1, q);
  }

  // Writing bytes behind the slots.
  lemma WriteBody(d: seq<byte>, p: Page, at: nat, bytes: seq<byte>)
    requires Layout(d, p) && OffsetAt(|p.slots|) <= at && at + |bytes| <= PAGE_SIZE
    ensures Layout(Write(d, at, bytes), p.(body := Write(p.body, at, bytes)))
  {
    var d2, n := Write(d, at, bytes), |p.slots|;
    assert d2[FREE_AT..FREE_AT + 4] == d[FREE_AT..FREE_AT + 4];
    assert d2[COUNT_AT..COUNT_AT + 4] == d[COUNT_AT..COUNT_AT + 4];
    forall i | 0 <= i < n ensures SlotAt(d2, i, p.slots[i]) {
      assert SlotAt(d, i, p.slots[i]);
      assert d2[OffsetAt(i)..OffsetAt(i) + 4] == d[OffsetAt(i)..OffsetAt(i) + 4];
      assert d2[SizeAt(i)..SizeAt(i) + 4] == d[SizeAt(i)..SizeAt(i) + 4];
    }
    TailWrite(d, p.body, OffsetAt(n), at, bytes);
  }

  lemma TailWrite(d: seq<byte>, b: seq<byte>, n: nat, at: nat, bytes: seq<byte>)
    requires |d| == |b| && n <= at && at + |bytes| <= |d| && d[n..] == b[n..]
    ensures Write(d, at, bytes)[n..] == Write(b, at, bytes)[n..]
  {
    var d2, b2 := Write(d, at, bytes), Write(b, at, bytes);
    forall x | n <= x < |d| ensures d2[x] == b2[x] {
      assert d[x] == d[n..][x - n] == b[n..][x - n] == b[x];
    }
  }
}
