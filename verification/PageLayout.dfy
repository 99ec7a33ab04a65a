/** The bytes of a data page: the slots-per-page arithmetic (src/record/rm_manager.h), get_slot
    (src/record/rm_file_handle.h) and the slot bitmap (src/record/bitmap.h). */
module PageLayout {
  import opened Types
  import opened Finite

  const BITMAP_WIDTH := 8
  const FILE_HDR_BYTES := 20
  /** OFFSET_PAGE_HDR plus sizeof(RmPageHdr): where the bitmap starts. */
  const PAGE_HDR_BYTES := 12
  const RM_MAX_RECORD_SIZE := 512

  /** The record sizes create_file accepts. */
  predicate Accepted(recordSize: int) { 1 <= recordSize <= RM_MAX_RECORD_SIZE }

  function SlotsPerPage(recordSize: nat): nat {
    (BITMAP_WIDTH * (PAGE_SIZE - 1 - FILE_HDR_BYTES) + 1) / (1 + recordSize * BITMAP_WIDTH)
  }

  function BitmapSize(recordSize: nat): nat { (SlotsPerPage(recordSize) + BITMAP_WIDTH - 1) / BITMAP_WIDTH }

  function SlotOffset(recordSize: nat, slot: nat): nat {
    PAGE_HDR_BYTES + BitmapSize(recordSize) + slot * recordSize
  }

  lemma QuotientBound(x: nat, d: nat)
    requires d > 0
    ensures x / d * d <= x
  {
  }

  lemma {:induction false} SlotProduct(s: nat, t: nat, r: nat)
    requires s < t
    ensures s * r + r <= t * r
    decreases t
  {
    assert t * r == (t - 1) * r + r;
    if s == t - 1 {
    } else {
      SlotProduct(s, t - 1, r);
    }
  }

  /** Every page has room for at least one record, the bitmap has a bit for every slot, and all slots end inside the
      page. */
  lemma LayoutFits(recordSize: nat)
    requires Accepted(recordSize)
    ensures SlotsPerPage(recordSize) >= 1
    ensures SlotsPerPage(recordSize) <= BITMAP_WIDTH * BitmapSize(recordSize)
    ensures SlotOffset(recordSize, SlotsPerPage(recordSize)) <= PAGE_SIZE
  {
    var n := SlotsPerPage(recordSize);
    QuotientBound(32601, 1 + recordSize * 8);
    assert n * (1 + recordSize * 8) == n + 8 * (n * recordSize);
  }

  /** What the formula computes: the greatest number for which the file header, the records and their bits, rounded up
      by seven bits, fit the page. */
  lemma SlotsExactly(recordSize: nat, n: nat)
    ensures n <= SlotsPerPage(recordSize) <==>
      8 * FILE_HDR_BYTES + (n + 7) + 8 * (n * recordSize) <= 8 * PAGE_SIZE
  {
    var m, d := SlotsPerPage(recordSize), 1 + recordSize * 8;
    QuotientBound(32601, d);
    QuotientAbove(32601, d);
    assert n * d == n + 8 * (n * recordSize);
    if n <= m { Monotone(n, m, d); } else { Monotone(m + 1, n, d); }
  }

  lemma Monotone(a: nat, b: nat, d: nat)
    requires a <= b
    ensures a * d <= b * d
  {
    if a < b { SlotProduct(a, b, d); }
  }

  /** n records of the size, with a bit for each, fit behind the page header. */
  predicate RoomFor(recordSize: nat, n: nat) {
    PAGE_HDR_BYTES + (n + BITMAP_WIDTH - 1) / BITMAP_WIDTH + n * recordSize <= PAGE_SIZE
  }

  /** The number of slots fits, and comes close to the greatest that does: the formula counts the larger file header and
      one more byte, which costs at most eight of the smallest records, and one record of nine bytes or more. */
  lemma SlotsNearlyMost(recordSize: nat, n: nat)
    requires Accepted(recordSize)
    ensures RoomFor(recordSize, SlotsPerPage(recordSize))
    ensures RoomFor(recordSize, n) ==> n <= SlotsPerPage(recordSize) + 8
    ensures RoomFor(recordSize, n) && recordSize >= 9 ==> n <= SlotsPerPage(recordSize) + 1
  {
    LayoutFits(recordSize);
    QuotientAbove(32601, 1 + recordSize * 8);
    if RoomFor(recordSize, n) {
      RoomInBits(recordSize, n);
      NearlyMost(SlotsPerPage(recordSize), n, 1 + recordSize * 8);
    }
  }

  lemma RoomInBits(recordSize: nat, n: nat)
    requires RoomFor(recordSize, n)
    ensures n * (1 + recordSize * 8) <= 32672
  {
    assert n * (1 + recordSize * 8) == n + 8 * (n * recordSize);
  }

  lemma NearlyMost(m: nat, n: nat, d: nat)
    requires d >= 9 && (m + 1) * d > 32601 && n * d <= 32672
    ensures n <= m + 8 && (d >= 73 ==> n <= m + 1)
  {
    if n > m + 1 { MuchLonger(m, n, d); }
  }

  lemma QuotientAbove(x: nat, d: nat)
    requires d > 0
    ensures (x / d + 1) * d > x
  {
  }

  lemma MuchLonger(m: nat, n: nat, d: nat)
    requires n > m + 1 && d >= 1
    ensures n * d == (m + 1) * d + (n - m - 1) * d
    ensures (n - m - 1) * d >= d && (n > m + 8 ==> (n - m - 1) * d >= 8 * d)
  {
    SlotProduct(0, n - m - 1, d);
    if n > m + 8 { SlotProduct(7, n - m - 1, d); }
  }

  /** Two different slots share no byte, and every slot lies between the bitmap and the end of the page. */
  lemma SlotsDisjoint(recordSize: nat, s: nat, t: nat)
    requires Accepted(recordSize) && s < t < SlotsPerPage(recordSize)
    ensures SlotOffset(recordSize, s) + recordSize <= SlotOffset(recordSize, t)
  {
    hide SlotsPerPage;
    hide BitmapSize;
    SlotProduct(s, t, recordSize);
  }

  lemma SlotInPage(recordSize: nat, s: nat)
    requires Accepted(recordSize) && s < SlotsPerPage(recordSize)
    ensures PAGE_HDR_BYTES + BitmapSize(recordSize) <= SlotOffset(recordSize, s)
    ensures SlotOffset(recordSize, s) + recordSize <= PAGE_SIZE
  {
    hide SlotsPerPage;
    hide BitmapSize;
    LayoutFits(recordSize);
    SlotProduct(s, SlotsPerPage(recordSize), recordSize);
  }

  /** The bytes of one slot of a page. */
  function Slot(page: seq<Byte>, recordSize: nat, s: nat): seq<Byte>
    requires |page| == PAGE_SIZE && SlotOffset(recordSize, s) + recordSize <= PAGE_SIZE
  {
    page[SlotOffset(recordSize, s)..SlotOffset(recordSize, s) + recordSize]
  }

  /** Writing a record stays inside the page and changes no header byte, no bitmap byte and no other record. */
  method WriteSlot(page: array<Byte>, recordSize: nat, s: nat, buf: Record)
    requires page.Length == PAGE_SIZE && Accepted(recordSize) && s < SlotsPerPage(recordSize) && |buf| == recordSize
    modifies page
    ensures SlotOffset(recordSize, s) + recordSize <= PAGE_SIZE && Slot(page[..], recordSize, s) == buf
    ensures PAGE_HDR_BYTES + BitmapSize(recordSize) <= PAGE_SIZE
    ensures page[..PAGE_HDR_BYTES + BitmapSize(recordSize)] == old(page[..PAGE_HDR_BYTES + BitmapSize(recordSize)])
    ensures forall t :: 0 <= t < SlotsPerPage(recordSize) && t != s ==>
              SlotOffset(recordSize, t) + recordSize <= PAGE_SIZE
                && Slot(page[..], recordSize, t) == old(Slot(page[..], recordSize, t))
  {
    hide SlotsPerPage;
    hide BitmapSize;
    SlotInPage(recordSize, s);
    var at := SlotOffset(recordSize, s);
    for i := 0 to recordSize
      invariant page[at..at + i] == buf[..i]
      invariant forall k :: 0 <= k < PAGE_SIZE && !(at <= k < at + i) ==> page[k] == old(page[k])
    {
      ghost var done := page[at..at + i];
      page[at + i] := buf[i];
      assert page[at..at + i + 1] == done + [buf[i]];
    }
    assert buf[..recordSize] == buf;
    forall t | 0 <= t < SlotsPerPage(recordSize) && t != s
      ensures SlotOffset(recordSize, t) + recordSize <= PAGE_SIZE
        && Slot(page[..], recordSize, t) == old(Slot(page[..], recordSize, t))
    {
      SlotInPage(recordSize, t);
      if s < t { SlotsDisjoint(recordSize, s, t); } else { SlotsDisjoint(recordSize, t, s); }
    }
  }

  /** The records of a page by slot, as its page image holds them. */
  ghost function SlotsOf(page: seq<Byte>, recordSize: nat): (slots: seq<Record>)
    requires |page| == PAGE_SIZE && Accepted(recordSize)
    ensures |slots| == SlotsPerPage(recordSize)
    ensures forall s :: 0 <= s < |slots| ==>
      SlotOffset(recordSize, s) + recordSize <= PAGE_SIZE && slots[s] == Slot(page, recordSize, s)
  {
    AllSlotsInPage(recordSize);
    seq(SlotsPerPage(recordSize), s requires 0 <= s < SlotsPerPage(recordSize) => Slot(page, recordSize, s))
  }

  lemma AllSlotsInPage(recordSize: nat)
    requires Accepted(recordSize)
    ensures forall s :: 0 <= s < SlotsPerPage(recordSize) ==> SlotOffset(recordSize, s) + recordSize <= PAGE_SIZE
  {
    forall s | 0 <= s < SlotsPerPage(recordSize) ensures SlotOffset(recordSize, s) + recordSize <= PAGE_SIZE {
      SlotInPage(recordSize, s);
    }
  }

  /** On the page image, writing a record replaces exactly its slot. */
  method WriteRecord(page: array<Byte>, recordSize: nat, s: nat, buf: Record)
    requires page.Length == PAGE_SIZE && Accepted(recordSize) && s < SlotsPerPage(recordSize) && |buf| == recordSize
    modifies page
    ensures SlotsOf(page[..], recordSize) == old(SlotsOf(page[..], recordSize))[s := buf]
  {
    hide SlotsPerPage;
    hide BitmapSize;
    hide SlotOffset;
    hide Slot;
    WriteSlot(page, recordSize, s, buf);
  }

  // ------------------------------------------------------------------------- bitmap

  /** get_bit: BITMAP_HIGHEST_BIT shifted right by the position within the byte. */
  function Mask(k: nat): bv8
    requires k < 8
  {
    match k
    case 0 => 0x80
    case 1 => 0x40
    case 2 => 0x20
    case 3 => 0x10
    case 4 => 0x08
    case 5 => 0x04
    case 6 => 0x02
    case _ => 0x01
  }

  predicate IsSet(bm: seq<bv8>, pos: nat)
    requires pos < 8 * |bm|
  {
    bm[pos / 8] & Mask(pos % 8) != 0
  }

  /** Slot pos is the bit of byte pos / 8 that stands pos % 8 places below the highest. */
  lemma BitPlace(bm: seq<bv8>, pos: nat)
    requires pos < 8 * |bm|
    ensures IsSet(bm, pos) <==> (bm[pos / 8] << (pos % 8)) & 0x80 == 0x80
  {
    HighestBit(bm[pos / 8], pos % 8);
  }

  lemma HighestBit(b: bv8, k: nat)
    requires k < 8
    ensures b & Mask(k) != 0 <==> (b << k) & 0x80 == 0x80
  {
    if k == 0 {
    } else if k == 1 {
    } else if k == 2 {
    } else if k == 3 {
    } else if k == 4 {
    } else if k == 5 {
    } else if k == 6 {
    } else {
      assert k == 7;
    }
  }

  /** The bitmap as the page images of a record file hold it. */
  function BitsOf(bm: seq<bv8>): (bits: seq<bool>)
    ensures |bits| == 8 * |bm| && forall i :: 0 <= i < |bits| ==> bits[i] == IsSet(bm, i)
  {
    seq(8 * |bm|, i requires 0 <= i < 8 * |bm| => IsSet(bm, i))
  }

  lemma MaskBits(b: bv8, j: nat, k: nat)
    requires j < 8 && k < 8
    ensures (b | Mask(j)) & Mask(k) != 0 <==> j == k || b & Mask(k) != 0
    ensures (b & !Mask(j)) & Mask(k) != 0 <==> j != k && b & Mask(k) != 0
  {
  }

  /** set: exactly the bit at pos changes, to 1. */
  method Set(bm: array<bv8>, pos: nat)
    requires pos < 8 * bm.Length
    modifies bm
    ensures BitsOf(bm[..]) == old(BitsOf(bm[..]))[pos := true]
  {
    hide Mask;
    bm[pos / 8] := bm[pos / 8] | Mask(pos % 8);
    forall i | 0 <= i < 8 * bm.Length ensures IsSet(bm[..], i) <==> i == pos || old(IsSet(bm[..], i)) {
      if i / 8 == pos / 8 { MaskBits(old(bm[pos / 8]), pos % 8, i % 8); }
    }
  }

  /** reset: exactly the bit at pos changes, to 0. */
  method Reset(bm: array<bv8>, pos: nat)
    requires pos < 8 * bm.Length
    modifies bm
    ensures BitsOf(bm[..]) == old(BitsOf(bm[..]))[pos := false]
  {
    hide Mask;
    bm[pos / 8] := bm[pos / 8] & !Mask(pos % 8);
    forall i | 0 <= i < 8 * bm.Length ensures IsSet(bm[..], i) <==> i != pos && old(IsSet(bm[..], i)) {
      if i / 8 == pos / 8 { MaskBits(old(bm[pos / 8]), pos % 8, i % 8); }
    }
  }

  /** next_bit over the bytes finds what the search over the page image finds. */
  method NextBit(bit: bool, bm: array<bv8>, maxN: nat, curr: int) returns (i: nat)
    requires -1 <= curr < maxN <= 8 * bm.Length
    ensures IsNextBit(bit, BitsOf(bm[..]), maxN, curr, i)
  {
    hide Mask;
    i := curr + 1;
    while i < maxN
      invariant curr < i <= maxN
      invariant forall j :: curr < j < i ==> IsSet(bm[..], j) != bit
    {
      if IsSet(bm[..], i) == bit { return; }
      i := i + 1;
    }
  }
}
