/** Relocation tables, the layout of each relocation type, and the patching of a
    byte segment at the sites a table names (linuxkm_memory.h, and the
    `reloc_layouts` table of linuxkm_memory.c). */
module RelocTable {
  import opened Bytes

  type Word32 = x: int | 0 <= x < TWO32
  type Signed32 = x: int | -0x8000_0000 <= x < 0x8000_0000
  type Word64 = x: int | 0 <= x < TWO64
  type SegmentTag = x: int | 0 <= x < 8    // a 3-bit field
  type TypeTag = x: int | 0 <= x < 32      // a 5-bit field

  const SEG_NONE: SegmentTag := 1
  const SEG_TEXT: SegmentTag := 2
  const SEG_RODATA: SegmentTag := 3
  const SEG_RWDATA: SegmentTag := 4
  const SEG_BSS: SegmentTag := 5
  const SEG_OTHER: SegmentTag := 6

  const R_NONE: TypeTag := 1
  const R_X86_64_32: TypeTag := 2
  const R_X86_64_32S: TypeTag := 3
  const R_X86_64_64: TypeTag := 4
  const R_X86_64_PC32: TypeTag := 5
  const R_X86_64_PLT32: TypeTag := 6
  const R_AARCH64_ABS64: TypeTag := 8
  const R_ARM_THM_JUMP11: TypeTag := 22
  const R_LAST: TypeTag := 25

  datatype Entry = Entry(offset: Word32, destOffset: Word32, destAddend: Signed32,
                         destSegment: SegmentTag, relocType: TypeTag)

  /** Types 0 and 1 have an all-zero layout, hence width 0, and types past the table have none. */
  predicate KnownType(t: TypeTag) {
    R_X86_64_32 <= t <= R_LAST
  }

  predicate IsX86(t: TypeTag) {
    R_X86_64_32 <= t <= R_X86_64_PLT32
  }

  /** The field width in bytes. */
  function Width(t: TypeTag): (k: nat)
    requires KnownType(t)
    ensures k == 2 || k == 4 || k == 8
    ensures IsX86(t) ==> k != 2
  {
    if t == R_X86_64_64 || t == R_AARCH64_ABS64 then 8
    else if t == R_ARM_THM_JUMP11 then 2
    else 4
  }

  /** Meaningful for the x86 types only: every other type is normalized to zero. */
  predicate IsSigned(t: TypeTag) {
    t == R_X86_64_32S || t == R_X86_64_PC32 || t == R_X86_64_PLT32
  }

  predicate IsRelative(t: TypeTag) {
    t == R_X86_64_PC32 || t == R_X86_64_PLT32
  }

  /** An entry that the normalizer acts on. */
  predicate Active(e: Entry) {
    e.destSegment != SEG_NONE && KnownType(e.relocType)
  }

  function End(e: Entry): nat
    requires Active(e)
  {
    e.offset + Width(e.relocType)
  }

  /** The segment an entry is counted under: anything unknown is "other". */
  function Destination(s: SegmentTag): SegmentTag {
    if SEG_TEXT <= s <= SEG_BSS then s else SEG_OTHER
  }

  /** What the build system promises of a table for a segment of `size` bytes:
      offsets in order, no two fields overlapping, only known types, and a last
      entry that is a sentinel at or past the end of the segment. */
  ghost predicate WellFormed(tab: seq<Entry>, size: nat) {
    && |tab| >= 1
    && tab[|tab| - 1].destSegment == SEG_NONE
    && tab[|tab| - 1].offset >= size
    && Sorted(tab)
    && (forall i :: 0 <= i < |tab| && tab[i].destSegment != SEG_NONE ==> KnownType(tab[i].relocType))
    && Disjoint(tab)
  }

  /** Always true: names a pair of entries, so that the facts below are used only where they are asked for. */
  ghost predicate Pair(tab: seq<Entry>, i: int, j: int) {
    true
  }

  ghost predicate Sorted(tab: seq<Entry>) {
    forall i, j {:trigger Pair(tab, i, j)} ::
      Pair(tab, i, j) && 0 <= i <= j < |tab| ==> tab[i].offset <= tab[j].offset
  }

  ghost predicate Disjoint(tab: seq<Entry>) {
    forall i, j {:trigger Pair(tab, i, j)} ::
      Pair(tab, i, j) && 0 <= i < j < |tab| && Active(tab[i]) && Active(tab[j]) ==> End(tab[i]) <= tab[j].offset
  }

  /** The field of `e` lies wholly inside the span [lo, hi). */
  predicate Inside(e: Entry, lo: nat, hi: nat) {
    Active(e) && lo <= e.offset && End(e) <= hi
  }

  /** The field of `e` has a byte on each side of position `at`. */
  predicate Crosses(e: Entry, at: nat) {
    Active(e) && e.offset < at < End(e)
  }

  /** Byte `p` belongs to the field of `e`. */
  predicate Covers(e: Entry, p: nat) {
    Active(e) && e.offset <= p < End(e)
  }

  // ---- Patching a span of a segment at the sites of a table ----

  /** How one field is rewritten, given its entry and its present bytes. */
  type Rewrite = (Entry, seq<byte>) -> seq<byte>

  ghost predicate KeepsWidth(f: Rewrite) {
    forall e: Entry, s: seq<byte> :: Active(e) && |s| == Width(e.relocType) ==> |f(e, s)| == |s|
  }

  /** Byte `p` of `raw` once `f` has been applied to every field, among the
      first `n` entries, that lies wholly inside the span [lo, hi). */
  ghost function PatchedByte(f: Rewrite, tab: seq<Entry>, raw: seq<byte>, lo: nat, hi: nat, n: nat, p: nat): byte
    requires KeepsWidth(f)
    requires lo <= p < hi <= |raw| && n <= |tab|
    decreases n
  {
    if n == 0 then raw[p]
    else if Inside(tab[n - 1], lo, hi) && Covers(tab[n - 1], p) then FieldByte(f, tab[n - 1], raw, p)
    else PatchedByte(f, tab, raw, lo, hi, n - 1, p)
  }

  ghost function FieldByte(f: Rewrite, e: Entry, raw: seq<byte>, p: nat): byte
    requires KeepsWidth(f) && Covers(e, p) && End(e) <= |raw|
  {
    f(e, raw[e.offset..End(e)])[p - e.offset]
  }

  /** Bytes [lo, hi) of `raw`, with `f` applied to every field wholly inside. */
  ghost function Patched(f: Rewrite, tab: seq<Entry>, raw: seq<byte>, lo: nat, hi: nat): (r: seq<byte>)
    requires KeepsWidth(f)
    requires lo <= hi <= |raw|
    ensures |r| == hi - lo
    ensures forall q :: 0 <= q < |r| ==> r[q] == PatchedByte(f, tab, raw, lo, hi, |tab|, lo + q)
  {
    seq<byte>(hi - lo, q requires 0 <= q < hi - lo => PatchedByte(f, tab, raw, lo, hi, |tab|, lo + q))
  }

  /** A byte that no field covers is copied through. */
  lemma {:induction false} ByteElsewhere(f: Rewrite, tab: seq<Entry>, raw: seq<byte>, lo: nat, hi: nat, n: nat, p: nat)
    requires KeepsWidth(f)
    requires lo <= p < hi <= |raw| && n <= |tab|
    requires forall j :: 0 <= j < n ==> !Covers(tab[j], p)
    ensures PatchedByte(f, tab, raw, lo, hi, n, p) == raw[p]
    decreases n
  {
    if n > 0 { ByteElsewhere(f, tab, raw, lo, hi, n - 1, p); }
  }

  /** A byte of a field inside the span is what `f` makes of that field's own raw bytes. */
  lemma {:induction false} ByteInField(f: Rewrite, tab: seq<Entry>, raw: seq<byte>, lo: nat, hi: nat, n: nat, j: nat, p: nat)
    requires KeepsWidth(f) && Disjoint(tab)
    requires lo <= p < hi <= |raw| && j < n <= |tab|
    requires Inside(tab[j], lo, hi) && Covers(tab[j], p)
    ensures PatchedByte(f, tab, raw, lo, hi, n, p) == FieldByte(f, tab[j], raw, p)
    decreases n
  {
    assert Pair(tab, j, n - 1);
    if j < n - 1 { ByteInField(f, tab, raw, lo, hi, n - 1, j, p); }
  }

  /** A field inside a patched span is the rewrite of its own raw bytes. */
  lemma {:induction false} PatchedField(f: Rewrite, tab: seq<Entry>, raw: seq<byte>, lo: nat, hi: nat, j: nat, r: seq<byte>)
    requires KeepsWidth(f) && Disjoint(tab) && lo <= hi <= |raw| && j < |tab| && Inside(tab[j], lo, hi)
    requires r == Patched(f, tab, raw, lo, hi)
    ensures r[tab[j].offset - lo..End(tab[j]) - lo] == f(tab[j], raw[tab[j].offset..End(tab[j])])
  {
    var e := tab[j];
    var field, stored := r[e.offset - lo..End(e) - lo], f(e, raw[e.offset..End(e)]);
    forall q | 0 <= q < |field| ensures field[q] == stored[q] {
      ByteInField(f, tab, raw, lo, hi, |tab|, j, e.offset + q);
    }
  }

  /** No field inside the span covers `p`. */
  ghost predicate Untouched(tab: seq<Entry>, lo: nat, hi: nat, p: nat) {
    forall j :: 0 <= j < |tab| ==> !(Inside(tab[j], lo, hi) && Covers(tab[j], p))
  }

  lemma {:induction false} ByteUntouched(f: Rewrite, tab: seq<Entry>, raw: seq<byte>, lo: nat, hi: nat, n: nat, p: nat)
    requires KeepsWidth(f) && lo <= p < hi <= |raw| && n <= |tab| && Untouched(tab, lo, hi, p)
    ensures PatchedByte(f, tab, raw, lo, hi, n, p) == raw[p]
    decreases n
  {
    if n > 0 { ByteUntouched(f, tab, raw, lo, hi, n - 1, p); }
  }

  /** Every field inside the span is rewritten from its own raw bytes, and every other byte is copied. */
  ghost predicate Rewrites(f: Rewrite, tab: seq<Entry>, raw: seq<byte>, lo: nat, hi: nat, r: seq<byte>)
    requires lo <= hi <= |raw|
  {
    && |r| == hi - lo
    && (forall j :: 0 <= j < |tab| && Inside(tab[j], lo, hi) ==>
          r[tab[j].offset - lo..End(tab[j]) - lo] == f(tab[j], raw[tab[j].offset..End(tab[j])]))
    && (forall q :: 0 <= q < hi - lo && Untouched(tab, lo, hi, lo + q) ==> r[q] == raw[lo + q])
  }

  /** The patched span is the one sequence that meets this description. */
  lemma {:induction false} PatchedIff(f: Rewrite, tab: seq<Entry>, raw: seq<byte>, lo: nat, hi: nat, r: seq<byte>)
    requires KeepsWidth(f) && Disjoint(tab) && lo <= hi <= |raw|
    ensures r == Patched(f, tab, raw, lo, hi) <==> Rewrites(f, tab, raw, lo, hi, r)
  {
    var whole := Patched(f, tab, raw, lo, hi);
    forall j | 0 <= j < |tab| && Inside(tab[j], lo, hi)
      ensures whole[tab[j].offset - lo..End(tab[j]) - lo] == f(tab[j], raw[tab[j].offset..End(tab[j])])
    {
      PatchedField(f, tab, raw, lo, hi, j, whole);
    }
    forall q | 0 <= q < hi - lo && Untouched(tab, lo, hi, lo + q) ensures whole[q] == raw[lo + q] {
      ByteUntouched(f, tab, raw, lo, hi, |tab|, lo + q);
    }
    if Rewrites(f, tab, raw, lo, hi, r) {
      forall q | 0 <= q < hi - lo ensures r[q] == whole[q] {
        SameByte(f, tab, raw, lo, hi, r, whole, q);
      }
    }
  }

  lemma {:induction false} SameByte(f: Rewrite, tab: seq<Entry>, raw: seq<byte>, lo: nat, hi: nat, r: seq<byte>, s: seq<byte>, q: nat)
    requires lo <= hi <= |raw| && q < hi - lo && Rewrites(f, tab, raw, lo, hi, r) && Rewrites(f, tab, raw, lo, hi, s)
    ensures r[q] == s[q]
  {
    if j :| 0 <= j < |tab| && Inside(tab[j], lo, hi) && Covers(tab[j], lo + q) {
      var a, b := tab[j].offset - lo, End(tab[j]) - lo;
      assert r[q] == r[a..b][q - a] && s[q] == s[a..b][q - a];
    } else {
      assert Untouched(tab, lo, hi, lo + q);
    }
  }

  /** Entries from `m` on that have no field inside the span leave the byte alone. */
  lemma {:induction false} ByteIgnores(f: Rewrite, tab: seq<Entry>, raw: seq<byte>, lo: nat, hi: nat, m: nat, n: nat, p: nat)
    requires KeepsWidth(f)
    requires lo <= p < hi <= |raw| && m <= n <= |tab|
    requires forall j :: m <= j < n ==> !Inside(tab[j], lo, hi)
    ensures PatchedByte(f, tab, raw, lo, hi, n, p) == PatchedByte(f, tab, raw, lo, hi, m, p)
    decreases n
  {
    if m < n { ByteIgnores(f, tab, raw, lo, hi, m, n - 1, p); }
  }

  /** The byte depends only on which fields cover it and lie inside, not on the span itself. */
  lemma {:induction false} ByteReframe(f: Rewrite, tab: seq<Entry>, raw: seq<byte>, lo: nat, hi: nat, lo': nat, hi': nat, n: nat, p: nat)
    requires KeepsWidth(f)
    requires lo <= p < hi <= |raw| && lo' <= p < hi' <= |raw| && n <= |tab|
    requires forall j :: 0 <= j < n && Covers(tab[j], p) ==> (Inside(tab[j], lo, hi) <==> Inside(tab[j], lo', hi'))
    ensures PatchedByte(f, tab, raw, lo, hi, n, p) == PatchedByte(f, tab, raw, lo', hi', n, p)
    decreases n
  {
    if n > 0 { ByteReframe(f, tab, raw, lo, hi, lo', hi', n - 1, p); }
  }

  /** Cutting a span where no field crosses the cut: the parts concatenate to the whole. */
  lemma {:induction false} PatchedConcat(f: Rewrite, tab: seq<Entry>, raw: seq<byte>, lo: nat, mid: nat, hi: nat)
    requires KeepsWidth(f)
    requires lo <= mid <= hi <= |raw|
    requires forall j :: 0 <= j < |tab| && lo <= tab[j].offset ==> !Crosses(tab[j], mid)
    ensures Patched(f, tab, raw, lo, hi) == Patched(f, tab, raw, lo, mid) + Patched(f, tab, raw, mid, hi)
  {
    var whole, a, b := Patched(f, tab, raw, lo, hi), Patched(f, tab, raw, lo, mid), Patched(f, tab, raw, mid, hi);
    forall q | 0 <= q < hi - lo
      ensures whole[q] == (a + b)[q]
    {
      if q < mid - lo {
        ByteReframe(f, tab, raw, lo, hi, lo, mid, |tab|, lo + q);
      } else {
        assert (a + b)[q] == b[q - |a|];
        ByteReframe(f, tab, raw, lo, hi, mid, hi, |tab|, lo + q);
      }
    }
  }

  /** A span is patched from its own bytes alone. */
  lemma {:induction false} ByteLocal(f: Rewrite, tab: seq<Entry>, raw: seq<byte>, raw': seq<byte>, lo: nat, hi: nat, n: nat, p: nat)
    requires KeepsWidth(f)
    requires lo <= p < hi <= |raw| && hi <= |raw'| && n <= |tab|
    requires raw[lo..hi] == raw'[lo..hi]
    ensures PatchedByte(f, tab, raw, lo, hi, n, p) == PatchedByte(f, tab, raw', lo, hi, n, p)
    decreases n
  {
    if n == 0 {
      assert raw[p] == raw[lo..hi][p - lo] == raw'[p];
    } else {
      ByteLocal(f, tab, raw, raw', lo, hi, n - 1, p);
      var e := tab[n - 1];
      if Inside(e, lo, hi) {
        SubSlice(raw, lo, hi, e.offset, End(e));
        SubSlice(raw', lo, hi, e.offset, End(e));
      }
    }
  }

  lemma {:induction false} PatchedLocal(f: Rewrite, tab: seq<Entry>, raw: seq<byte>, raw': seq<byte>, lo: nat, hi: nat)
    requires KeepsWidth(f)
    requires lo <= hi <= |raw| && hi <= |raw'|
    requires raw[lo..hi] == raw'[lo..hi]
    ensures Patched(f, tab, raw, lo, hi) == Patched(f, tab, raw', lo, hi)
  {
    forall q | 0 <= q < hi - lo
      ensures Patched(f, tab, raw, lo, hi)[q] == Patched(f, tab, raw', lo, hi)[q]
    {
      ByteLocal(f, tab, raw, raw', lo, hi, |tab|, lo + q);
    }
  }

  // ---- Counting ----

  /** The entries among the first `n` that are counted under `d` and whose field starts in [lo, hi). */
  function CountIn(tab: seq<Entry>, lo: nat, hi: nat, n: nat, d: SegmentTag): (c: nat)
    requires n <= |tab|
  {
    if n == 0 then 0 else CountIn(tab, lo, hi, n - 1, d) + Weight(tab[n - 1], lo, hi, d)
  }

  function Weight(e: Entry, lo: nat, hi: nat, d: SegmentTag): (c: nat) {
    if Active(e) && lo <= e.offset < hi && Destination(e.destSegment) == d then 1 else 0
  }

  lemma {:induction false} CountConcat(tab: seq<Entry>, lo: nat, mid: nat, hi: nat, n: nat, d: SegmentTag)
    requires lo <= mid <= hi && n <= |tab|
    ensures CountIn(tab, lo, hi, n, d) == CountIn(tab, lo, mid, n, d) + CountIn(tab, mid, hi, n, d)
    decreases n
  {
    if n > 0 { CountConcat(tab, lo, mid, hi, n - 1, d); }
  }

  lemma {:induction false} CountIgnores(tab: seq<Entry>, lo: nat, hi: nat, m: nat, n: nat, d: SegmentTag)
    requires m <= n <= |tab|
    requires forall j :: m <= j < n && Active(tab[j]) ==> !(lo <= tab[j].offset < hi)
    ensures CountIn(tab, lo, hi, n, d) == CountIn(tab, lo, hi, m, d)
    decreases n
  {
    if m < n { CountIgnores(tab, lo, hi, m, n - 1, d); }
  }

  /** The numbers that go into labels, and the field widths of the known types, by number. */
  lemma {:induction false} WidthTable(t: TypeTag)
    ensures SEG_NONE == 1 && SEG_TEXT == 2 && SEG_RODATA == 3 && SEG_RWDATA == 4 && SEG_BSS == 5 && SEG_OTHER == 6
    ensures R_X86_64_32 == 2 && R_X86_64_32S == 3 && R_X86_64_64 == 4 && R_X86_64_PC32 == 5 && R_X86_64_PLT32 == 6
    ensures KnownType(t) <==> 2 <= t <= 25
    ensures KnownType(t) ==> Width(t) == if t == 4 || t == 8 then 8 else if t == 22 then 2 else 4
  {
  }

  /** The entry refers to a segment counted under `d`, has a known type, and starts in [lo, hi). */
  predicate CountsUnder(e: Entry, lo: nat, hi: nat, d: SegmentTag) {
    && e.destSegment != SEG_NONE && 2 <= e.relocType <= 25 && lo <= e.offset < hi
    && d == if SEG_TEXT <= e.destSegment <= SEG_BSS then e.destSegment else SEG_OTHER
  }

  function Counted(tab: seq<Entry>, lo: nat, hi: nat, n: nat, d: SegmentTag): set<nat>
    requires n <= |tab|
  {
    set j: nat | j < n && CountsUnder(tab[j], lo, hi, d)
  }

  /** A counter is the number of those entries. */
  lemma {:induction false} CountIsCardinality(tab: seq<Entry>, lo: nat, hi: nat, n: nat, d: SegmentTag)
    requires n <= |tab|
    ensures CountIn(tab, lo, hi, n, d) == |Counted(tab, lo, hi, n, d)|
    decreases n
  {
    if n > 0 {
      CountIsCardinality(tab, lo, hi, n - 1, d);
      CountedStep(tab, lo, hi, n - 1, d);
      assert Weight(tab[n - 1], lo, hi, d) == if CountsUnder(tab[n - 1], lo, hi, d) then 1 else 0;
    }
  }

  lemma {:induction false} CountedStep(tab: seq<Entry>, lo: nat, hi: nat, n: nat, d: SegmentTag)
    requires n < |tab|
    ensures |Counted(tab, lo, hi, n + 1, d)| == |Counted(tab, lo, hi, n, d)| + if CountsUnder(tab[n], lo, hi, d) then 1 else 0
  {
    var rest, all := Counted(tab, lo, hi, n, d), Counted(tab, lo, hi, n + 1, d);
    assert n !in rest;
    assert all - {n} == rest;
    assert n in all <==> CountsUnder(tab[n], lo, hi, d);
  }
}
