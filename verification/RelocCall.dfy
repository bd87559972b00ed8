/** The imperative form of `wc_reloc_normalize_segment`. */
module RelocCall {
  import opened Common
  import opened Bytes
  import opened RelocTable
  import opened RelocSearch
  import opened RelocNormalize

  /** The five running totals that a caller may pass in. */
  class RelocCounts {
    var text: int
    var rodata: int
    var rwdata: int
    var bss: int
    var other: int

    constructor ()
      ensures text == 0 && rodata == 0 && rwdata == 0 && bss == 0 && other == 0
    {
      text, rodata, rwdata, bss, other := 0, 0, 0, 0, 0;
    }

    function Sum(): int
      reads this
    {
      text + rodata + rwdata + bss + other
    }

    /** The running total for the destination segment `d`. */
    function Of(d: SegmentTag): int
      reads this
    {
      if d == SEG_TEXT then text
      else if d == SEG_RODATA then rodata
      else if d == SEG_RWDATA then rwdata
      else if d == SEG_BSS then bss
      else if d == SEG_OTHER then other
      else 0
    }
  }

  /** A segment, its table and its load address. */
  datatype View = View(tab: seq<Entry>, start: Word64, bytes: seq<byte>)

  ghost predicate ImageFits(sm: SegMap, img: Image) {
    && sm.textStart + |img.text| == sm.textEnd
    && sm.rodataStart + |img.rodata| == sm.rodataEnd
  }

  /** The span lies wholly in the segment. */
  predicate HoldsSpan(v: View, segIn: nat, len: nat) {
    v.start <= segIn && segIn + len <= v.start + |v.bytes|
  }

  function TextView(sm: SegMap, img: Image): View { View(sm.textTab, sm.textStart, img.text) }

  function RodataView(sm: SegMap, img: Image): View { View(sm.rodataTab, sm.rodataStart, img.rodata) }

  /** The segment that holds the whole span: found whenever there is one, text first. */
  function Locate(sm: SegMap, img: Image, segIn: nat, len: nat): (v: Option<View>)
    requires ImageFits(sm, img)
    ensures v.Some? ==> HoldsSpan(v.value, segIn, len)
    ensures v.None? <==> !HoldsSpan(TextView(sm, img), segIn, len) && !HoldsSpan(RodataView(sm, img), segIn, len)
    ensures HoldsSpan(TextView(sm, img), segIn, len) <==> v == Some(TextView(sm, img))
  {
    if sm.textStart <= segIn && segIn + len <= sm.textEnd then Some(TextView(sm, img))
    else if sm.rodataStart <= segIn && segIn + len <= sm.rodataEnd then Some(RodataView(sm, img))
    else None
  }

  ghost predicate AllKnown(tab: seq<Entry>) {
    forall j :: 0 <= j < |tab| && tab[j].destSegment != SEG_NONE ==> KnownType(tab[j].relocType)
  }

  /** The live entries in [from, to) are in order of offset. */
  ghost predicate InOrder(tab: seq<Entry>, from: int, to: int) {
    forall i, j :: 0 <= from <= i <= j < to && j < |tab| && Active(tab[i]) && Active(tab[j]) ==> tab[i].offset <= tab[j].offset
  }

  /** The entry last seen by a walk from `start` that has reached `i`. */
  ghost function LastSeen(tab: seq<Entry>, start: nat, i: nat): (r: nat)
    requires start <= i <= |tab|
    ensures r < i || r == 0
  {
    if i == start then if start > 0 then start - 1 else 0
    else if tab[i - 1].destSegment == SEG_NONE then LastSeen(tab, start, i - 1)
    else i - 1
  }

  /** Each live entry passed the order check and the type check. */
  ghost predicate Passed(tab: seq<Entry>, start: nat, i: nat)
    requires start <= i <= |tab| && |tab| > 0
  {
    i > start ==>
      && Passed(tab, start, i - 1)
      && (tab[i - 1].destSegment == SEG_NONE
          || (tab[LastSeen(tab, start, i - 1)].offset <= tab[i - 1].offset && KnownType(tab[i - 1].relocType)))
  }

  lemma {:induction false} PassedBounds(tab: seq<Entry>, start: nat, i: nat)
    requires start <= i <= |tab| && |tab| > 0 && Passed(tab, start, i)
    ensures forall j :: start <= j < i && Active(tab[j]) ==> tab[j].offset <= tab[LastSeen(tab, start, i)].offset
  {
    if i > start { PassedBounds(tab, start, i - 1); }
  }

  /** Checking each live entry against the one before it puts them all in order. */
  lemma {:induction false} PassedInOrder(tab: seq<Entry>, start: nat, i: nat)
    requires start <= i <= |tab| && |tab| > 0 && Passed(tab, start, i)
    ensures InOrder(tab, start, i)
  {
    if i > start {
      PassedInOrder(tab, start, i - 1);
      PassedBounds(tab, start, i - 1);
    }
  }

  /** The state in which a chunk can be normalized: a well-formed table, and an
      index that is either absent or the one a previous chunk left behind. */
  ghost predicate Ready(v: View, off: nat, cur: int) {
    && WellFormed(v.tab, |v.bytes|)
    && (cur == -1 || Resumes(v.tab, off, cur))
  }

  /** The first `len` bytes of the buffer change at the field of `e` only, and the rest not at all. */
  method RewriteField(sm: SegMap, src: Word64, e: Entry, segOut: array<byte>, rel: nat, len: nat)
    requires Active(e) && rel + Width(e.relocType) <= len <= segOut.Length
    modifies segOut
    ensures segOut[..len] == Rewritten(Normalizer(sm, src), e, old(segOut[..len]), rel)
    ensures segOut[len..] == old(segOut[len..])
  {
    var k := Width(e.relocType);
    var patch := NormField(sm, src, e, segOut[rel..rel + k]);
    assert segOut[rel..rel + k] == segOut[..len][rel..rel + k];
    forall q | 0 <= q < k {
      segOut[rel + q] := patch[q];
    }
  }

  /** The 32-bit distance of an entry from the start of the chunk. */
  function Rel(e: Entry, off: nat): (r: nat)
    ensures r < TWO32
    ensures e.offset >= off ==> r == e.offset - off
  {
    (e.offset - off) % TWO32
  }

  /** On a sorted table the least index at or after `off` is where the walk has to start. */
  lemma {:induction false} ScanResumes(tab: seq<Entry>, off: nat, i: int)
    requires Sorted(tab) && FirstLocally(tab, off, i)
    ensures Resumes(tab, off, i)
  {
    AheadFirst(tab, off, i);
    forall j | 0 <= j < i && Active(tab[j])
      ensures tab[j].offset < off
    {
      assert Pair(tab, j, i - 1);
    }
  }

  /** The counters of one call after the entries before `i`. */
  ghost predicate Tallied(tab: seq<Entry>, lo: nat, hi: nat, i: nat, text: int, rodata: int, rwdata: int, bss: int, other: int)
    requires i <= |tab|
  {
    && text == CountIn(tab, lo, hi, i, SEG_TEXT)
    && rodata == CountIn(tab, lo, hi, i, SEG_RODATA)
    && rwdata == CountIn(tab, lo, hi, i, SEG_RWDATA)
    && bss == CountIn(tab, lo, hi, i, SEG_BSS)
    && other == CountIn(tab, lo, hi, i, SEG_OTHER)
  }

  lemma {:induction false} TalliedStart(tab: seq<Entry>, lo: nat, hi: nat, i: nat)
    requires Resumes(tab, lo, i)
    ensures Tallied(tab, lo, hi, i, 0, 0, 0, 0, 0)
  {
    forall d: SegmentTag ensures CountIn(tab, lo, hi, i, d) == 0 {
      CountIgnores(tab, lo, hi, 0, i, d);
    }
  }

  lemma {:induction false} TalliedStop(tab: seq<Entry>, lo: nat, len: nat, i: nat, kept: nat, text: int, rodata: int, rwdata: int, bss: int, other: int)
    requires kept <= len && Resumes(tab, lo + kept, i)
    requires Tallied(tab, lo, lo + len, i, text, rodata, rwdata, bss, other)
    ensures Tallied(tab, lo, lo + kept, |tab|, text, rodata, rwdata, bss, other)
  {
    StopCount(tab, lo, len, i, kept, SEG_TEXT);
    StopCount(tab, lo, len, i, kept, SEG_RODATA);
    StopCount(tab, lo, len, i, kept, SEG_RWDATA);
    StopCount(tab, lo, len, i, kept, SEG_BSS);
    StopCount(tab, lo, len, i, kept, SEG_OTHER);
  }

  function One(d: SegmentTag, x: SegmentTag): int {
    if d == x then 1 else 0
  }

  lemma {:induction false} TalliedSkip(tab: seq<Entry>, lo: nat, hi: nat, i: nat, text: int, rodata: int, rwdata: int, bss: int, other: int)
    requires i < |tab| && Tallied(tab, lo, hi, i, text, rodata, rwdata, bss, other)
    requires !Active(tab[i])
    ensures Tallied(tab, lo, hi, i + 1, text, rodata, rwdata, bss, other)
  {
  }

  lemma {:induction false} TalliedStep(tab: seq<Entry>, lo: nat, hi: nat, i: nat, text: int, rodata: int, rwdata: int, bss: int, other: int)
    requires i < |tab| && Tallied(tab, lo, hi, i, text, rodata, rwdata, bss, other)
    requires Inside(tab[i], lo, hi)
    ensures var d := Destination(tab[i].destSegment);
            Tallied(tab, lo, hi, i + 1, text + One(d, SEG_TEXT), rodata + One(d, SEG_RODATA),
                    rwdata + One(d, SEG_RWDATA), bss + One(d, SEG_BSS), other + One(d, SEG_OTHER))
  {
  }

  /** How the loop leaves an entry. */
  datatype Verdict = Skipped | Malformed | PastEnd | Straddles | Applied

  /** One entry of the loop; `last` is the entry last seen. */
  method VisitEntry(sm: SegMap, src: Word64, tab: seq<Entry>, last: nat, i: nat, off: nat, len: nat, segOut: array<byte>)
    returns (v: Verdict)
    requires i < |tab| && last < |tab| && len <= segOut.Length
    modifies segOut
    ensures v == Skipped <==> tab[i].destSegment == SEG_NONE
    ensures v == Malformed <==> tab[i].destSegment != SEG_NONE && (tab[last].offset > tab[i].offset || !KnownType(tab[i].relocType))
    ensures v == Applied ==> Active(tab[i]) && Rel(tab[i], off) + Width(tab[i].relocType) <= len
    ensures v == Straddles ==> Active(tab[i]) && Rel(tab[i], off) < len < Rel(tab[i], off) + Width(tab[i].relocType)
    ensures v == PastEnd ==> Active(tab[i]) && Rel(tab[i], off) >= len
    ensures segOut[..len] == if v == Applied then Rewritten(Normalizer(sm, src), tab[i], old(segOut[..len]), Rel(tab[i], off))
                             else old(segOut[..len])
    ensures segOut[len..] == old(segOut[len..])
  {
    var e := tab[i];
    if e.destSegment == SEG_NONE {
      return Skipped;
    }
    if tab[last].offset > e.offset || !KnownType(e.relocType) {
      return Malformed;
    }
    var k, rel := Width(e.relocType), Rel(e, off);
    if rel >= len {
      return PastEnd;
    }
    if len < k || rel > len - k {
      return Straddles;
    }
    RewriteField(sm, src, e, segOut, rel, len);
    return Applied;
  }

  /** What the bookkeeping says after the entries before `i`, on a well-formed table. */
  ghost predicate Progress(f: Rewrite, tab: seq<Entry>, bytes: seq<byte>, off: nat, inLen: nat, out: seq<byte>, i: nat,
                           text: int, rodata: int, rwdata: int, bss: int, other: int)
    requires KeepsWidth(f) && off + inLen <= |bytes|
  {
    && Reached(f, tab, bytes, off, inLen, out, i)
    && Tallied(tab, off, off + inLen, i, text, rodata, rwdata, bss, other)
  }

  lemma {:induction false} ProgressApplied(f: Rewrite, tab: seq<Entry>, bytes: seq<byte>, off: nat, inLen: nat, out: seq<byte>, i: nat,
                        n0: int, n1: int, n2: int, n3: int, n4: int)
    requires KeepsWidth(f) && off + inLen <= |bytes| && WellFormed(tab, |bytes|)
    requires Progress(f, tab, bytes, off, inLen, out, i, n0, n1, n2, n3, n4)
    requires i < |tab| - 1 && Active(tab[i]) && Rel(tab[i], off) + Width(tab[i].relocType) <= inLen
    ensures var d := Destination(tab[i].destSegment);
            Progress(f, tab, bytes, off, inLen, Rewritten(f, tab[i], out, Rel(tab[i], off)), i + 1,
                     n0 + One(d, SEG_TEXT), n1 + One(d, SEG_RODATA), n2 + One(d, SEG_RWDATA), n3 + One(d, SEG_BSS), n4 + One(d, SEG_OTHER))
  {
    ReachedStep(f, tab, bytes, off, inLen, out, i);
    TalliedStep(tab, off, off + inLen, i, n0, n1, n2, n3, n4);
  }

  lemma {:induction false} ProgressSkipped(f: Rewrite, tab: seq<Entry>, bytes: seq<byte>, off: nat, inLen: nat, out: seq<byte>, i: nat,
                        n0: int, n1: int, n2: int, n3: int, n4: int)
    requires KeepsWidth(f) && off + inLen <= |bytes|
    requires Progress(f, tab, bytes, off, inLen, out, i, n0, n1, n2, n3, n4)
    requires i < |tab| - 1 && !Active(tab[i])
    ensures Progress(f, tab, bytes, off, inLen, out, i + 1, n0, n1, n2, n3, n4)
  {
    ReachedSkip(f, tab, bytes, off, inLen, out, i);
    TalliedSkip(tab, off, off + inLen, i, n0, n1, n2, n3, n4);
  }

  /** The loop stops at the sentinel, at an entry past the chunk, or at one that does not fit. */
  ghost predicate StopsAt(tab: seq<Entry>, i: nat, off: nat, inLen: nat, len: nat)
    requires i < |tab|
  {
    if len == inLen then i == |tab| - 1 || Rel(tab[i], off) >= inLen
    else Rel(tab[i], off) == len < inLen && Active(tab[i]) && inLen < len + Width(tab[i].relocType)
  }

  lemma {:induction false} ProgressDone(f: Rewrite, tab: seq<Entry>, bytes: seq<byte>, off: nat, inLen: nat, out: seq<byte>, i: nat, len: nat,
                     n0: int, n1: int, n2: int, n3: int, n4: int)
    requires KeepsWidth(f) && off + inLen <= |bytes| && WellFormed(tab, |bytes|)
    requires Progress(f, tab, bytes, off, inLen, out, i, n0, n1, n2, n3, n4)
    requires StopsAt(tab, i, off, inLen, len)
    ensures GoodChunk(f, tab, bytes, off, inLen, out[..len], len, i)
    ensures Tallied(tab, off, off + len, |tab|, n0, n1, n2, n3, n4)
  {
    AheadFirst(tab, off + len, i);
    ReachedStop(f, tab, bytes, off, inLen, out, i, len);
    TalliedStop(tab, off, inLen, i, len, n0, n1, n2, n3, n4);
  }

  /** One turn of the loop: the entry is visited and, if rewritten, counted. */
  method Turn(sm: SegMap, src: Word64, tab: seq<Entry>, ghost bytes: seq<byte>, off: nat, inLen: nat, segOut: array<byte>,
              last: nat, i: nat, n0: int, n1: int, n2: int, n3: int, n4: int)
    returns (v: Verdict, nText: int, nRodata: int, nRwdata: int, nBss: int, nOther: int)
    requires i < |tab| - 1 && last < |tab| && off + inLen <= |bytes| && inLen <= segOut.Length
    modifies segOut
    ensures v == Skipped <==> tab[i].destSegment == SEG_NONE
    ensures v == Malformed <==> tab[i].destSegment != SEG_NONE && (tab[last].offset > tab[i].offset || !KnownType(tab[i].relocType))
    ensures v == Straddles ==> Rel(tab[i], off) < inLen
    ensures WellFormed(tab, |bytes|) && Progress(Normalizer(sm, src), tab, bytes, off, inLen, old(segOut[..inLen]), i, n0, n1, n2, n3, n4) ==>
              Progress(Normalizer(sm, src), tab, bytes, off, inLen, segOut[..inLen],
                       if v == Skipped || v == Applied then i + 1 else i, nText, nRodata, nRwdata, nBss, nOther)
    ensures v == PastEnd ==> Active(tab[i]) && Rel(tab[i], off) >= inLen
    ensures v == Straddles ==> Active(tab[i]) && inLen < Rel(tab[i], off) + Width(tab[i].relocType)
  {
    ghost var f := Normalizer(sm, src);
    ghost var before := segOut[..inLen];
    nText, nRodata, nRwdata, nBss, nOther := n0, n1, n2, n3, n4;
    v := VisitEntry(sm, src, tab, last, i, off, inLen, segOut);
    if v == Applied {
      var d := Destination(tab[i].destSegment);
      nText, nRodata, nRwdata, nBss, nOther := n0 + One(d, SEG_TEXT), n1 + One(d, SEG_RODATA),
        n2 + One(d, SEG_RWDATA), n3 + One(d, SEG_BSS), n4 + One(d, SEG_OTHER);
      if WellFormed(tab, |bytes|) && Progress(f, tab, bytes, off, inLen, before, i, n0, n1, n2, n3, n4) {
        ProgressApplied(f, tab, bytes, off, inLen, before, i, n0, n1, n2, n3, n4);
      }
    } else if v == Skipped {
      if Progress(f, tab, bytes, off, inLen, before, i, n0, n1, n2, n3, n4) {
        ProgressSkipped(f, tab, bytes, off, inLen, before, i, n0, n1, n2, n3, n4);
      }
    }
  }

  /** The relocation loop, on a buffer that already holds a copy of the chunk. */
  method ApplyRelocations(sm: SegMap, src: Word64, tab: seq<Entry>, ghost bytes: seq<byte>, off: nat, inLen: nat,
                          segOut: array<byte>, start: nat)
    returns (fault: bool, len: nat, i: nat, nText: int, nRodata: int, nRwdata: int, nBss: int, nOther: int)
    requires start < |tab| && off + inLen <= |bytes| && inLen <= segOut.Length
    modifies segOut
    ensures fault ==> !(Sorted(tab) && AllKnown(tab))
    ensures len <= inLen && start <= i < |tab|
    ensures !fault ==> Passed(tab, start, i) && StopsAt(tab, i, off, inLen, len)
    ensures WellFormed(tab, |bytes|) && Progress(Normalizer(sm, src), tab, bytes, off, inLen, old(segOut[..inLen]), start, 0, 0, 0, 0, 0) ==>
              Progress(Normalizer(sm, src), tab, bytes, off, inLen, segOut[..inLen], i, nText, nRodata, nRwdata, nBss, nOther)
  {
    ghost var f := Normalizer(sm, src);
    ghost var good := WellFormed(tab, |bytes|) && Progress(f, tab, bytes, off, inLen, segOut[..inLen], start, 0, 0, 0, 0, 0);
    fault, len, i := false, inLen, start;
    nText, nRodata, nRwdata, nBss, nOther := 0, 0, 0, 0, 0;
    var last := if i > 0 then i - 1 else 0;
    while i < |tab| - 1
      invariant start <= i < |tab|
      invariant len == inLen
      invariant last == LastSeen(tab, start, i) && Passed(tab, start, i)
      invariant good ==> Progress(f, tab, bytes, off, inLen, segOut[..inLen], i, nText, nRodata, nRwdata, nBss, nOther)
    {
      var v;
      v, nText, nRodata, nRwdata, nBss, nOther :=
        Turn(sm, src, tab, bytes, off, inLen, segOut, last, i, nText, nRodata, nRwdata, nBss, nOther);
      if v == Malformed {
        assert Pair(tab, last, i);
        fault := true;
        return;
      }
      if v == PastEnd {
        break;
      }
      if v == Straddles {
        len := Rel(tab[i], off);
        break;
      }
      if v == Applied {
        last := i;
      }
      i := i + 1;
    }
  }

  lemma {:induction false} ProgressStart(f: Rewrite, tab: seq<Entry>, bytes: seq<byte>, off: nat, inLen: nat, i: nat)
    requires KeepsWidth(f) && off + inLen <= |bytes| && Resumes(tab, off, i)
    ensures Progress(f, tab, bytes, off, inLen, bytes[off..off + inLen], i, 0, 0, 0, 0, 0)
  {
    ReachedStart(f, tab, bytes, off, inLen, i);
    TalliedStart(tab, off, off + inLen, i);
  }

  /** The running totals grew by what the bytes from `lo` to `hi` hold. */
  twostate predicate Gained(counts: RelocCounts, tab: seq<Entry>, lo: nat, hi: nat)
    reads counts
  {
    && counts.text == old(counts.text) + CountIn(tab, lo, hi, |tab|, SEG_TEXT)
    && counts.rodata == old(counts.rodata) + CountIn(tab, lo, hi, |tab|, SEG_RODATA)
    && counts.rwdata == old(counts.rwdata) + CountIn(tab, lo, hi, |tab|, SEG_RWDATA)
    && counts.bss == old(counts.bss) + CountIn(tab, lo, hi, |tab|, SEG_BSS)
    && counts.other == old(counts.other) + CountIn(tab, lo, hi, |tab|, SEG_OTHER)
  }

  method CopyChunk(bytes: seq<byte>, off: nat, len: nat, segOut: array<byte>)
    requires off + len <= |bytes| && len <= segOut.Length
    modifies segOut
    ensures segOut[..len] == bytes[off..off + len]
  {
    forall q | 0 <= q < len {
      segOut[q] := bytes[off + q];
    }
  }

  /** A located chunk whose first table index is known. */
  method NormalizeFrom(sm: SegMap, v: View, off: nat, inLen: nat, segOut: array<byte>, start: nat, counts: RelocCounts?)
    returns (ret: int, outLen: nat, index: nat)
    requires start < |v.tab| && off + inLen <= |v.bytes| && inLen <= segOut.Length
    modifies segOut, counts
    ensures ret < 0 ==> ret == BAD_FUNC_ARG && outLen == inLen && index == start && !(Sorted(v.tab) && AllKnown(v.tab))
    ensures ret < 0 && counts != null ==> unchanged(counts)
    ensures ret >= 0 ==> ret == outLen <= inLen && InOrder(v.tab, start, index)
    ensures WellFormed(v.tab, |v.bytes|) && Resumes(v.tab, off, start) ==>
              && ret >= 0
              && GoodChunk(Normalizer(sm, v.start), v.tab, v.bytes, off, inLen, segOut[..outLen], outLen, index)
              && (counts != null ==> Gained(counts, v.tab, off, off + outLen))
  {
    ghost var f := Normalizer(sm, v.start);
    CopyChunk(v.bytes, off, inLen, segOut);
    var fault, len, i, nText, nRodata, nRwdata, nBss, nOther;
    if Resumes(v.tab, off, start) {
      ProgressStart(f, v.tab, v.bytes, off, inLen, start);
    }
    fault, len, i, nText, nRodata, nRwdata, nBss, nOther :=
      ApplyRelocations(sm, v.start, v.tab, v.bytes, off, inLen, segOut, start);
    if fault {
      return BAD_FUNC_ARG, inLen, start;
    }
    PassedInOrder(v.tab, start, i);
    if WellFormed(v.tab, |v.bytes|) && Resumes(v.tab, off, start) {
      ProgressDone(f, v.tab, v.bytes, off, inLen, segOut[..inLen], i, len, nText, nRodata, nRwdata, nBss, nOther);
      assert segOut[..inLen][..len] == segOut[..len];
    }
    if counts != null {
      counts.text := counts.text + nText;
      counts.rodata := counts.rodata + nRodata;
      counts.rwdata := counts.rwdata + nRwdata;
      counts.bss := counts.bss + nBss;
      counts.other := counts.other + nOther;
    }
    return len, len, i;
  }

  /** A located chunk.  `cur` is the carried table index, -1 when there is none; an index past
      the table copies the chunk as it is. */
  method NormalizeLocated(sm: SegMap, v: View, off: nat, inLen: nat, segOut: array<byte>, cur: int, counts: RelocCounts?)
    returns (ret: int, outLen: nat, index: int)
    requires |v.tab| >= 1 && off + inLen <= |v.bytes| && inLen <= segOut.Length
    modifies segOut, counts
    ensures ret < 0 ==> outLen == inLen && index == cur && (counts != null ==> unchanged(counts))
    ensures ret >= 0 ==> ret == outLen <= inLen
    ensures cur < -1 ==> ret == cur
    ensures cur == -1 && off >= v.tab[|v.tab| - 1].offset ==> ret == BAD_FUNC_ARG
    ensures ret < 0 && cur >= -1 && (cur == -1 ==> off < v.tab[|v.tab| - 1].offset) ==>
              ret == BAD_FUNC_ARG && !(Sorted(v.tab) && AllKnown(v.tab))
    ensures ret >= 0 && cur >= 0 ==> InOrder(v.tab, cur, index)
    ensures cur >= |v.tab| ==> ret == inLen && index == cur && segOut[..inLen] == v.bytes[off..off + inLen]
    ensures cur >= |v.tab| && counts != null ==> unchanged(counts)
    ensures Ready(v, off, cur) && inLen > 0 ==>
              && ret >= 0
              && GoodChunk(Normalizer(sm, v.start), v.tab, v.bytes, off, inLen, segOut[..outLen], outLen, index)
              && (counts != null ==> Gained(counts, v.tab, off, off + outLen))
  {
    var i := cur;
    if i == -1 {
      i := FindRelocTabOffset(v.tab, off);
      if WellFormed(v.tab, |v.bytes|) && inLen > 0 {
        ScanResumes(v.tab, off, i);
      }
    }
    if i < 0 {
      return i, inLen, cur;
    }
    if i >= |v.tab| {
      CopyChunk(v.bytes, off, inLen, segOut);
      return inLen, inLen, i;
    }
    var r, n, k := NormalizeFrom(sm, v, off, inLen, segOut, i, counts);
    ret, outLen, index := r, n, if r < 0 then cur else k;
  }

  /** `wc_reloc_normalize_segment`. */
  method NormalizeSegment(sm: SegMap, img: Image, segIn: nat, inLen: nat, segOut: array<byte>, cur: int, counts: RelocCounts?)
    returns (ret: int, outLen: nat, index: int)
    requires ImageFits(sm, img) && inLen <= segOut.Length
    requires |sm.textTab| >= 1 && |sm.rodataTab| >= 1
    modifies segOut, counts
    // rejected calls change nothing but the scratch buffer
    ensures inLen == 0 || Locate(sm, img, segIn, inLen).None? ==> ret == BAD_FUNC_ARG
    ensures ret < 0 ==> outLen == inLen && index == cur && (counts != null ==> unchanged(counts))
    ensures ret >= 0 ==> ret == outLen <= inLen
    ensures inLen > 0 && Locate(sm, img, segIn, inLen).Some? ==>
              var v := Locate(sm, img, segIn, inLen).value;
              var off := segIn - v.start;
              && (cur < -1 ==> ret == cur)
              && (cur == -1 && off >= v.tab[|v.tab| - 1].offset ==> ret == BAD_FUNC_ARG)
              && (ret < 0 && cur >= -1 && (cur == -1 ==> off < v.tab[|v.tab| - 1].offset) ==>
                    ret == BAD_FUNC_ARG && !(Sorted(v.tab) && AllKnown(v.tab)))
              && (ret >= 0 && cur >= 0 ==> InOrder(v.tab, cur, index))
              // an index past the table copies the chunk as it is
              && (cur >= |v.tab| ==> ret == inLen && index == cur && segOut[..inLen] == v.bytes[off..off + inLen])
              && (cur >= |v.tab| && counts != null ==> unchanged(counts))
              // the normalized chunk, exactly counted, and where to resume
              && (Ready(v, off, cur) ==>
                    && ret >= 0
                    && GoodChunk(Normalizer(sm, v.start), v.tab, v.bytes, off, inLen, segOut[..outLen], outLen, index)
                    && (counts != null ==> Gained(counts, v.tab, off, off + outLen)))
  {
    ret, outLen, index := BAD_FUNC_ARG, inLen, cur;
    if inLen == 0 {
      return;
    }
    var loc := Locate(sm, img, segIn, inLen);
    if loc.None? {
      return;
    }
    ret, outLen, index := NormalizeLocated(sm, loc.value, segIn - loc.value.start, inLen, segOut, cur, counts);
  }
}
