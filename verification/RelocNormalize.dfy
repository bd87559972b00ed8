/** `wc_reloc_normalize_segment`: one chunk of a segment, rewritten so that no
    relocated field depends on where the module was loaded. */
module RelocNormalize {
  import opened Bytes
  import opened RelocTable

  /** The segment map. `wideLabel` stands for what the two label shifts give for
      64-bit fields, where the shift count exceeds the width of the operand. */
  datatype SegMap = SegMap(
    textStart: Word64, textEnd: Word64, fipsTextStart: Word64, fipsTextEnd: Word64,
    rodataStart: Word64, rodataEnd: Word64, fipsRodataStart: Word64, fipsRodataEnd: Word64,
    verifyCoreStart: Word64, verifyCoreEnd: Word64,
    dataStart: Word64, bssStart: Word64,
    textIsLive: bool,
    textTab: seq<Entry>, rodataTab: seq<Entry>,
    wideLabel: (SegmentTag, TypeTag) -> Word64)

  /** The bytes of the two segments that are hashed. */
  datatype Image = Image(text: seq<byte>, rodata: seq<byte>)

  function SegmentStart(sm: SegMap, d: SegmentTag): Word64 {
    if d == SEG_TEXT then sm.textStart
    else if d == SEG_RODATA then sm.rodataStart
    else if d == SEG_RWDATA then sm.dataStart
    else if d == SEG_BSS then sm.bssStart
    else 0
  }

  /** Sign- or zero-extension of a field of `k` bytes to 64 bits. */
  function Extend(t: TypeTag, k: nat, raw: nat): nat {
    if !IsSigned(t) then raw
    else if k == 4 && raw >= 0x8000_0000 then raw + TWO64 - TWO32
    else raw
  }

  /** The 64-bit word a field is normalized to, before the label. */
  function NormWord(sm: SegMap, src: Word64, e: Entry, raw: nat): (v: nat)
    requires Active(e)
    ensures v < TWO64
  {
    var d := Destination(e.destSegment);
    if !IsX86(e.relocType) || d == SEG_OTHER then 0
    else if !sm.textIsLive then e.destOffset
    else
      var v := Extend(e.relocType, Width(e.relocType), raw);
      if IsRelative(e.relocType) then (v + e.offset - e.destAddend - (SegmentStart(sm, d) - src)) % TWO64
      else (v - SegmentStart(sm, d) - e.destAddend) % TWO64
  }

  /** The word with its destination segment and relocation type xored in at the top. */
  function Labelled(sm: SegMap, e: Entry, v: nat): nat
    requires Active(e)
  {
    var d := Destination(e.destSegment);
    match Width(e.relocType)
    case 8 => Xor(v, sm.wideLabel(d, e.relocType))
    case 4 => Xor(Xor(v, d * 0x2000_0000), e.relocType * 0x100_0000)
    case _ => Xor(Xor(v, d * 0x2000), e.relocType * 0x100)
  }

  function NormField(sm: SegMap, src: Word64, e: Entry, s: seq<byte>): (r: seq<byte>)
    ensures |r| == |s|
  {
    if Active(e) then ToLE(Labelled(sm, e, NormWord(sm, src, e, FromLE(s))), |s|) else s
  }

  function Normalizer(sm: SegMap, src: Word64): (f: Rewrite)
    ensures KeepsWidth(f)
  {
    (e: Entry, s: seq<byte>) => NormField(sm, src, e, s)
  }

  /** The buffer after the field of `e`, found at `rel`, has been rewritten. */
  ghost function Rewritten(f: Rewrite, e: Entry, out: seq<byte>, rel: nat): (r: seq<byte>)
    requires KeepsWidth(f) && Active(e) && rel + Width(e.relocType) <= |out|
    ensures |r| == |out|
  {
    Splice(out, rel, f(e, out[rel..rel + Width(e.relocType)]))
  }

  // ---- What one call owes its caller ----

  /** `i` is where a walk of the bytes from `at` on has to start: every live entry
      before it starts earlier, and every entry from it on starts at `at` or later. */
  ghost predicate Resumes(tab: seq<Entry>, at: nat, i: int) {
    && 0 <= i < |tab|
    && (forall j :: 0 <= j < i && Active(tab[j]) ==> tab[j].offset < at)
    && Ahead(tab, at, i)
  }

  ghost predicate Ahead(tab: seq<Entry>, at: nat, i: nat) {
    forall j :: i <= j < |tab| ==> tab[j].offset >= at
  }

  /** On a sorted table the first entry from `i` on decides. */
  lemma {:induction false} AheadFirst(tab: seq<Entry>, at: nat, i: nat)
    requires Sorted(tab) && i < |tab| && tab[i].offset >= at
    ensures Ahead(tab, at, i)
  {
    forall j | i <= j < |tab|
      ensures tab[j].offset >= at
    {
      assert Pair(tab, i, j);
    }
  }

  /** No field that starts at or after `lo` crosses `at`. */
  ghost predicate CleanCut(tab: seq<Entry>, lo: nat, at: nat) {
    forall j :: 0 <= j < |tab| && lo <= tab[j].offset ==> !Crosses(tab[j], at)
  }

  /** What a call promises when it keeps `kept` of the `len` bytes from `lo`, stated
      against the whole segment: the bytes kept are the patched span, and the index
      names where the next chunk has to start.  The
      chunk is cut short only by a field that crosses its end. */
  ghost predicate GoodChunk(f: Rewrite, tab: seq<Entry>, raw: seq<byte>, lo: nat, len: nat,
                            out: seq<byte>, kept: nat, index: int)
    requires KeepsWidth(f) && lo + len <= |raw|
  {
    && kept <= len
    && out == Patched(f, tab, raw, lo, lo + kept)
    && Resumes(tab, lo + kept, index)
    && CleanCut(tab, lo, lo + kept)
    && (kept < len ==> tab[index].offset == lo + kept && Crosses(tab[index], lo + len))
  }

  // ---- The relocation loop on a well-formed table ----

  /** The bytes after the entries before `i` have been handled. */
  ghost predicate BytesSoFar(f: Rewrite, tab: seq<Entry>, raw: seq<byte>, lo: nat, len: nat, out: seq<byte>, i: nat)
    requires KeepsWidth(f) && lo + len <= |raw| && i <= |tab|
  {
    && |out| == len
    && forall q :: 0 <= q < len ==> out[q] == PatchedByte(f, tab, raw, lo, lo + len, i, lo + q)
  }

  /** Every live entry before `i` either starts before the span or was handled in it. */
  ghost predicate Behind(tab: seq<Entry>, lo: nat, hi: nat, i: nat)
    requires i <= |tab|
  {
    forall j :: 0 <= j < i && Active(tab[j]) ==> tab[j].offset < lo || Inside(tab[j], lo, hi)
  }

  /** The loop invariant: the entries before `i` are done and the rest lie ahead. */
  ghost predicate Reached(f: Rewrite, tab: seq<Entry>, raw: seq<byte>, lo: nat, len: nat, out: seq<byte>, i: nat)
    requires KeepsWidth(f) && lo + len <= |raw|
  {
    && i < |tab|
    && BytesSoFar(f, tab, raw, lo, len, out, i)
    && Behind(tab, lo, lo + len, i)
    && Ahead(tab, lo, i)
  }

  lemma {:induction false} ReachedStart(f: Rewrite, tab: seq<Entry>, raw: seq<byte>, lo: nat, len: nat, i: nat)
    requires KeepsWidth(f) && lo + len <= |raw| && Resumes(tab, lo, i)
    ensures Reached(f, tab, raw, lo, len, raw[lo..lo + len], i)
  {
    var copy := raw[lo..lo + len];
    forall q | 0 <= q < len
      ensures copy[q] == PatchedByte(f, tab, raw, lo, lo + len, i, lo + q)
    {
      ByteIgnores(f, tab, raw, lo, lo + len, 0, i, lo + q);
    }
  }

  lemma {:induction false} BytesSkip(f: Rewrite, tab: seq<Entry>, raw: seq<byte>, lo: nat, len: nat, out: seq<byte>, i: nat)
    requires KeepsWidth(f) && lo + len <= |raw| && i < |tab|
    requires BytesSoFar(f, tab, raw, lo, len, out, i)
    requires !Inside(tab[i], lo, lo + len)
    ensures BytesSoFar(f, tab, raw, lo, len, out, i + 1)
  {
  }

  lemma {:induction false} ReachedSkip(f: Rewrite, tab: seq<Entry>, raw: seq<byte>, lo: nat, len: nat, out: seq<byte>, i: nat)
    requires KeepsWidth(f) && lo + len <= |raw|
    requires Reached(f, tab, raw, lo, len, out, i)
    requires i < |tab| - 1 && !Active(tab[i])
    ensures Reached(f, tab, raw, lo, len, out, i + 1)
  {
    BytesSkip(f, tab, raw, lo, len, out, i);
  }

  /** A field not yet reached still holds its raw bytes, since no earlier field overlaps it. */
  lemma {:induction false} FieldStillRaw(f: Rewrite, tab: seq<Entry>, raw: seq<byte>, lo: nat, len: nat, out: seq<byte>, i: nat)
    requires KeepsWidth(f) && Disjoint(tab) && lo + len <= |raw| && i < |tab|
    requires BytesSoFar(f, tab, raw, lo, len, out, i)
    requires Inside(tab[i], lo, lo + len)
    ensures out[tab[i].offset - lo..End(tab[i]) - lo] == raw[tab[i].offset..End(tab[i])]
  {
    var e := tab[i];
    forall q | e.offset - lo <= q < End(e) - lo
      ensures out[q] == raw[lo + q]
    {
      forall j | 0 <= j < i
        ensures !Covers(tab[j], lo + q)
      {
        assert Pair(tab, j, i);
      }
      ByteElsewhere(f, tab, raw, lo, lo + len, i, lo + q);
    }
  }

  lemma {:induction false} BytesStep(f: Rewrite, tab: seq<Entry>, raw: seq<byte>, lo: nat, len: nat, out: seq<byte>, i: nat)
    requires KeepsWidth(f) && Disjoint(tab) && lo + len <= |raw| && i < |tab|
    requires BytesSoFar(f, tab, raw, lo, len, out, i)
    requires Inside(tab[i], lo, lo + len)
    ensures BytesSoFar(f, tab, raw, lo, len, Rewritten(f, tab[i], out, tab[i].offset - lo), i + 1)
  {
    FieldStillRaw(f, tab, raw, lo, len, out, i);
  }

  lemma {:induction false} ReachedStep(f: Rewrite, tab: seq<Entry>, raw: seq<byte>, lo: nat, len: nat, out: seq<byte>, i: nat)
    requires KeepsWidth(f) && Disjoint(tab) && lo + len <= |raw|
    requires Reached(f, tab, raw, lo, len, out, i)
    requires i < |tab| - 1 && Inside(tab[i], lo, lo + len)
    ensures Reached(f, tab, raw, lo, len, Rewritten(f, tab[i], out, tab[i].offset - lo), i + 1)
  {
    BytesStep(f, tab, raw, lo, len, out, i);
  }

  /** The kept prefix does not depend on the part of the chunk that was given back. */
  lemma {:induction false} KeptBytes(f: Rewrite, tab: seq<Entry>, raw: seq<byte>, lo: nat, len: nat, out: seq<byte>, i: nat, kept: nat)
    requires KeepsWidth(f) && lo + len <= |raw| && i < |tab| && kept <= len
    requires BytesSoFar(f, tab, raw, lo, len, out, i)
    requires forall j :: 0 <= j < i && Inside(tab[j], lo, lo + len) ==> End(tab[j]) <= lo + kept
    requires Ahead(tab, lo + kept, i)
    ensures out[..kept] == Patched(f, tab, raw, lo, lo + kept)
  {
    forall q | 0 <= q < kept
      ensures out[q] == Patched(f, tab, raw, lo, lo + kept)[q]
    {
      ByteReframe(f, tab, raw, lo, lo + len, lo, lo + kept, i, lo + q);
      ByteIgnores(f, tab, raw, lo, lo + kept, i, |tab|, lo + q);
    }
  }

  /** Every field handled ends inside the kept prefix. */
  lemma {:induction false} EndsInKept(tab: seq<Entry>, lo: nat, len: nat, i: nat, kept: nat)
    requires Disjoint(tab) && i < |tab| && kept <= len
    requires kept < len ==> tab[i].offset == lo + kept && Active(tab[i])
    ensures forall j :: 0 <= j < i && Inside(tab[j], lo, lo + len) ==> End(tab[j]) <= lo + kept
  {
    forall j | 0 <= j < i && Inside(tab[j], lo, lo + len)
      ensures End(tab[j]) <= lo + kept
    {
      assert Pair(tab, j, i);
    }
  }

  lemma {:induction false} StopIndex(tab: seq<Entry>, lo: nat, len: nat, i: nat, kept: nat)
    requires i < |tab| && kept <= len
    requires Behind(tab, lo, lo + len, i) && Ahead(tab, lo + kept, i)
    requires forall j :: 0 <= j < i && Inside(tab[j], lo, lo + len) ==> End(tab[j]) <= lo + kept
    ensures Resumes(tab, lo + kept, i) && CleanCut(tab, lo, lo + kept)
  {
  }

  /** A chunk counts exactly the fields that start in the bytes it kept. */
  lemma {:induction false} StopCount(tab: seq<Entry>, lo: nat, len: nat, i: nat, kept: nat, d: SegmentTag)
    requires i < |tab| && kept <= len && Resumes(tab, lo + kept, i)
    ensures CountIn(tab, lo, lo + len, i, d) == CountIn(tab, lo, lo + kept, |tab|, d)
  {
    CountConcat(tab, lo, lo + kept, lo + len, i, d);
    CountIgnores(tab, lo + kept, lo + len, 0, i, d);
    CountIgnores(tab, lo, lo + kept, i, |tab|, d);
  }

  /** The loop stops at the sentinel, at an entry past the chunk, or at one that crosses its end. */
  lemma {:induction false} ReachedStop(f: Rewrite, tab: seq<Entry>, raw: seq<byte>, lo: nat, len: nat, out: seq<byte>, i: nat, kept: nat)
    requires KeepsWidth(f) && Disjoint(tab) && lo + len <= |raw|
    requires Reached(f, tab, raw, lo, len, out, i)
    requires kept <= len && Ahead(tab, lo + kept, i)
    requires kept < len ==> tab[i].offset == lo + kept && Crosses(tab[i], lo + len)
    ensures GoodChunk(f, tab, raw, lo, len, out[..kept], kept, i)
  {
    EndsInKept(tab, lo, len, i, kept);
    StopIndex(tab, lo, len, i, kept);
    KeptBytes(f, tab, raw, lo, len, out, i, kept);
  }
}
