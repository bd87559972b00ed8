/** What the hash stream contains, byte by byte and field by field, in terms of the fenceposts of
    the segment map alone. */
module StreamContents {
  import opened Bytes
  import opened RelocTable
  import opened RelocNormalize
  import opened RelocCall
  import opened FipsHash
  import opened LoadAddress

  /** A module whose hashed ranges are not empty, with `verifyCore` inside the hashed read-only
      data, across its end, or outside it. */
  ghost predicate Fenced(sm: SegMap, img: Image) {
    && Setup(sm, img)
    && sm.fipsTextStart < sm.fipsTextEnd && sm.fipsRodataStart < sm.fipsRodataEnd
    && sm.verifyCoreStart <= sm.verifyCoreEnd
    && (sm.verifyCoreEnd <= sm.fipsRodataStart || sm.fipsRodataStart <= sm.verifyCoreStart)
  }

  /** How many hashed bytes `verifyCore` takes out. */
  function HoleSize(sm: SegMap): int {
    if sm.verifyCoreEnd <= sm.fipsRodataStart || sm.fipsRodataEnd <= sm.verifyCoreStart then 0
    else (if sm.verifyCoreEnd <= sm.fipsRodataEnd then sm.verifyCoreEnd else sm.fipsRodataEnd) - sm.verifyCoreStart
  }

  /** The stream holds all of the hashed text and read-only data, less `verifyCore`. */
  lemma {:induction false} StreamLength(sm: SegMap, img: Image)
    requires Fenced(sm, img)
    ensures |HashStream(sm, img)| == (sm.fipsTextEnd - sm.fipsTextStart) + (sm.fipsRodataEnd - sm.fipsRodataStart) - HoleSize(sm)
  {
  }

  /** Where the byte of the hashed text at address `p` stands. */
  function TextIndex(sm: SegMap, p: int): int {
    p - sm.fipsTextStart
  }

  /** Where the byte of the hashed read-only data at address `p` stands. */
  function RodataIndex(sm: SegMap, p: int): int {
    (sm.fipsTextEnd - sm.fipsTextStart) + (p - sm.fipsRodataStart) - if sm.fipsRodataStart < sm.verifyCoreEnd <= p then HoleSize(sm) else 0
  }

  /** The width of a field in bytes, by type number. */
  function FieldWidth(t: TypeTag): nat {
    if t == 4 || t == 8 then 8 else if t == 22 then 2 else 4
  }

  /** No field covers the byte: each one ends before it or starts after it. */
  ghost predicate Plain(tab: seq<Entry>, p: int) {
    forall j :: 0 <= j < |tab| && tab[j].destSegment != SEG_NONE && 2 <= tab[j].relocType <= 25 ==>
      !(tab[j].offset <= p < tab[j].offset + FieldWidth(tab[j].relocType))
  }

  lemma {:induction false} PlainUncovered(tab: seq<Entry>, p: nat)
    requires Plain(tab, p)
    ensures forall j :: 0 <= j < |tab| ==> !Covers(tab[j], p)
  {
    forall j | 0 <= j < |tab| ensures !Covers(tab[j], p) {
      WidthTable(tab[j].relocType);
    }
  }

  /** Every byte of the hashed text that no field covers reaches the HMAC as it is. */
  lemma {:induction false} TextByte(sm: SegMap, img: Image, p: int)
    requires Fenced(sm, img) && sm.fipsTextStart <= p < sm.fipsTextEnd && Plain(sm.textTab, p - sm.textStart)
    ensures 0 <= TextIndex(sm, p) < |HashStream(sm, img)|
    ensures HashStream(sm, img)[TextIndex(sm, p)] == img.text[p - sm.textStart]
  {
    var v := TextView(sm, img);
    PlainUncovered(sm.textTab, p - sm.textStart);
    ByteElsewhere(Normalizer(sm, v.start), v.tab, v.bytes, TextLo(sm), TextHi(sm), |v.tab|, p - sm.textStart);
  }

  /** And every such byte of the hashed read-only data outside `verifyCore`, in order. */
  lemma {:induction false} RodataByte(sm: SegMap, img: Image, p: int)
    requires Fenced(sm, img) && sm.fipsRodataStart <= p < sm.fipsRodataEnd && Plain(sm.rodataTab, p - sm.rodataStart)
    requires !(sm.verifyCoreStart <= p < sm.verifyCoreEnd)
    ensures 0 <= RodataIndex(sm, p) < |HashStream(sm, img)|
    ensures HashStream(sm, img)[RodataIndex(sm, p)] == img.rodata[p - sm.rodataStart]
  {
    var v := RodataView(sm, img);
    var f := Normalizer(sm, v.start);
    PlainUncovered(sm.rodataTab, p - sm.rodataStart);
    StreamLength(sm, img);
    if p - sm.rodataStart < CutAt(sm) {
      ByteElsewhere(f, v.tab, v.bytes, RodataLo(sm), CutAt(sm), |v.tab|, p - sm.rodataStart);
    } else {
      ByteElsewhere(f, v.tab, v.bytes, AfterAt(sm), RodataHi(sm), |v.tab|, p - sm.rodataStart);
    }
  }

  /** A live entry of `k` bytes. */
  predicate Live(e: Entry, k: nat) {
    e.destSegment != SEG_NONE && 2 <= e.relocType <= 25 && k == FieldWidth(e.relocType)
  }

  /** A field of a normalized span. */
  lemma {:induction false} SpanField(sm: SegMap, v: View, lo: nat, hi: nat, e: Entry, j: nat, k: nat, x: nat, r: seq<byte>)
    requires Disjoint(v.tab) && j < |v.tab| && e == v.tab[j] && Live(e, k)
    requires lo <= e.offset && e.offset + k <= hi <= |v.bytes| && x == e.offset - lo
    requires r == Norm(sm, v, lo, hi)
    ensures x + k <= |r| && r[x..x + k] == NormField(sm, v.start, e, v.bytes[e.offset..e.offset + k])
  {
    WidthTable(e.relocType);
    PatchedField(Normalizer(sm, v.start), v.tab, v.bytes, lo, hi, j, r);
  }

  /** Every field of the hashed text reaches the HMAC normalized. */
  lemma {:induction false} TextField(sm: SegMap, img: Image, e: Entry, j: nat, k: nat, i: int)
    requires Fenced(sm, img) && j < |sm.textTab| && e == sm.textTab[j] && Live(e, k)
    requires sm.fipsTextStart <= sm.textStart + e.offset && sm.textStart + e.offset + k <= sm.fipsTextEnd
    requires i == TextIndex(sm, sm.textStart + e.offset)
    ensures 0 <= i && i + k <= |HashStream(sm, img)|
    ensures HashStream(sm, img)[i..i + k] == NormField(sm, sm.textStart, e, img.text[e.offset..e.offset + k])
  {
    var text := Norm(sm, TextView(sm, img), TextLo(sm), TextHi(sm));
    SpanField(sm, TextView(sm, img), TextLo(sm), TextHi(sm), e, j, k, i, text);
    FirstSlice(text, RodataStream(sm, img), i, k);
  }

  /** And every field of the hashed read-only data that `verifyCore` does not touch. */
  lemma {:induction false} RodataField(sm: SegMap, img: Image, e: Entry, j: nat, k: nat, at: int, i: int)
    requires Fenced(sm, img) && j < |sm.rodataTab| && e == sm.rodataTab[j] && Live(e, k) && at == sm.rodataStart + e.offset
    requires sm.fipsRodataStart <= at && at + k <= sm.fipsRodataEnd
    requires at + k <= sm.verifyCoreStart || sm.verifyCoreEnd <= at
    requires i == RodataIndex(sm, at)
    ensures 0 <= i && i + k <= |HashStream(sm, img)|
    ensures HashStream(sm, img)[i..i + k] == NormField(sm, sm.rodataStart, e, img.rodata[e.offset..e.offset + k])
  {
    var v := RodataView(sm, img);
    var text := Norm(sm, TextView(sm, img), TextLo(sm), TextHi(sm));
    var a, b := Norm(sm, v, RodataLo(sm), CutAt(sm)), Norm(sm, v, AfterAt(sm), RodataHi(sm));
    if e.offset + k <= CutAt(sm) {
      SpanField(sm, v, RodataLo(sm), CutAt(sm), e, j, k, e.offset - RodataLo(sm), a);
      MiddleSlice(text, a, b, e.offset - RodataLo(sm), k, i);
    } else {
      SpanField(sm, v, AfterAt(sm), RodataHi(sm), e, j, k, e.offset - AfterAt(sm), b);
      LastSlice(text, a, b, e.offset - AfterAt(sm), k, i);
    }
  }

  lemma {:induction false} FirstSlice(t: seq<byte>, rest: seq<byte>, i: nat, k: nat)
    requires i + k <= |t|
    ensures (t + rest)[i..i + k] == t[i..i + k]
  {
  }

  lemma {:induction false} MiddleSlice(t: seq<byte>, a: seq<byte>, b: seq<byte>, x: nat, k: nat, i: int)
    requires x + k <= |a| && i == |t| + x
    ensures (t + (a + b))[i..i + k] == a[x..x + k]
  {
  }

  lemma {:induction false} LastSlice(t: seq<byte>, a: seq<byte>, b: seq<byte>, x: nat, k: nat, i: int)
    requires x + k <= |b| && i == |t| + |a| + x
    ensures (t + (a + b))[i..i + k] == b[x..x + k]
  {
  }

  /** The stream tells a changed byte: it cannot be patched outside the fields and `verifyCore`
      without changing what is hashed. */
  lemma {:induction false} PatchedByteShows(sm: SegMap, img: Image, img': Image, p: int)
    requires Fenced(sm, img) && Fenced(sm, img')
    requires (sm.fipsTextStart <= p < sm.fipsTextEnd && Plain(sm.textTab, p - sm.textStart)
              && img.text[p - sm.textStart] != img'.text[p - sm.textStart])
          || (sm.fipsRodataStart <= p < sm.fipsRodataEnd && Plain(sm.rodataTab, p - sm.rodataStart)
              && !(sm.verifyCoreStart <= p < sm.verifyCoreEnd) && img.rodata[p - sm.rodataStart] != img'.rodata[p - sm.rodataStart])
    ensures HashStream(sm, img) != HashStream(sm, img')
  {
    if sm.fipsTextStart <= p < sm.fipsTextEnd && Plain(sm.textTab, p - sm.textStart) && img.text[p - sm.textStart] != img'.text[p - sm.textStart] {
      TextByte(sm, img, p);
      TextByte(sm, img', p);
    } else {
      RodataByte(sm, img, p);
      RodataByte(sm, img', p);
    }
  }

  /** And a redirected call: an offline 32-bit field of the text stands in the stream as its
      destination offset under its label. */
  lemma {:induction false} CallStands(sm: SegMap, img: Image, e: Entry, j: nat, i: int)
    requires Fenced(sm, img) && !sm.textIsLive && j < |sm.textTab| && e == sm.textTab[j]
    requires SEG_TEXT <= e.destSegment <= SEG_BSS && e.destOffset < 0x100_0000
    requires e.relocType in {R_X86_64_32, R_X86_64_32S, R_X86_64_PC32, R_X86_64_PLT32}
    requires sm.fipsTextStart <= sm.textStart + e.offset && sm.textStart + e.offset + 4 <= sm.fipsTextEnd
    requires i == TextIndex(sm, sm.textStart + e.offset)
    ensures 0 <= i && i + 4 <= |HashStream(sm, img)|
    ensures FromLE(HashStream(sm, img)[i..i + 4]) == e.destOffset + ((e.relocType as int) + 32 * (e.destSegment as int)) * 0x100_0000
  {
    TextField(sm, img, e, j, 4, i);
    OfflineField(sm, TextView(sm, img), e);
    OffsetUnderLabel(e, e.destOffset);
  }

  /** The field of a live entry that starts at `from` or later crosses the address `at`. */
  ghost predicate SomeCross(tab: seq<Entry>, start: int, from: int, at: int) {
    exists j :: 0 <= j < |tab| && tab[j].destSegment != SEG_NONE && 2 <= tab[j].relocType <= 25 &&
      from <= start + tab[j].offset < at < start + tab[j].offset + FieldWidth(tab[j].relocType)
  }

  /** When the hash succeeds, with a reliable HMAC, in terms of the fenceposts alone. */
  lemma {:induction false} CleanMeans(sm: SegMap, img: Image)
    requires Fenced(sm, img)
    ensures SpansClean(sm) <==>
      && !SomeCross(sm.textTab, sm.textStart, sm.fipsTextStart, sm.fipsTextEnd)
      && (if HoleSize(sm) == 0 && !(sm.fipsRodataStart < sm.verifyCoreEnd && sm.verifyCoreStart < sm.fipsRodataEnd)
          then !SomeCross(sm.rodataTab, sm.rodataStart, sm.fipsRodataStart, sm.fipsRodataEnd)
          else !SomeCross(sm.rodataTab, sm.rodataStart, sm.fipsRodataStart, sm.verifyCoreStart)
               && !SomeCross(sm.rodataTab, sm.rodataStart, sm.verifyCoreEnd, sm.fipsRodataEnd))
  {
    CleanCutMeans(sm.textTab, sm.textStart, sm.fipsTextStart, sm.fipsTextEnd);
    CleanCutMeans(sm.rodataTab, sm.rodataStart, sm.fipsRodataStart, Cut(sm));
    CleanCutMeans(sm.rodataTab, sm.rodataStart, After(sm), sm.fipsRodataEnd);
  }

  lemma {:induction false} CleanCutMeans(tab: seq<Entry>, start: int, from: int, at: int)
    requires start <= from <= at
    ensures CleanCut(tab, from - start, at - start) <==> !SomeCross(tab, start, from, at)
  {
    forall j | 0 <= j < |tab|
      ensures Crosses(tab[j], at - start) <==>
        tab[j].destSegment != SEG_NONE && 2 <= tab[j].relocType <= 25 && start + tab[j].offset < at < start + tab[j].offset + FieldWidth(tab[j].relocType)
    {
      WidthTable(tab[j].relocType);
    }
  }
}
