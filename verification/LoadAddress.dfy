/** The normalized stream does not depend on where the module was loaded: a live
    image at any address and the file it was loaded from hash alike. */
module LoadAddress {
  import opened Bytes
  import opened RelocTable
  import opened RelocNormalize
  import opened RelocCall
  import opened FipsHash

  /** The value the loader stores: S + A, less P for a relative type (section 4.4.1 of
      the System V AMD64 psABI), with S the destination, A the addend and P the place. */
  function RelocValue(sm: SegMap, src: Word64, e: Entry): int {
    var s := SegmentStart(sm, Destination(e.destSegment)) + e.destOffset;
    if IsRelative(e.relocType) then s + e.destAddend - (src + e.offset) else s + e.destAddend
  }

  function Modulus(k: nat): nat {
    if k == 8 then TWO64 else if k == 4 then TWO32 else TWO16
  }

  /** A field whose value the loader computes from a module segment. */
  predicate Resolvable(e: Entry) {
    Active(e) && IsX86(e.relocType) && Destination(e.destSegment) != SEG_OTHER
  }

  ghost predicate Uncovered(tab: seq<Entry>, p: nat) {
    forall j :: 0 <= j < |tab| ==> !Covers(tab[j], p)
  }

  /** Two copies of a segment that, within [lo, hi), may differ inside relocated fields only. */
  ghost predicate SameOutsideFields(tab: seq<Entry>, a: seq<byte>, b: seq<byte>, lo: nat, hi: nat) {
    |a| == |b| && forall p :: lo <= p < hi && p < |a| && Uncovered(tab, p) ==> a[p] == b[p]
  }

  /** Every resolvable field holds what the loader stores for the addresses in `sm`;
      fields that point outside the module, or of another machine's type, may hold anything. */
  ghost predicate FieldsRelocated(sm: SegMap, v: View) {
    forall j :: 0 <= j < |v.tab| && Resolvable(v.tab[j]) && End(v.tab[j]) <= |v.bytes| ==> FieldRelocated(sm, v, v.tab[j])
  }

  predicate FieldRelocated(sm: SegMap, v: View, e: Entry)
    requires Active(e) && End(e) <= |v.bytes|
  {
    FromLE(v.bytes[e.offset..End(e)]) == RelocValue(sm, v.start, e) % Modulus(Width(e.relocType))
  }

  /** Live normalization undoes the loader modulo the field width. */
  lemma {:induction false} LiveWordIsOffset(sm: SegMap, src: Word64, e: Entry, raw: nat)
    requires sm.textIsLive && Resolvable(e)
    requires raw == RelocValue(sm, src, e) % Modulus(Width(e.relocType))
    ensures NormWord(sm, src, e, raw) % Modulus(Width(e.relocType)) == e.destOffset
  {
    var k := Width(e.relocType);
    var r := RelocValue(sm, src, e);
    var v := Extend(e.relocType, k, raw);
    if k == 8 {
      assert v == raw;
      UndoMod64(r, e.destOffset, r - e.destOffset);
    } else {
      assert v % TWO32 == raw;
      UndoMod32(v, r, e.destOffset, r - e.destOffset);
    }
  }

  lemma {:induction false} UndoMod64(r: int, dest: Word32, shift: int)
    requires r == dest + shift
    ensures (r % TWO64 - shift) % TWO64 == dest
  {
  }

  lemma {:induction false} UndoMod32(v: nat, r: int, dest: Word32, shift: int)
    requires r == dest + shift && v % TWO32 == r % TWO32
    ensures (v - shift) % TWO64 % TWO32 == dest
  {
    var a, b, q := v / TWO32, r / TWO32, (v - shift) / TWO64;
    var y := (v - shift) % TWO64;
    assert v - shift == (a - b) * TWO32 + dest;
    assert y == (a - b - q * TWO32) * TWO32 + dest;
  }

  /** The loader stored the fields, if the image is live; the file form says nothing about them. */
  ghost predicate Placed(sm: SegMap, v: View) {
    sm.textIsLive ==> FieldsRelocated(sm, v)
  }

  /** The address-free word of a field: its offset in the destination segment, or zero. */
  function CanonicalWord(e: Entry): nat {
    if Resolvable(e) then e.destOffset else 0
  }

  lemma {:induction false} WordIsCanonical(sm: SegMap, v: View, e: Entry)
    requires Active(e) && End(e) <= |v.bytes|
    requires sm.textIsLive && Resolvable(e) ==> FieldRelocated(sm, v, e)
    ensures NormWord(sm, v.start, e, FromLE(v.bytes[e.offset..End(e)])) % Modulus(Width(e.relocType)) == CanonicalWord(e)
  {
    if sm.textIsLive && Resolvable(e) {
      LiveWordIsOffset(sm, v.start, e, FromLE(v.bytes[e.offset..End(e)]));
    }
  }

  ghost predicate SameLabels(sm: SegMap, sm': SegMap) {
    forall d: SegmentTag, t: TypeTag :: sm.wideLabel(d, t) == sm'.wideLabel(d, t)
  }

  lemma {:induction false} ModulusIsPow2(k: nat)
    requires k == 2 || k == 4 || k == 8
    ensures Modulus(k) == Pow2(8 * k)
  {
    Pow2Values();
  }

  /** Labelling keeps words that agree modulo the field width in agreement. */
  lemma {:induction false} LabelledCong(sm: SegMap, sm': SegMap, e: Entry, v: nat, w: nat)
    requires Active(e) && SameLabels(sm, sm')
    requires v % Modulus(Width(e.relocType)) == w % Modulus(Width(e.relocType))
    ensures ToLE(Labelled(sm, e, v), Width(e.relocType)) == ToLE(Labelled(sm', e, w), Width(e.relocType))
  {
    var k := Width(e.relocType);
    var d: int := Destination(e.destSegment);
    ModulusIsPow2(k);
    if k == 8 {
      ToLEXorCong(v, w, sm.wideLabel(d, e.relocType), k);
    } else {
      var a: nat := if k == 4 then d * 0x2000_0000 else d * 0x2000;
      var b: nat := if k == 4 then e.relocType * 0x100_0000 else e.relocType * 0x100;
      XorMod(v, a, 8 * k);
      XorMod(w, a, 8 * k);
      ToLEXorCong(Xor(v, a), Xor(w, a), b, k);
    }
  }

  lemma {:induction false} FieldIndependent(sm: SegMap, v: View, sm': SegMap, v': View, e: Entry)
    requires Active(e) && End(e) <= |v.bytes| && End(e) <= |v'.bytes| && SameLabels(sm, sm')
    requires sm.textIsLive && Resolvable(e) ==> FieldRelocated(sm, v, e)
    requires sm'.textIsLive && Resolvable(e) ==> FieldRelocated(sm', v', e)
    ensures NormField(sm, v.start, e, v.bytes[e.offset..End(e)]) == NormField(sm', v'.start, e, v'.bytes[e.offset..End(e)])
  {
    WordIsCanonical(sm, v, e);
    WordIsCanonical(sm', v', e);
    LabelledCong(sm, sm', e, NormWord(sm, v.start, e, FromLE(v.bytes[e.offset..End(e)])),
                 NormWord(sm', v'.start, e, FromLE(v'.bytes[e.offset..End(e)])));
  }

  ghost predicate NoCrossing(tab: seq<Entry>, at: nat) {
    forall j :: 0 <= j < |tab| ==> !Crosses(tab[j], at)
  }

  lemma {:induction false} ByteIndependent(sm: SegMap, v: View, sm': SegMap, v': View, lo: nat, hi: nat, p: nat)
    requires v.tab == v'.tab && Disjoint(v.tab) && SameLabels(sm, sm')
    requires SameOutsideFields(v.tab, v.bytes, v'.bytes, lo, hi) && Placed(sm, v) && Placed(sm', v')
    requires lo <= p < hi <= |v.bytes| && NoCrossing(v.tab, lo) && NoCrossing(v.tab, hi)
    ensures PatchedByte(Normalizer(sm, v.start), v.tab, v.bytes, lo, hi, |v.tab|, p)
         == PatchedByte(Normalizer(sm', v'.start), v.tab, v'.bytes, lo, hi, |v.tab|, p)
  {
    var f, f' := Normalizer(sm, v.start), Normalizer(sm', v'.start);
    if j :| 0 <= j < |v.tab| && Covers(v.tab[j], p) {
      assert !Crosses(v.tab[j], lo) && !Crosses(v.tab[j], hi);
      ByteInField(f, v.tab, v.bytes, lo, hi, |v.tab|, j, p);
      ByteInField(f', v.tab, v'.bytes, lo, hi, |v.tab|, j, p);
      FieldIndependent(sm, v, sm', v', v.tab[j]);
    } else {
      ByteElsewhere(f, v.tab, v.bytes, lo, hi, |v.tab|, p);
      ByteElsewhere(f', v.tab, v'.bytes, lo, hi, |v.tab|, p);
      assert Uncovered(v.tab, p);
    }
  }

  /** The normalized span is the same for every load address, live or offline. */
  lemma {:induction false} SpanIndependent(sm: SegMap, v: View, sm': SegMap, v': View, lo: nat, hi: nat)
    requires v.tab == v'.tab && Disjoint(v.tab) && SameLabels(sm, sm')
    requires SameOutsideFields(v.tab, v.bytes, v'.bytes, lo, hi) && Placed(sm, v) && Placed(sm', v')
    requires lo <= hi <= |v.bytes| && NoCrossing(v.tab, lo) && NoCrossing(v.tab, hi)
    ensures Norm(sm, v, lo, hi) == Norm(sm', v', lo, hi)
  {
    forall q | 0 <= q < hi - lo
      ensures Norm(sm, v, lo, hi)[q] == Norm(sm', v', lo, hi)[q]
    {
      ByteIndependent(sm, v, sm', v', lo, hi, lo + q);
    }
  }

  // ---- The whole hash ----

  /** The two maps describe the same module, possibly at different addresses. */
  ghost predicate SameModule(sm: SegMap, sm': SegMap) {
    && sm.textTab == sm'.textTab && sm.rodataTab == sm'.rodataTab && SameLabels(sm, sm')
    && TextLo(sm) == TextLo(sm') && TextHi(sm) == TextHi(sm')
    && RodataLo(sm) == RodataLo(sm') && RodataHi(sm) == RodataHi(sm')
    && CutAt(sm) == CutAt(sm') && AfterAt(sm) == AfterAt(sm')
  }

  /** No field crosses an edge of a hashed span. */
  ghost predicate EdgesClear(sm: SegMap)
    requires HolePlaced(sm) && RangesValid(sm) && sm.textStart <= sm.fipsTextStart && sm.rodataStart <= sm.fipsRodataStart
  {
    && NoCrossing(sm.textTab, TextLo(sm)) && NoCrossing(sm.textTab, TextHi(sm))
    && NoCrossing(sm.rodataTab, RodataLo(sm)) && NoCrossing(sm.rodataTab, RodataHi(sm))
    && NoCrossing(sm.rodataTab, CutAt(sm)) && NoCrossing(sm.rodataTab, AfterAt(sm))
  }

  /** A module that can be hashed. */
  ghost predicate Hashable(sm: SegMap, img: Image) {
    Setup(sm, img) && HolePlaced(sm) && RangesValid(sm)
  }

  /** The images agree on every hashed byte that no relocation touches. */
  ghost predicate SameContents(sm: SegMap, img: Image, img': Image)
    requires Hashable(sm, img)
  {
    && SameOutsideFields(sm.textTab, img.text, img'.text, TextLo(sm), TextHi(sm))
    && SameOutsideFields(sm.rodataTab, img.rodata, img'.rodata, RodataLo(sm), CutAt(sm))
    && SameOutsideFields(sm.rodataTab, img.rodata, img'.rodata, AfterAt(sm), RodataHi(sm))
  }

  /** Load-address independence: any two placements of a module, live or offline, feed
      the HMAC the same bytes, so their digests agree. */
  lemma {:induction false} HashIndependent(sm: SegMap, img: Image, sm': SegMap, img': Image)
    requires Hashable(sm, img) && Hashable(sm', img') && SameModule(sm, sm') && EdgesClear(sm)
    requires SameContents(sm, img, img')
    requires Placed(sm, TextView(sm, img)) && Placed(sm, RodataView(sm, img))
    requires Placed(sm', TextView(sm', img')) && Placed(sm', RodataView(sm', img'))
    ensures HashStream(sm, img) == HashStream(sm', img')
  {
    SpanIndependent(sm, TextView(sm, img), sm', TextView(sm', img'), TextLo(sm), TextHi(sm));
    SpanIndependent(sm, RodataView(sm, img), sm', RodataView(sm', img'), RodataLo(sm), CutAt(sm));
    SpanIndependent(sm, RodataView(sm, img), sm', RodataView(sm', img'), AfterAt(sm), RodataHi(sm));
  }

  // ---- The loader ----

  /** What the loader writes; `foreign` says what goes into fields that point outside the module. */
  function LoadField(sm: SegMap, src: Word64, foreign: Rewrite, e: Entry, s: seq<byte>): (r: seq<byte>)
    ensures |r| == |s|
  {
    if Resolvable(e) then ToLE(RelocValue(sm, src, e) % Modulus(Width(e.relocType)), |s|)
    else if |foreign(e, s)| == |s| then foreign(e, s)
    else s
  }

  function Loader(sm: SegMap, src: Word64, foreign: Rewrite): (f: Rewrite)
    ensures KeepsWidth(f)
  {
    (e: Entry, s: seq<byte>) => LoadField(sm, src, foreign, e, s)
  }

  /** The segment `file` relocated for the addresses in `sm`. */
  ghost function Load(sm: SegMap, src: Word64, foreign: Rewrite, tab: seq<Entry>, file: seq<byte>): (live: seq<byte>)
    ensures |live| == |file|
  {
    Patched(Loader(sm, src, foreign), tab, file, 0, |file|)
  }

  lemma {:induction false} StoredReads(value: int, k: nat)
    requires k == 2 || k == 4 || k == 8
    ensures FromLE(ToLE(value % Modulus(k), k)) == value % Modulus(k)
  {
    var v := value % Modulus(k);
    ModulusIsPow2(k);
    FromToLE(v, k);
    DivModUnique(v, Modulus(k), 0, v);
  }

  /** A loaded field reads back as the value the loader stored. */
  lemma {:induction false} LoadedField(sm: SegMap, src: Word64, foreign: Rewrite, tab: seq<Entry>, file: seq<byte>, j: nat)
    requires Disjoint(tab) && j < |tab| && Resolvable(tab[j]) && End(tab[j]) <= |file|
    ensures FieldRelocated(sm, View(tab, src, Load(sm, src, foreign, tab, file)), tab[j])
  {
    var e, live := tab[j], Load(sm, src, foreign, tab, file);
    PatchedField(Loader(sm, src, foreign), tab, file, 0, |file|, j, live);
    StoredReads(RelocValue(sm, src, e), Width(e.relocType));
  }

  /** Loading a file gives a placed image that differs from the file in its fields only. */
  lemma {:induction false} LoadIsPlaced(sm: SegMap, src: Word64, foreign: Rewrite, tab: seq<Entry>, file: seq<byte>)
    requires Disjoint(tab)
    ensures FieldsRelocated(sm, View(tab, src, Load(sm, src, foreign, tab, file)))
    ensures forall lo: nat, hi: nat :: SameOutsideFields(tab, Load(sm, src, foreign, tab, file), file, lo, hi)
  {
    var live := Load(sm, src, foreign, tab, file);
    forall j | 0 <= j < |tab| && Resolvable(tab[j]) && End(tab[j]) <= |live|
      ensures FieldRelocated(sm, View(tab, src, live), tab[j])
    {
      LoadedField(sm, src, foreign, tab, file, j);
    }
    forall p | 0 <= p < |file| && Uncovered(tab, p)
      ensures live[p] == file[p]
    {
      ByteElsewhere(Loader(sm, src, foreign), tab, file, 0, |file|, |tab|, p);
    }
  }

  /** The image a module has once `sm` has placed it. */
  ghost function LoadImage(sm: SegMap, foreign: Rewrite, file: Image): Image {
    Image(Load(sm, sm.textStart, foreign, sm.textTab, file.text), Load(sm, sm.rodataStart, foreign, sm.rodataTab, file.rodata))
  }

  /** The live hash of a loaded module, at any addresses, is the offline hash of its file. */
  lemma {:induction false} LiveHashIsOfflineHash(live: SegMap, offline: SegMap, foreign: Rewrite, file: Image)
    requires live.textIsLive && !offline.textIsLive
    requires Hashable(offline, file) && Hashable(live, LoadImage(live, foreign, file))
    requires SameModule(live, offline) && EdgesClear(live)
    ensures HashStream(live, LoadImage(live, foreign, file)) == HashStream(offline, file)
  {
    var img := LoadImage(live, foreign, file);
    LoadIsPlaced(live, live.textStart, foreign, live.textTab, file.text);
    LoadIsPlaced(live, live.rodataStart, foreign, live.rodataTab, file.rodata);
    HashIndependent(live, img, offline, file);
  }

  // ---- The label identifies the destination ----

  /** Below the label byte, the segment goes into the top 3 bits and the type into the 5 bits under them. */
  lemma {:induction false} LabelBits(v: nat, d: nat, t: nat, n: nat)
    requires v < Pow2(n) && t < 32
    ensures Xor(Xor(v, (32 * d) * Pow2(n)), t * Pow2(n)) == v + (t + 32 * d) * Pow2(n)
  {
    XorHigh(v, 32 * d, n);
    LabelByte(d, t);
    XorAligned(v, 32 * d, t, n);
  }

  lemma {:induction false} LabelByte(d: nat, t: nat)
    requires t < 32
    ensures Xor(32 * d, t) == t + 32 * d
  {
    XorComm(32 * d, t);
    assert Pow2(5) == 32;
    XorHigh(t, d, 5);
  }

  /** The labelled word of a 32-bit field whose offset leaves the label byte free. */
  lemma {:induction false} LabelledWord32(sm: SegMap, e: Entry, v: nat)
    requires Active(e) && Width(e.relocType) == 4 && v < 0x100_0000
    ensures Labelled(sm, e, v) == v + (e.relocType + 32 * Destination(e.destSegment)) * 0x100_0000
  {
    Pow2Values();
    var d: int := Destination(e.destSegment);
    assert (32 * d) * 0x100_0000 == d * 0x2000_0000;
    LabelBits(v, d, e.relocType, 24);
  }

  /** The label of an entry: its destination segment in the top 3 bits, its type in the 5 below. */
  function LabelOf(e: Entry): nat {
    e.relocType + 32 * (if SEG_TEXT <= e.destSegment <= SEG_BSS then e.destSegment else SEG_OTHER)
  }

  lemma {:induction false} TwoLabels(v: nat, d: nat, t: nat, n: nat, p: nat, high: nat, low: nat)
    requires t < 32 && p == Pow2(n) && high == (32 * d) * p && low == t * p
    ensures Xor(Xor(v, high), low) == Xor(v, (t + 32 * d) * p)
  {
    LabelByte(d, t);
    XorScaled(32 * d, t, n, p);
    XorAssoc(v, high, low);
  }

  /** The two label steps are one exclusive-or. */
  lemma {:induction false} LabelOnce(sm: SegMap, e: Entry, v: nat)
    requires Active(e)
    ensures Width(e.relocType) == 4 ==> Labelled(sm, e, v) == Xor(v, LabelOf(e) * 0x100_0000)
    ensures Width(e.relocType) == 2 ==> Labelled(sm, e, v) == Xor(v, LabelOf(e) * 0x100)
  {
    var d: int, t: int := Destination(e.destSegment), e.relocType;
    Pow2Values();
    if Width(e.relocType) == 4 {
      TwoLabels(v, d, t, 24, 0x100_0000, d * 0x2000_0000, t * 0x100_0000);
    } else if Width(e.relocType) == 2 {
      TwoLabels(v, d, t, 8, 0x100, d * 0x2000, t * 0x100);
    }
  }

  lemma {:induction false} LabelFits(e: Entry)
    ensures LabelOf(e) < 256
  {
  }

  /** What every field is normalized to, live or offline, as the number its bytes hold: the offset
      in the destination segment, or zero, with the label in the top byte. */
  lemma {:induction false} NormalizedWord(sm: SegMap, v: View, e: Entry)
    requires Active(e) && End(e) <= |v.bytes|
    requires sm.textIsLive && Resolvable(e) ==> FieldRelocated(sm, v, e)
    ensures var w := FromLE(NormField(sm, v.start, e, v.bytes[e.offset..End(e)]));
            match Width(e.relocType)
            case 8 => w == Xor(CanonicalWord(e), sm.wideLabel(Destination(e.destSegment), e.relocType))
            case 4 => w == Xor(CanonicalWord(e), LabelOf(e) * 0x100_0000)
            case _ => w == LabelOf(e) * 0x100
  {
    var k, c := Width(e.relocType), CanonicalWord(e);
    var raw := NormWord(sm, v.start, e, FromLE(v.bytes[e.offset..End(e)]));
    ModulusIsPow2(k);
    WordIsCanonical(sm, v, e);
    DivModUnique(c, Modulus(k), 0, c);
    LabelledCong(sm, sm, e, raw, c);
    FromToLE(Labelled(sm, e, c), k);
    LabelOnce(sm, e, c);
    LabelledBound(sm, e, c);
    DivModUnique(Labelled(sm, e, c), Modulus(k), 0, Labelled(sm, e, c));
    if k == 2 { XorZero(LabelOf(e) * 0x100); }
  }

  lemma {:induction false} LabelledBound(sm: SegMap, e: Entry, c: nat)
    requires Active(e) && c < Modulus(Width(e.relocType))
    ensures Labelled(sm, e, c) < Modulus(Width(e.relocType))
  {
    var k := Width(e.relocType);
    ModulusIsPow2(k);
    LabelOnce(sm, e, c);
    LabelFits(e);
    if k == 8 {
      XorBound(c, sm.wideLabel(Destination(e.destSegment), e.relocType), 64);
    } else {
      XorBound(c, LabelOf(e) * (if k == 4 then 0x100_0000 else 0x100), 8 * k);
    }
  }

  // ---- The normalized field, with the addresses and the formulas spelled out ----

  /** `start` is where the destination segment of `e` was loaded. */
  predicate StartsAt(sm: SegMap, e: Entry, start: int) {
    || (e.destSegment == SEG_TEXT && start == sm.textStart)
    || (e.destSegment == SEG_RODATA && start == sm.rodataStart)
    || (e.destSegment == SEG_RWDATA && start == sm.dataStart)
    || (e.destSegment == SEG_BSS && start == sm.bssStart)
  }

  /** A live 32-bit field that holds S + A - P, for the two relative types, or S + A, modulo 2^32. */
  lemma {:induction false} LiveField32(sm: SegMap, v: View, e: Entry, start: int)
    requires sm.textIsLive && StartsAt(sm, e, start) && e.offset + 4 <= |v.bytes|
    requires e.relocType in {R_X86_64_32, R_X86_64_32S, R_X86_64_PC32, R_X86_64_PLT32}
    requires FromLE(v.bytes[e.offset..e.offset + 4])
          == (start + e.destOffset + e.destAddend - (if e.relocType in {R_X86_64_PC32, R_X86_64_PLT32} then v.start + e.offset else 0)) % TWO32
    ensures FromLE(NormField(sm, v.start, e, v.bytes[e.offset..e.offset + 4])) == Xor(e.destOffset, LabelOf(e) * 0x100_0000)
  {
    NormalizedWord(sm, v, e);
  }

  /** A live 64-bit field that holds S + A modulo 2^64. */
  lemma {:induction false} LiveField64(sm: SegMap, v: View, e: Entry, start: int)
    requires sm.textIsLive && StartsAt(sm, e, start) && e.offset + 8 <= |v.bytes| && e.relocType == R_X86_64_64
    requires FromLE(v.bytes[e.offset..e.offset + 8]) == (start + e.destOffset + e.destAddend) % TWO64
    ensures FromLE(NormField(sm, v.start, e, v.bytes[e.offset..e.offset + 8])) == Xor(e.destOffset, sm.wideLabel(e.destSegment, R_X86_64_64))
  {
    NormalizedWord(sm, v, e);
  }

  /** An offline field of the module's own segments, whatever it holds. */
  lemma {:induction false} OfflineField(sm: SegMap, v: View, e: Entry)
    requires !sm.textIsLive && SEG_TEXT <= e.destSegment <= SEG_BSS
    requires e.relocType in {R_X86_64_32, R_X86_64_32S, R_X86_64_64, R_X86_64_PC32, R_X86_64_PLT32}
    ensures e.relocType != R_X86_64_64 && e.offset + 4 <= |v.bytes| ==>
              FromLE(NormField(sm, v.start, e, v.bytes[e.offset..e.offset + 4])) == Xor(e.destOffset, LabelOf(e) * 0x100_0000)
    ensures e.relocType == R_X86_64_64 && e.offset + 8 <= |v.bytes| ==>
              FromLE(NormField(sm, v.start, e, v.bytes[e.offset..e.offset + 8])) == Xor(e.destOffset, sm.wideLabel(e.destSegment, R_X86_64_64))
  {
    if End(e) <= |v.bytes| { NormalizedWord(sm, v, e); }
  }

  /** A field of another machine, or one that points outside the module, becomes its bare label. */
  lemma {:induction false} BareLabel(sm: SegMap, v: View, e: Entry, k: nat)
    requires e.destSegment != SEG_NONE && 2 <= e.relocType <= 25
    requires e.relocType !in {R_X86_64_32, R_X86_64_32S, R_X86_64_64, R_X86_64_PC32, R_X86_64_PLT32} || !(SEG_TEXT <= e.destSegment <= SEG_BSS)
    requires k == (if e.relocType == 4 || e.relocType == 8 then 8 else if e.relocType == 22 then 2 else 4) && e.offset + k <= |v.bytes|
    ensures var w := FromLE(NormField(sm, v.start, e, v.bytes[e.offset..e.offset + k]));
            match k
            case 8 => w == sm.wideLabel(if SEG_TEXT <= e.destSegment <= SEG_BSS then e.destSegment else SEG_OTHER, e.relocType)
            case 4 => w == LabelOf(e) * 0x100_0000
            case _ => w == LabelOf(e) * 0x100
  {
    WidthTable(e.relocType);
    NormalizedWord(sm, v, e);
    XorZero(LabelOf(e) * 0x100_0000);
    XorZero(sm.wideLabel(Destination(e.destSegment), e.relocType));
  }

  /** Below 2^24 the offset stands under the label. */
  lemma {:induction false} OffsetUnderLabel(e: Entry, c: nat)
    requires c < 0x100_0000
    ensures Xor(c, LabelOf(e) * 0x100_0000) == c + LabelOf(e) * 0x100_0000
  {
    Pow2Values();
    XorHigh(c, LabelOf(e), 24);
  }

  lemma {:induction false} DecodeLabel(v: nat, d: nat, t: nat, v': nat, d': nat, t': nat)
    requires v < 0x100_0000 && v' < 0x100_0000 && t < 32 && t' < 32
    requires v + (t + 32 * d) * 0x100_0000 == v' + (t' + 32 * d') * 0x100_0000
    ensures v == v' && d == d' && t == t'
  {
  }

  /** Two 32-bit fields normalize to the same bytes only if they name the same segment,
      the same relocation type and the same offset, as long as offsets stay below 2^24. */
  lemma {:induction false} LabelIdentifies(sm: SegMap, v: View, e: Entry, sm': SegMap, v': View, e': Entry)
    requires Active(e) && Active(e') && Width(e.relocType) == 4 && Width(e'.relocType) == 4
    requires End(e) <= |v.bytes| && End(e') <= |v'.bytes|
    requires sm.textIsLive && Resolvable(e) ==> FieldRelocated(sm, v, e)
    requires sm'.textIsLive && Resolvable(e') ==> FieldRelocated(sm', v', e')
    requires CanonicalWord(e) < 0x100_0000 && CanonicalWord(e') < 0x100_0000
    requires NormField(sm, v.start, e, v.bytes[e.offset..End(e)]) == NormField(sm', v'.start, e', v'.bytes[e'.offset..End(e')])
    ensures Destination(e.destSegment) == Destination(e'.destSegment) && e.relocType == e'.relocType
    ensures CanonicalWord(e) == CanonicalWord(e')
  {
    NormalizedWord(sm, v, e);
    NormalizedWord(sm', v', e');
    OffsetUnderLabel(e, CanonicalWord(e));
    OffsetUnderLabel(e', CanonicalWord(e'));
    DecodeLabel(CanonicalWord(e), Destination(e.destSegment), e.relocType, CanonicalWord(e'), Destination(e'.destSegment), e'.relocType);
  }
}
