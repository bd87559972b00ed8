/** `wc_fips_generate_hash`: the byte stream fed to the HMAC that fingerprints the
    module, from text and then read-only data with the `verifyCore` span left out. */
module FipsHash {
  import opened Common
  import opened Bytes
  import opened RelocTable
  import opened RelocNormalize
  import opened RelocCall

  const IN_CORE_FIPS_E := -203

  /** The HMAC callbacks: what has been fed so far, and the code the n-th update returns. */
  class Hmac {
    var fed: seq<byte>
    var calls: nat
    const code: nat -> int

    constructor (code: nat -> int)
      ensures fed == [] && calls == 0 && this.code == code
    {
      this.fed, this.calls, this.code := [], 0, code;
    }

    method Update(data: seq<byte>) returns (ret: int)
      modifies this
      ensures calls == old(calls) + 1
      ensures ret == code(old(calls))
      ensures fed == if ret == 0 then old(fed) + data else old(fed)
    {
      ret := code(calls);
      calls := calls + 1;
      if ret == 0 {
        fed := fed + data;
      }
    }
  }

  /** No update fails. */
  ghost predicate Reliable(code: nat -> int) {
    forall n: nat :: code(n) == 0
  }

  /** The normalized bytes [lo, hi) of a segment. */
  ghost function Norm(sm: SegMap, v: View, lo: nat, hi: nat): seq<byte>
    requires lo <= hi <= |v.bytes|
  {
    Patched(Normalizer(sm, v.start), v.tab, v.bytes, lo, hi)
  }

  predicate IsCounter(d: SegmentTag) {
    SEG_TEXT <= d <= SEG_OTHER
  }

  /** One turn of either hash loop: normalize a chunk and feed it. */
  method HashChunk(sm: SegMap, img: Image, ghost v: View, p: nat, n: nat, buf: array<byte>, cur: int, hmac: Hmac, counts: RelocCounts?)
    returns (ret: int, progress: nat, index: int)
    requires ImageFits(sm, img) && |sm.textTab| >= 1 && |sm.rodataTab| >= 1
    requires 0 < n <= buf.Length && Locate(sm, img, p, n) == Some(v)
    requires Ready(v, p - v.start, cur)
    modifies buf, hmac, counts
    ensures ret == 0 ==>
              var off := p - v.start;
              && 0 < progress <= n
              && hmac.fed == old(hmac.fed) + Norm(sm, v, off, off + progress)
              && Resumes(v.tab, off + progress, index)
              && CleanCut(v.tab, off, off + progress)
              && CountedSince(counts, old(Totals(counts)), v.tab, off, off + progress)
    ensures ret != 0 && Reliable(hmac.code) ==>
              ret == IN_CORE_FIPS_E && exists j :: 0 <= j < |v.tab| && v.tab[j].offset == p - v.start && Crosses(v.tab[j], p + n - v.start)
  {
    var r, len;
    r, len, index := NormalizeSegment(sm, img, p, n, buf, cur, counts);
    progress := len;
    if r <= 0 {
      ret := if r != 0 then r else IN_CORE_FIPS_E;
      return;
    }
    ret := hmac.Update(buf[..len]);
  }

  /** Growing a span across a clean cut. */
  lemma {:induction false} ExtendSpan(sm: SegMap, v: View, base: nat, q: nat, q': nat)
    requires base <= q <= q' <= |v.bytes|
    requires CleanCut(v.tab, base, q) && CleanCut(v.tab, q, q')
    ensures Norm(sm, v, base, q') == Norm(sm, v, base, q) + Norm(sm, v, q, q')
    ensures CleanCut(v.tab, base, q')
  {
    PatchedConcat(Normalizer(sm, v.start), v.tab, v.bytes, base, q, q');
  }

  /** The counter for `d` over the whole table. */
  function Count(tab: seq<Entry>, lo: nat, hi: nat, d: SegmentTag): nat {
    CountIn(tab, lo, hi, |tab|, d)
  }

  lemma {:induction false} ExtendCount(tab: seq<Entry>, base: nat, q: nat, q': nat)
    requires base <= q <= q'
    ensures forall d: SegmentTag :: Count(tab, base, q', d) == Count(tab, base, q, d) + Count(tab, q, q', d)
  {
    forall d: SegmentTag ensures Count(tab, base, q', d) == Count(tab, base, q, d) + Count(tab, q, q', d) {
      CountConcat(tab, base, q, q', |tab|, d);
    }
  }

  /** The totals before, plus what the fields that start in [lo, hi) add. */
  ghost predicate CountedSince(counts: RelocCounts?, before: map<SegmentTag, int>, tab: seq<Entry>, lo: nat, hi: nat)
    reads counts
  {
    counts != null ==>
      forall d: SegmentTag :: IsCounter(d) ==> d in before && counts.Of(d) == before[d] + Count(tab, lo, hi, d)
  }

  lemma {:induction false} CountEmpty(tab: seq<Entry>, lo: nat)
    ensures forall d: SegmentTag :: Count(tab, lo, lo, d) == 0
  {
    forall d: SegmentTag ensures Count(tab, lo, lo, d) == 0 {
      CountIgnores(tab, lo, lo, 0, |tab|, d);
    }
  }

  ghost function Totals(counts: RelocCounts?): map<SegmentTag, int>
    reads counts
  {
    if counts == null then map[] else map d: SegmentTag | 0 <= d < 8 :: counts.Of(d)
  }

  ghost predicate Setup(sm: SegMap, img: Image) {
    && ImageFits(sm, img)
    && WellFormed(sm.textTab, |img.text|) && WellFormed(sm.rodataTab, |img.rodata|)
    && (sm.textEnd <= sm.rodataStart || sm.rodataEnd <= sm.textStart)
    && sm.textStart <= sm.fipsTextStart && sm.fipsTextEnd <= sm.textEnd
    && sm.rodataStart <= sm.fipsRodataStart && sm.fipsRodataEnd <= sm.rodataEnd
  }

  function TextLo(sm: SegMap): int { sm.fipsTextStart - sm.textStart }

  function TextHi(sm: SegMap): int { sm.fipsTextEnd - sm.textStart }

  /** A chunk fails only on a field that crosses the end of the span being hashed. */
  lemma {:induction false} OverrunsEnd(tab: seq<Entry>, base: nat, q: nat, n: nat, hi: nat, bufsz: nat)
    requires base <= q && q + n <= hi && (n == bufsz || q + n == hi) && bufsz >= 8
    requires exists j :: 0 <= j < |tab| && tab[j].offset == q && Crosses(tab[j], q + n)
    ensures !CleanCut(tab, base, hi)
  {
  }

  /** Where a hash loop stands inside one span: it has fed the normalized bytes
      [base, q) after `prefix`, and counted their fields. */
  ghost predicate SpanSoFar(sm: SegMap, v: View, base: nat, q: nat, prefix: seq<byte>, before: map<SegmentTag, int>, hmac: Hmac, counts: RelocCounts?)
    reads hmac, counts
  {
    && base <= q <= |v.bytes|
    && hmac.fed == prefix + Norm(sm, v, base, q)
    && CleanCut(v.tab, base, q)
    && CountedSince(counts, before, v.tab, base, q)
  }

  lemma {:induction false} SpanStart(sm: SegMap, v: View, base: nat, hmac: Hmac, counts: RelocCounts?)
    requires base <= |v.bytes|
    ensures SpanSoFar(sm, v, base, base, hmac.fed, Totals(counts), hmac, counts)
  {
    CountEmpty(v.tab, base);
    assert hmac.fed + Norm(sm, v, base, base) == hmac.fed;
  }

  /** One turn of either hash loop, seen from the span it belongs to. */
  method HashNext(sm: SegMap, img: Image, ghost v: View, p: nat, n: nat, buf: array<byte>, cur: int, hmac: Hmac, counts: RelocCounts?,
                  ghost base: nat, ghost prefix: seq<byte>, ghost before: map<SegmentTag, int>)
    returns (ret: int, progress: nat, index: int)
    requires ImageFits(sm, img) && |sm.textTab| >= 1 && |sm.rodataTab| >= 1
    requires 0 < n <= buf.Length && Locate(sm, img, p, n) == Some(v)
    requires Ready(v, p - v.start, cur)
    requires SpanSoFar(sm, v, base, p - v.start, prefix, before, hmac, counts)
    modifies buf, hmac, counts
    ensures ret == 0 ==> 0 < progress <= n
    ensures ret == 0 ==> SpanSoFar(sm, v, base, p - v.start + progress, prefix, before, hmac, counts)
    ensures ret == 0 ==> Resumes(v.tab, p - v.start + progress, index)
    ensures ret != 0 && Reliable(hmac.code) ==>
              ret == IN_CORE_FIPS_E && exists j :: 0 <= j < |v.tab| && v.tab[j].offset == p - v.start && Crosses(v.tab[j], p + n - v.start)
  {
    ret, progress, index := HashChunk(sm, img, v, p, n, buf, cur, hmac, counts);
    if ret == 0 {
      ghost var q := p - v.start;
      ExtendSpan(sm, v, base, q, q + progress);
      ExtendCount(v.tab, base, q, q + progress);
    }
  }

  /** The text loop. */
  method HashText(sm: SegMap, img: Image, buf: array<byte>, hmac: Hmac, counts: RelocCounts?) returns (ret: int)
    requires Setup(sm, img) && buf.Length >= 8
    requires sm.fipsTextStart <= sm.fipsTextEnd
    modifies buf, hmac, counts
    ensures ret == 0 ==> SpanSoFar(sm, TextView(sm, img), TextLo(sm), TextHi(sm), old(hmac.fed), old(Totals(counts)), hmac, counts)
    ensures ret != 0 && Reliable(hmac.code) ==> ret == IN_CORE_FIPS_E && !CleanCut(sm.textTab, TextLo(sm), TextHi(sm))
  {
    ghost var v := TextView(sm, img);
    ghost var lo, hi := TextLo(sm), TextHi(sm);
    ghost var fed0, before := hmac.fed, Totals(counts);
    var p := sm.fipsTextStart;
    var cur := -1;
    ret := 0;
    SpanStart(sm, v, lo, hmac, counts);
    while p < sm.fipsTextEnd
      invariant sm.fipsTextStart <= p <= sm.fipsTextEnd
      invariant ret == 0
      invariant SpanSoFar(sm, v, lo, p - sm.textStart, fed0, before, hmac, counts)
      invariant cur == -1 || Resumes(v.tab, p - sm.textStart, cur)
    {
      var n := if buf.Length < sm.fipsTextEnd - p then buf.Length else sm.fipsTextEnd - p;
      var progress;
      ret, progress, cur := HashNext(sm, img, v, p, n, buf, cur, hmac, counts, lo, fed0, before);
      if ret != 0 {
        if Reliable(hmac.code) { OverrunsEnd(v.tab, lo, p - sm.textStart, n, hi, buf.Length); }
        return;
      }
      p := p + progress;
    }
  }

  /** `verifyCore` reaches into the hashed read-only data, or lies past it. */
  predicate HasHole(sm: SegMap) { sm.fipsRodataStart < sm.verifyCoreEnd }

  /** Where the first hashed span of the read-only data ends. */
  function Cut(sm: SegMap): Word64 {
    if HasHole(sm) && sm.verifyCoreStart < sm.fipsRodataEnd then sm.verifyCoreStart else sm.fipsRodataEnd
  }

  /** Where hashing resumes after the hole. */
  function After(sm: SegMap): Word64 {
    if HasHole(sm) && sm.verifyCoreEnd < sm.fipsRodataEnd then sm.verifyCoreEnd else sm.fipsRodataEnd
  }

  function RodataLo(sm: SegMap): int { sm.fipsRodataStart - sm.rodataStart }

  function RodataHi(sm: SegMap): int { sm.fipsRodataEnd - sm.rodataStart }

  function CutAt(sm: SegMap): int { Cut(sm) - sm.rodataStart }

  function AfterAt(sm: SegMap): int { After(sm) - sm.rodataStart }

  /** `verifyCore` is a span, and does not contain the start of the hashed read-only data. */
  predicate HolePlaced(sm: SegMap) {
    && sm.verifyCoreStart <= sm.verifyCoreEnd
    && (sm.verifyCoreEnd <= sm.fipsRodataStart || sm.fipsRodataStart <= sm.verifyCoreStart)
  }

  /** No field crosses the end of a hashed span. */
  ghost predicate RodataClean(sm: SegMap)
    requires HolePlaced(sm) && sm.rodataStart <= sm.fipsRodataStart <= sm.fipsRodataEnd
  {
    && CleanCut(sm.rodataTab, RodataLo(sm), CutAt(sm))
    && CleanCut(sm.rodataTab, AfterAt(sm), RodataHi(sm))
  }

  /** Where the current span starts. */
  function Base(sm: SegMap, skipped: bool): int {
    if skipped then AfterAt(sm) else RodataLo(sm)
  }

  /** The end of the current span. */
  function SpanEnd(sm: SegMap, skipped: bool): Word64 {
    if skipped then sm.fipsRodataEnd else Cut(sm)
  }

  /** How far the current span has been fed: the jump over the hole may pass the end. */
  function Pos(sm: SegMap, p: nat): int {
    (if p <= sm.fipsRodataEnd then p else sm.fipsRodataEnd) - sm.rodataStart
  }

  /** What was fed and counted before the current span. */
  ghost predicate RodataFrame(sm: SegMap, img: Image, fed0: seq<byte>, before0: map<SegmentTag, int>, counting: bool,
                              p: nat, skipped: bool, prefix: seq<byte>, before: map<SegmentTag, int>)
    requires Setup(sm, img) && HolePlaced(sm) && sm.fipsRodataStart <= sm.fipsRodataEnd
  {
    if !skipped then
      && sm.fipsRodataStart <= p <= Cut(sm)
      && prefix == fed0 && before == before0
    else
      && sm.verifyCoreEnd <= p && After(sm) <= p
      && prefix == fed0 + Norm(sm, RodataView(sm, img), RodataLo(sm), CutAt(sm))
      && CleanCut(sm.rodataTab, RodataLo(sm), CutAt(sm))
      && (counting ==> forall d: SegmentTag :: IsCounter(d) ==>
            d in before && d in before0 && before[d] == before0[d] + Count(sm.rodataTab, RodataLo(sm), CutAt(sm), d))
  }

  /** The loop over the read-only data, in one of its two spans. */
  ghost predicate RodataState(sm: SegMap, img: Image, hmac: Hmac, counts: RelocCounts?, fed0: seq<byte>, before0: map<SegmentTag, int>,
                              p: nat, skipped: bool, prefix: seq<byte>, before: map<SegmentTag, int>)
    requires Setup(sm, img) && HolePlaced(sm) && sm.fipsRodataStart <= sm.fipsRodataEnd
    reads hmac, counts
  {
    && RodataFrame(sm, img, fed0, before0, counts != null, p, skipped, prefix, before)
    && SpanSoFar(sm, RodataView(sm, img), Base(sm, skipped), Pos(sm, p), prefix, before, hmac, counts)
  }

  /** At the hole: the first span is complete and the second starts empty. */
  lemma {:induction false} EnterSecondSpan(sm: SegMap, img: Image, hmac: Hmac, counts: RelocCounts?, fed0: seq<byte>, before0: map<SegmentTag, int>,
                        p: nat, prefix: seq<byte>, before: map<SegmentTag, int>)
    requires Setup(sm, img) && HolePlaced(sm) && sm.fipsRodataStart <= sm.fipsRodataEnd
    requires RodataState(sm, img, hmac, counts, fed0, before0, p, false, prefix, before)
    requires p == Cut(sm) == sm.verifyCoreStart && HasHole(sm)
    ensures RodataState(sm, img, hmac, counts, fed0, before0, sm.verifyCoreEnd, true, hmac.fed, Totals(counts))
  {
    SpanStart(sm, RodataView(sm, img), AfterAt(sm), hmac, counts);
  }

  /** What the loop over the read-only data has fed and counted when it ends. */
  ghost predicate RodataDone(sm: SegMap, img: Image, hmac: Hmac, counts: RelocCounts?, fed0: seq<byte>, before0: map<SegmentTag, int>)
    requires Setup(sm, img) && HolePlaced(sm) && sm.fipsRodataStart <= sm.fipsRodataEnd
    reads hmac, counts
  {
    && hmac.fed == fed0 + RodataStream(sm, img)
    && (counts != null ==> forall d: SegmentTag :: IsCounter(d) ==>
          d in before0 && counts.Of(d) == before0[d] + Count(sm.rodataTab, RodataLo(sm), CutAt(sm), d)
                                                     + Count(sm.rodataTab, AfterAt(sm), RodataHi(sm), d))
    && RodataClean(sm)
  }

  ghost function RodataStream(sm: SegMap, img: Image): seq<byte>
    requires Setup(sm, img) && HolePlaced(sm) && sm.fipsRodataStart <= sm.fipsRodataEnd
  {
    Norm(sm, RodataView(sm, img), RodataLo(sm), CutAt(sm)) + Norm(sm, RodataView(sm, img), AfterAt(sm), RodataHi(sm))
  }

  lemma {:induction false} RodataExit(sm: SegMap, img: Image, hmac: Hmac, counts: RelocCounts?, fed0: seq<byte>, before0: map<SegmentTag, int>,
                   p: nat, skipped: bool, prefix: seq<byte>, before: map<SegmentTag, int>)
    requires Setup(sm, img) && HolePlaced(sm) && sm.fipsRodataStart <= sm.fipsRodataEnd
    requires RodataState(sm, img, hmac, counts, fed0, before0, p, skipped, prefix, before)
    requires p >= sm.fipsRodataEnd
    ensures RodataDone(sm, img, hmac, counts, fed0, before0)
  {
    var v := RodataView(sm, img);
    if skipped {
      assert fed0 + RodataStream(sm, img) == prefix + Norm(sm, v, AfterAt(sm), RodataHi(sm));
    } else {
      CountEmpty(v.tab, RodataHi(sm));
      assert RodataStream(sm, img) == Norm(sm, v, RodataLo(sm), CutAt(sm));
    }
  }

  /** A turn of the rodata loop that feeds a chunk. */
  method RodataTurn(sm: SegMap, img: Image, buf: array<byte>, hmac: Hmac, counts: RelocCounts?, p: nat, n: nat, cur: int,
                    ghost fed0: seq<byte>, ghost before0: map<SegmentTag, int>,
                    ghost skipped: bool, ghost prefix: seq<byte>, ghost before: map<SegmentTag, int>)
    returns (ret: int, progress: nat, index: int)
    requires Setup(sm, img) && HolePlaced(sm) && sm.fipsRodataStart <= sm.fipsRodataEnd && buf.Length >= 8
    requires RodataFrame(sm, img, fed0, before0, counts != null, p, skipped, prefix, before)
    requires SpanSoFar(sm, RodataView(sm, img), Base(sm, skipped), p - sm.rodataStart, prefix, before, hmac, counts)
    requires cur == -1 || Resumes(sm.rodataTab, p - sm.rodataStart, cur)
    requires 0 < n <= buf.Length && p + n <= SpanEnd(sm, skipped)
    requires n == buf.Length || p + n == SpanEnd(sm, skipped)
    modifies buf, hmac, counts
    ensures ret == 0 ==> 0 < progress <= n
    ensures ret == 0 ==> RodataFrame(sm, img, fed0, before0, counts != null, p + progress, skipped, prefix, before)
    ensures ret == 0 ==> SpanSoFar(sm, RodataView(sm, img), Base(sm, skipped), p + progress - sm.rodataStart, prefix, before, hmac, counts)
    ensures ret == 0 ==> Resumes(sm.rodataTab, p + progress - sm.rodataStart, index)
    ensures ret != 0 && Reliable(hmac.code) ==> ret == IN_CORE_FIPS_E && !RodataClean(sm)
  {
    ghost var v := RodataView(sm, img);
    ret, progress, index := HashNext(sm, img, v, p, n, buf, cur, hmac, counts, Base(sm, skipped), prefix, before);
    if ret != 0 && Reliable(hmac.code) {
      OverrunsEnd(v.tab, Base(sm, skipped), p - sm.rodataStart, n, SpanEnd(sm, skipped) - sm.rodataStart, buf.Length);
    }
  }

  /** The length of the next chunk: cut at `verifyCore`, zero when standing on it. */
  function NextLen(sm: SegMap, p: nat, bufsz: nat): (n: int)
    requires HolePlaced(sm) && p < sm.fipsRodataEnd && bufsz >= 8
    ensures sm.verifyCoreEnd <= p || p < sm.verifyCoreStart ==> 0 < n <= bufsz
    ensures HasHole(sm) && p < sm.verifyCoreStart ==> p + n <= Cut(sm) && (n == bufsz || p + n == Cut(sm))
    ensures sm.verifyCoreEnd <= p ==> p + n <= sm.fipsRodataEnd && (n == bufsz || p + n == sm.fipsRodataEnd)
    ensures p == sm.verifyCoreStart < sm.verifyCoreEnd <==> n == 0
  {
    var n := if bufsz < sm.fipsRodataEnd - p then bufsz else sm.fipsRodataEnd - p;
    if p < sm.verifyCoreEnd && p + n >= sm.verifyCoreStart then sm.verifyCoreStart - p else n
  }

  /** One turn of the loop: a jump over `verifyCore`, or a chunk. */
  method RodataStep(sm: SegMap, img: Image, buf: array<byte>, hmac: Hmac, counts: RelocCounts?, p: nat, cur: int,
                    ghost fed0: seq<byte>, ghost before0: map<SegmentTag, int>,
                    ghost skipped: bool, ghost prefix: seq<byte>, ghost before: map<SegmentTag, int>)
    returns (ret: int, p': nat, cur': int, ghost skipped': bool, ghost prefix': seq<byte>, ghost before': map<SegmentTag, int>)
    requires Setup(sm, img) && HolePlaced(sm) && sm.fipsRodataStart <= sm.fipsRodataEnd
    requires buf.Length >= 8 && p < sm.fipsRodataEnd
    requires RodataState(sm, img, hmac, counts, fed0, before0, p, skipped, prefix, before)
    requires cur == -1 || Resumes(sm.rodataTab, p - sm.rodataStart, cur)
    modifies buf, hmac, counts
    ensures ret == 0 ==> p < p'
    ensures ret == 0 ==> RodataState(sm, img, hmac, counts, fed0, before0, p', skipped', prefix', before')
    ensures ret == 0 ==> cur' == -1 || Resumes(sm.rodataTab, p' - sm.rodataStart, cur')
    ensures ret != 0 && Reliable(hmac.code) ==> ret == IN_CORE_FIPS_E && !RodataClean(sm)
  {
    skipped', prefix', before' := skipped, prefix, before;
    if !skipped && HasHole(sm) && p == sm.verifyCoreStart {
      EnterSecondSpan(sm, img, hmac, counts, fed0, before0, p, prefix, before);
      skipped', prefix', before' := true, hmac.fed, Totals(counts);
    }
    var n := NextLen(sm, p, buf.Length);
    if n == 0 {
      return 0, sm.verifyCoreEnd, -1, skipped', prefix', before';
    }
    var progress;
    ret, progress, cur' := RodataTurn(sm, img, buf, hmac, counts, p, n, cur, fed0, before0, skipped', prefix', before');
    p' := p + progress;
  }

  /** The loop over the read-only data. */
  method HashRodata(sm: SegMap, img: Image, buf: array<byte>, hmac: Hmac, counts: RelocCounts?) returns (ret: int)
    requires Setup(sm, img) && HolePlaced(sm) && sm.fipsRodataStart <= sm.fipsRodataEnd && buf.Length >= 8
    modifies buf, hmac, counts
    ensures ret == 0 ==> RodataDone(sm, img, hmac, counts, old(hmac.fed), old(Totals(counts)))
    ensures ret != 0 && Reliable(hmac.code) ==> ret == IN_CORE_FIPS_E && !RodataClean(sm)
  {
    ghost var fed0, before0 := hmac.fed, Totals(counts);
    ghost var skipped, prefix, before := false, fed0, before0;
    var p := sm.fipsRodataStart;
    var cur := -1;
    ret := 0;
    SpanStart(sm, RodataView(sm, img), RodataLo(sm), hmac, counts);
    while p < sm.fipsRodataEnd
      invariant ret == 0
      invariant RodataState(sm, img, hmac, counts, fed0, before0, p, skipped, prefix, before)
      invariant cur == -1 || Resumes(sm.rodataTab, p - sm.rodataStart, cur)
      decreases sm.fipsRodataEnd - p
    {
      ret, p, cur, skipped, prefix, before := RodataStep(sm, img, buf, hmac, counts, p, cur, fed0, before0, skipped, prefix, before);
      if ret != 0 {
        return;
      }
    }
    RodataExit(sm, img, hmac, counts, fed0, before0, p, skipped, prefix, before);
  }

  /** The hashed ranges are not empty; the source rejects anything else. */
  predicate RangesValid(sm: SegMap) {
    sm.fipsTextStart < sm.fipsTextEnd && sm.fipsRodataStart < sm.fipsRodataEnd
  }

  /** The whole stream: normalized text, then normalized read-only data without `verifyCore`. */
  ghost function HashStream(sm: SegMap, img: Image): seq<byte>
    requires Setup(sm, img) && HolePlaced(sm) && RangesValid(sm)
  {
    Norm(sm, TextView(sm, img), TextLo(sm), TextHi(sm)) + RodataStream(sm, img)
  }

  /** No relocated field crosses the end of any hashed span. */
  ghost predicate SpansClean(sm: SegMap)
    requires HolePlaced(sm) && RangesValid(sm) && sm.textStart <= sm.fipsTextStart && sm.rodataStart <= sm.fipsRodataStart
  {
    CleanCut(sm.textTab, TextLo(sm), TextHi(sm)) && RodataClean(sm)
  }

  /** How often `d` is the destination of a field that starts in a hashed span. */
  function CountHashed(sm: SegMap, d: SegmentTag): nat
    requires HolePlaced(sm) && RangesValid(sm) && sm.textStart <= sm.fipsTextStart && sm.rodataStart <= sm.fipsRodataStart
  {
    Count(sm.textTab, TextLo(sm), TextHi(sm), d)
    + Count(sm.rodataTab, RodataLo(sm), CutAt(sm), d) + Count(sm.rodataTab, AfterAt(sm), RodataHi(sm), d)
  }

  // ---- Each live entry counted once ----

  /** The live entries among the first `n` whose field starts in [lo, hi). */
  function LiveIn(tab: seq<Entry>, lo: nat, hi: nat, n: nat): nat
    requires n <= |tab|
  {
    if n == 0 then 0 else LiveIn(tab, lo, hi, n - 1) + if Active(tab[n - 1]) && lo <= tab[n - 1].offset < hi then 1 else 0
  }

  /** The five counters together count every live entry exactly once. */
  lemma {:induction false} CountersAddUp(tab: seq<Entry>, lo: nat, hi: nat, n: nat)
    requires n <= |tab|
    ensures CountIn(tab, lo, hi, n, SEG_TEXT) + CountIn(tab, lo, hi, n, SEG_RODATA) + CountIn(tab, lo, hi, n, SEG_RWDATA)
          + CountIn(tab, lo, hi, n, SEG_BSS) + CountIn(tab, lo, hi, n, SEG_OTHER) == LiveIn(tab, lo, hi, n)
  {
    if n > 0 { CountersAddUp(tab, lo, hi, n - 1); }
  }

  /** The live entries whose field starts in one of the three hashed spans. */
  function LiveHashed(sm: SegMap): nat
    requires HolePlaced(sm) && RangesValid(sm) && sm.textStart <= sm.fipsTextStart && sm.rodataStart <= sm.fipsRodataStart
  {
    LiveIn(sm.textTab, TextLo(sm), TextHi(sm), |sm.textTab|)
    + LiveIn(sm.rodataTab, RodataLo(sm), CutAt(sm), |sm.rodataTab|) + LiveIn(sm.rodataTab, AfterAt(sm), RodataHi(sm), |sm.rodataTab|)
  }

  /** Over the whole hash, the five gains together count every live entry exactly once. */
  lemma {:induction false} HashedOnce(sm: SegMap)
    requires HolePlaced(sm) && RangesValid(sm) && sm.textStart <= sm.fipsTextStart && sm.rodataStart <= sm.fipsRodataStart
    ensures CountHashed(sm, SEG_TEXT) + CountHashed(sm, SEG_RODATA) + CountHashed(sm, SEG_RWDATA)
          + CountHashed(sm, SEG_BSS) + CountHashed(sm, SEG_OTHER) == LiveHashed(sm)
  {
    CountersAddUp(sm.textTab, TextLo(sm), TextHi(sm), |sm.textTab|);
    CountersAddUp(sm.rodataTab, RodataLo(sm), CutAt(sm), |sm.rodataTab|);
    CountersAddUp(sm.rodataTab, AfterAt(sm), RodataHi(sm), |sm.rodataTab|);
  }

  // ---- The whole hash ----

  /** `wc_fips_generate_hash` from the point where the HMAC key is set, for a buffer of any size from 8 up. */
  method GenerateHash(sm: SegMap, img: Image, buf: array<byte>, hmac: Hmac, counts: RelocCounts?) returns (ret: int)
    requires Setup(sm, img) && HolePlaced(sm) && buf.Length >= 8
    modifies buf, hmac, counts
    ensures sm.fipsTextStart >= sm.fipsTextEnd || sm.fipsRodataStart >= sm.fipsRodataEnd ==>
              ret == BAD_FUNC_ARG && hmac.fed == old(hmac.fed) && (counts != null ==> unchanged(counts))
    ensures RangesValid(sm) <==> sm.fipsTextStart < sm.fipsTextEnd && sm.fipsRodataStart < sm.fipsRodataEnd
    ensures RangesValid(sm) && ret == 0 ==> hmac.fed == old(hmac.fed) + HashStream(sm, img)
    ensures RangesValid(sm) && ret == 0 && counts != null ==>
              forall d: SegmentTag :: IsCounter(d) ==> counts.Of(d) == old(counts.Of(d)) + CountHashed(sm, d)
    ensures RangesValid(sm) && ret == 0 && counts != null ==> counts.Sum() == old(counts.Sum()) + LiveHashed(sm)
    ensures RangesValid(sm) && Reliable(hmac.code) ==> (ret == 0 <==> SpansClean(sm))
    ensures RangesValid(sm) && Reliable(hmac.code) && ret != 0 ==> ret == IN_CORE_FIPS_E
  {
    if !RangesValid(sm) {
      return BAD_FUNC_ARG;
    }
    ghost var before := Totals(counts);
    ret := HashText(sm, img, buf, hmac, counts);
    if ret != 0 {
      return;
    }
    ret := HashRodata(sm, img, buf, hmac, counts);
    HashedOnce(sm);
    assert ret == 0 && counts != null ==> forall d: SegmentTag :: IsCounter(d) ==> counts.Of(d) == before[d] + CountHashed(sm, d);
    assert ret == 0 && counts != null ==>
      && counts.Of(SEG_TEXT) == before[SEG_TEXT] + CountHashed(sm, SEG_TEXT)
      && counts.Of(SEG_RODATA) == before[SEG_RODATA] + CountHashed(sm, SEG_RODATA)
      && counts.Of(SEG_RWDATA) == before[SEG_RWDATA] + CountHashed(sm, SEG_RWDATA)
      && counts.Of(SEG_BSS) == before[SEG_BSS] + CountHashed(sm, SEG_BSS)
      && counts.Of(SEG_OTHER) == before[SEG_OTHER] + CountHashed(sm, SEG_OTHER);
  }

  // ---- The digest does not depend on where it is stored ----

  /** Two images that differ inside `verifyCore` only give the same stream. */
  lemma {:induction false} HoleIrrelevant(sm: SegMap, img: Image, img': Image)
    requires Setup(sm, img) && Setup(sm, img') && HolePlaced(sm) && RangesValid(sm)
    requires img'.text == img.text
    requires forall q :: 0 <= q < |img.rodata| && !(sm.verifyCoreStart <= sm.rodataStart + q < sm.verifyCoreEnd) ==> img'.rodata[q] == img.rodata[q]
    ensures HashStream(sm, img') == HashStream(sm, img)
  {
    var v, v' := RodataView(sm, img), RodataView(sm, img');
    var f := Normalizer(sm, sm.rodataStart);
    assert img.rodata[RodataLo(sm)..CutAt(sm)] == img'.rodata[RodataLo(sm)..CutAt(sm)];
    PatchedLocal(f, sm.rodataTab, img.rodata, img'.rodata, RodataLo(sm), CutAt(sm));
    assert img.rodata[AfterAt(sm)..RodataHi(sm)] == img'.rodata[AfterAt(sm)..RodataHi(sm)];
    PatchedLocal(f, sm.rodataTab, img.rodata, img'.rodata, AfterAt(sm), RodataHi(sm));
  }

  /** The stored text is what hashing the image gives: the check made at load time and on a rerun. */
  ghost predicate Matches(sm: SegMap, img: Image, digestText: seq<byte> -> seq<byte>)
    requires Setup(sm, img) && HolePlaced(sm) && RangesValid(sm)
    requires sm.rodataStart <= sm.verifyCoreStart && sm.verifyCoreEnd <= sm.rodataEnd
  {
    img.rodata[sm.verifyCoreStart - sm.rodataStart..sm.verifyCoreEnd - sm.rodataStart] == digestText(HashStream(sm, img))
  }

  /** Writing the digest text over `verifyCore` makes the next run report a match, whatever was stored before. */
  lemma {:induction false} WriteBackMatches(sm: SegMap, img: Image, digestText: seq<byte> -> seq<byte>)
    requires Setup(sm, img) && HolePlaced(sm) && RangesValid(sm)
    requires sm.rodataStart <= sm.verifyCoreStart && sm.verifyCoreEnd <= sm.rodataEnd
    requires |digestText(HashStream(sm, img))| == sm.verifyCoreEnd - sm.verifyCoreStart
    ensures var img' := img.(rodata := Splice(img.rodata, sm.verifyCoreStart - sm.rodataStart, digestText(HashStream(sm, img))));
            Setup(sm, img') && Matches(sm, img', digestText)
  {
    var text := digestText(HashStream(sm, img));
    var at := sm.verifyCoreStart - sm.rodataStart;
    var img' := img.(rodata := Splice(img.rodata, at, text));
    HoleIrrelevant(sm, img, img');
    assert img'.rodata[at..at + |text|] == text;
  }
}
