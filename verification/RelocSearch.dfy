/** `find_reloc_tab_offset`: a halving search followed by a linear fix-up. */
module RelocSearch {
  import opened Common
  import opened RelocTable

  /** Reference definition: scan from the left for the first entry at or after `off`. */
  function LinearScan(tab: seq<Entry>, off: nat, i: nat): (r: nat)
    requires i <= |tab|
    ensures i <= r <= |tab|
    ensures forall j :: i <= j < r ==> tab[j].offset < off
    ensures r < |tab| ==> tab[r].offset >= off
    decreases |tab| - i
  {
    if i == |tab| || tab[i].offset >= off then i else LinearScan(tab, off, i + 1)
  }

  /** An index where a fix-up may stop: at or after `off`, with nothing at or after `off` just before it. */
  ghost predicate FirstLocally(tab: seq<Entry>, off: nat, i: int) {
    && 0 <= i < |tab|
    && tab[i].offset >= off
    && (i > 0 ==> tab[i - 1].offset < off)
  }

  /** On a sorted table the local test is exact. */
  lemma {:induction false} FirstLocallyIsLeast(tab: seq<Entry>, off: nat, i: int)
    requires FirstLocally(tab, off, i)
    ensures Sorted(tab) ==> i == LinearScan(tab, off, 0)
  {
    assert Pair(tab, LinearScan(tab, off, 0), i - 1);
  }

  /** The table index stays in bounds without any assumption on the order of the
      entries.  The hops still to come add up to less than 2 * hop, so the index can
      neither pass the last entry nor, once positive, come back to zero. */
  method FindRelocTabOffset(tab: seq<Entry>, off: nat) returns (ret: int)
    requires |tab| >= 1
    ensures off >= tab[|tab| - 1].offset ==> ret == BAD_FUNC_ARG
    ensures off < tab[|tab| - 1].offset ==> FirstLocally(tab, off, ret)
    ensures off < tab[|tab| - 1].offset && Sorted(tab) ==> ret == LinearScan(tab, off, 0)
  {
    if off >= tab[|tab| - 1].offset {
      return BAD_FUNC_ARG;
    }
    if |tab| <= 1 {
      FirstLocallyIsLeast(tab, off, 0);
      return 0;
    }
    ret := 0;
    var hop: nat := |tab| / 2;
    while hop != 0
      invariant 0 <= ret <= |tab| - 1
      invariant ret + 2 * hop <= |tab|
      invariant ret == 0 || 2 * hop <= ret
      decreases hop
    {
      if off == tab[ret].offset {
        break;
      } else if off > tab[ret].offset {
        ret := ret + hop;
      } else if ret != 0 {
        ret := ret - hop;
      }
      hop := hop / 2;
    }
    while ret < |tab| - 1 && tab[ret].offset < off
      invariant 0 <= ret <= |tab| - 1
    {
      ret := ret + 1;
    }
    while ret > 0 && tab[ret - 1].offset >= off
      invariant 0 <= ret <= |tab| - 1
      invariant tab[ret].offset >= off
    {
      ret := ret - 1;
    }
    FirstLocallyIsLeast(tab, off, ret);
  }
}
