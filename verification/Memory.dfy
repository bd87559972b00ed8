/** `my_memcpy`, `my_memset` and `my_memmove` on one byte-addressed memory, by words when
    both addresses and the length allow it and by bytes otherwise. */
module Memory {
  import opened Bytes

  /** A number of whole units. */
  predicate Units(n: nat, unit: nat)
    requires unit > 0
  {
    n == 0 || (n >= unit && Units(n - unit, unit))
  }

  lemma {:induction false} UnitsMod(n: nat, unit: nat)
    requires unit == 4 || unit == 8
    ensures n % unit == 0 ==> Units(n, unit)
  {
    if n >= unit {
      assert n % unit == 0 ==> (n - unit) % unit == 0;
      UnitsMod(n - unit, unit);
    }
  }

  lemma {:induction false} UnitsOne(n: nat)
    ensures Units(n, 1)
  {
    if n > 0 { UnitsOne(n - 1); }
  }

  /** The addresses and the length are multiples of the word size. */
  predicate WordAligned(dest: nat, src: nat, n: nat, word: nat)
    requires word > 0
  {
    dest % word == 0 && src % word == 0 && n % word == 0
  }

  /** Offset `i` folded back by `d` until it is below `d`. */
  function Folded(i: nat, d: nat): (k: nat)
    ensures k <= i
    ensures 0 < d ==> k < d
    ensures i < d ==> k == i
  {
    if d == 0 || i < d then i else Folded(i - d, d)
  }

  /** The old position of the byte that a copy leaves at `p`. An ascending copy onto its own
      source overwrites source bytes before it reads them, and so repeats the first ones. */
  function Origin(dest: nat, src: nat, ascending: bool, p: nat): (q: nat)
    requires dest <= p
    ensures q <= src + (p - dest)
  {
    if ascending && src < dest then src + Folded(p - dest, dest - src) else src + (p - dest)
  }

  /** The positions from `lo` to `hi` of `now` hold the bytes of their origins; the rest is as before. */
  ghost predicate Moved(before: seq<byte>, now: seq<byte>, dest: nat, src: nat, ascending: bool, lo: nat, hi: nat)
    requires dest <= lo && hi <= |before| && src + hi <= |before| + dest
  {
    && |now| == |before|
    && forall p :: 0 <= p < |now| ==> now[p] == before[if lo <= p < hi then Origin(dest, src, ascending, p) else p]
  }

  /** One load and one store of `unit` bytes. */
  method MoveUnit(mem: array<byte>, dest: nat, src: nat, unit: nat, ghost now: seq<byte>) returns (ghost next: seq<byte>)
    requires dest + unit <= mem.Length && src + unit <= mem.Length && now == mem[..]
    modifies mem
    ensures next == mem[..]
    ensures next == Splice(now, dest, now[src..src + unit])
  {
    var loaded := mem[..][src..src + unit];
    forall i | 0 <= i < unit {
      mem[dest + i] := loaded[i];
    }
    next := mem[..];
  }

  lemma {:induction false} UpStep(before: seq<byte>, now: seq<byte>, dest: nat, src: nat, done: nat, to: nat, from: nat, unit: nat, next: seq<byte>)
    requires to == dest + done && from == src + done && to + unit <= |before| && from + unit <= |before|
    requires dest <= src || unit <= dest - src
    requires Moved(before, now, dest, src, true, dest, dest + done)
    requires next == Splice(now, to, now[from..from + unit])
    ensures Moved(before, next, dest, src, true, dest, dest + done + unit)
  {
    forall p | 0 <= p < |next| ensures next[p] == before[if dest <= p < dest + done + unit then Origin(dest, src, true, p) else p] {
      if dest + done <= p < dest + done + unit {
        assert next[p] == now[src + (p - dest)];
      } else {
        assert next[p] == now[p];
      }
    }
  }

  /** Ascending copy. */
  method CopyUp(mem: array<byte>, dest: nat, src: nat, n: nat, unit: nat)
    requires unit > 0 && Units(n, unit) && dest + n <= mem.Length && src + n <= mem.Length
    requires dest <= src || unit <= dest - src
    modifies mem
    ensures Moved(old(mem[..]), mem[..], dest, src, true, dest, dest + n)
  {
    ghost var before := mem[..];
    ghost var now := before;
    var done: nat, left: nat := 0, n;
    while left > 0
      invariant done + left == n && Units(left, unit)
      invariant now == mem[..] && Moved(before, now, dest, src, true, dest, dest + done)
    {
      var to: nat, from: nat := dest + done, src + done;
      ghost var next := MoveUnit(mem, to, from, unit, now);
      UpStep(before, now, dest, src, done, to, from, unit, next);
      now, done, left := next, done + unit, left - unit;
    }
  }

  lemma {:induction false} DownStep(before: seq<byte>, now: seq<byte>, dest: nat, src: nat, n: nat, left: nat, to: nat, from: nat, unit: nat, next: seq<byte>)
    requires to == dest + left && from == src + left
    requires src <= dest && dest + n <= |before| && left + unit <= n
    requires Moved(before, now, dest, src, false, dest + left + unit, dest + n)
    requires next == Splice(now, to, now[from..from + unit])
    ensures Moved(before, next, dest, src, false, dest + left, dest + n)
  {
    forall p | 0 <= p < |next| ensures next[p] == before[if dest + left <= p < dest + n then Origin(dest, src, false, p) else p] {
      if dest + left <= p < dest + left + unit {
        assert next[p] == now[src + (p - dest)];
      } else {
        assert next[p] == now[p];
      }
    }
  }

  /** Descending copy, for a destination at or above the source. */
  method CopyDown(mem: array<byte>, dest: nat, src: nat, n: nat, unit: nat)
    requires unit > 0 && Units(n, unit) && src <= dest && dest + n <= mem.Length
    modifies mem
    ensures Moved(old(mem[..]), mem[..], dest, src, false, dest, dest + n)
  {
    ghost var before := mem[..];
    ghost var now := before;
    var left: nat := n;
    while left > 0
      invariant left <= n && Units(left, unit)
      invariant now == mem[..] && Moved(before, now, dest, src, false, dest + left, dest + n)
    {
      left := left - unit;
      var to: nat, from: nat := dest + left, src + left;
      ghost var next := MoveUnit(mem, to, from, unit, now);
      DownStep(before, now, dest, src, n, left, to, from, unit, next);
      now := next;
    }
  }

  /** Every byte of the source range equals the byte that the copy takes in its place. */
  ghost predicate Faithful(before: seq<byte>, dest: nat, src: nat, n: nat, ascending: bool)
    requires dest + n <= |before| && src + n <= |before|
  {
    forall p :: dest <= p < dest + n ==> before[Origin(dest, src, ascending, p)] == before[src + (p - dest)]
  }

  lemma {:induction false} MovedIsSplice(before: seq<byte>, now: seq<byte>, dest: nat, src: nat, n: nat, ascending: bool)
    requires dest + n <= |before| && src + n <= |before|
    requires Moved(before, now, dest, src, ascending, dest, dest + n)
    ensures now == Splice(before, dest, before[src..src + n]) <==> Faithful(before, dest, src, n, ascending)
  {
    var whole := Splice(before, dest, before[src..src + n]);
    assert forall p :: dest <= p < dest + n ==> whole[p] == before[src + (p - dest)];
    if Faithful(before, dest, src, n, ascending) {
      assert forall p :: 0 <= p < |now| ==> now[p] == whole[p];
    } else {
      var p :| dest <= p < dest + n && before[Origin(dest, src, ascending, p)] != before[src + (p - dest)];
      assert now[p] != whole[p];
    }
  }

  lemma {:induction false} StraightIsSplice(before: seq<byte>, now: seq<byte>, dest: nat, src: nat, n: nat, ascending: bool)
    requires dest + n <= |before| && src + n <= |before|
    requires ascending ==> dest <= src
    requires Moved(before, now, dest, src, ascending, dest, dest + n)
    ensures now == Splice(before, dest, before[src..src + n])
  {
    assert Faithful(before, dest, src, n, ascending);
    MovedIsSplice(before, now, dest, src, n, ascending);
  }

  /** Two aligned addresses are at least a word apart. */
  lemma {:induction false} AlignedApart(a: nat, b: nat, word: nat)
    requires word == 4 || word == 8
    requires a < b && a % word == 0 && b % word == 0
    ensures b - a >= word
  {
  }

  /** For every overlap, the destination receives the old source bytes and nothing else changes. */
  method Memmove(mem: array<byte>, dest: nat, src: nat, n: nat, word: nat)
    requires word == 4 || word == 8
    requires dest + n <= mem.Length && src + n <= mem.Length
    modifies mem
    ensures mem[..] == Splice(old(mem[..]), dest, old(mem[..])[src..src + n])
  {
    ghost var before := mem[..];
    var unit := if WordAligned(dest, src, n, word) then word else 1;
    UnitsMod(n, word);
    UnitsOne(n);
    if n != 0 {
      if src < dest {
        CopyDown(mem, dest, src, n, unit);
      } else if src > dest {
        CopyUp(mem, dest, src, n, unit);
      }
    }
    ghost var now := mem[..];
    assert Moved(before, now, dest, src, dest < src, dest, dest + n);
    StraightIsSplice(before, now, dest, src, n, dest < src);
  }

  /** The source repeats its first bytes at the distance of the overlap, if there is one. */
  ghost predicate Repeats(source: seq<byte>, distance: int)
  {
    0 < distance ==> forall i :: 0 <= i && i + distance < |source| ==> source[i + distance] == source[i]
  }

  lemma {:induction false} RepeatsFolded(source: seq<byte>, distance: nat, i: nat)
    requires 0 < distance && i < |source| && Repeats(source, distance)
    ensures source[Folded(i, distance)] == source[i]
  {
    if distance <= i {
      RepeatsFolded(source, distance, i - distance);
      assert source[(i - distance) + distance] == source[i - distance];
    }
  }

  lemma {:induction false} FaithfulIff(before: seq<byte>, dest: nat, src: nat, n: nat)
    requires dest + n <= |before| && src + n <= |before|
    ensures Faithful(before, dest, src, n, true) <==> Repeats(before[src..src + n], dest - src)
  {
    var source, d := before[src..src + n], dest - src;
    if d > 0 {
      if Repeats(source, d) {
        forall p | dest <= p < dest + n ensures before[Origin(dest, src, true, p)] == before[src + (p - dest)] {
          RepeatsFolded(source, d, p - dest);
        }
      }
      if Faithful(before, dest, src, n, true) {
        forall i | 0 <= i && i + d < |source| ensures source[i + d] == source[i] {
          var p, q := dest + i, dest + i + d;
          assert Origin(dest, src, true, p) == Origin(dest, src, true, q);
          assert before[Origin(dest, src, true, p)] == before[src + i];
          assert before[Origin(dest, src, true, q)] == before[src + i + d];
        }
      }
    }
  }

  /** Agrees with `Memmove` exactly when the source repeats at the distance of the overlap, so
      always on disjoint ranges. In any case only the destination changes, and the word path
      leaves what the byte path leaves. */
  method Memcpy(mem: array<byte>, dest: nat, src: nat, n: nat, word: nat)
    requires word == 4 || word == 8
    requires dest + n <= mem.Length && src + n <= mem.Length
    modifies mem
    ensures Moved(old(mem[..]), mem[..], dest, src, true, dest, dest + n)
    ensures mem[..] == Splice(old(mem[..]), dest, old(mem[..])[src..src + n])
       <==> Repeats(old(mem[..])[src..src + n], dest - src)
  {
    ghost var before := mem[..];
    var unit := if WordAligned(dest, src, n, word) then word else 1;
    UnitsMod(n, word);
    UnitsOne(n);
    if src < dest && unit == word { AlignedApart(src, dest, word); }
    CopyUp(mem, dest, src, n, unit);
    MovedIsSplice(before, mem[..], dest, src, n, true);
    FaithfulIff(before, dest, src, n);
  }

  /** Two bytes copied one byte up: the copy repeats the first, the move does not. */
  method OverlapDiffers(word: nat) returns (copied: seq<byte>, moved: seq<byte>)
    requires word == 4 || word == 8
    ensures copied == [1, 1, 1] && moved == [1, 1, 2]
  {
    var before: seq<byte> := [1, 2, 2];
    var a := new byte[3](i requires 0 <= i < 3 => before[i]);
    var b := new byte[3](i requires 0 <= i < 3 => before[i]);
    assert a[..] == before && b[..] == before;
    Memcpy(a, 1, 0, 2, word);
    Memmove(b, 1, 0, 2, word);
    copied, moved := a[..], b[..];
    assert copied[0] == before[0];
    assert copied[1] == before[Origin(1, 0, true, 1)];
    assert copied[2] == before[Origin(1, 0, true, 2)];
  }

  /** `k` bytes of 0x01. */
  function Ones(k: nat): nat {
    if k == 0 then 0 else 1 + 256 * Ones(k - 1)
  }

  lemma {:induction false} OnesStep(c: byte, ones: nat, v: nat)
    requires v == c * (1 + 256 * ones)
    ensures v % 256 == c && v / 256 == c * ones
  {
    assert v == c + 256 * (c * ones);
  }

  /** Each byte of the repeated word is `c`, and dropping it leaves a shorter repeated word. */
  lemma {:induction false} RepeatSteps(c: byte, k: nat, v: nat)
    requires v == c * Ones(k)
    ensures ToLE(v, k) == seq(k, _ => c)
  {
    if k > 0 {
      OnesStep(c, Ones(k - 1), v);
      RepeatSteps(c, k - 1, v / 256);
    }
  }

  /** The word stored by the word path: the byte times 0x01...01. */
  function Repeated(c: byte, word: nat): nat {
    if word == 8 then c * 0x0101_0101_0101_0101 else c * 0x0101_0101
  }

  lemma {:induction false} OnesValues()
    ensures Ones(4) == 0x0101_0101 && Ones(8) == 0x0101_0101_0101_0101
  {
    assert Ones(2) == 0x0101;
    assert Ones(4) == 0x0101_0101;
    assert Ones(6) == 0x0101_0101_0101;
  }

  lemma {:induction false} RepeatedBytes(c: byte, word: nat)
    requires word == 4 || word == 8
    ensures ToLE(Repeated(c, word), word) == seq(word, _ => c)
  {
    OnesValues();
    RepeatSteps(c, word, Repeated(c, word));
  }

  /** Every byte of the range becomes `c`, and nothing else changes. */
  method Memset(mem: array<byte>, dest: nat, c: byte, n: nat, word: nat)
    requires word == 4 || word == 8
    requires dest + n <= mem.Length
    modifies mem
    ensures mem[..] == Splice(old(mem[..]), dest, seq(n, _ => c))
  {
    ghost var before := mem[..];
    var unit, fill := 1, [c];
    UnitsMod(n, word);
    UnitsOne(n);
    if WordAligned(dest, 0, n, word) {
      RepeatedBytes(c, word);
      unit, fill := word, ToLE(Repeated(c, word), word);
    }
    var done: nat, left: nat := 0, n;
    while left > 0
      invariant done + left == n && Units(left, unit)
      invariant forall p :: 0 <= p < mem.Length ==> mem[p] == if dest <= p < dest + done then c else before[p]
    {
      forall i | 0 <= i < unit {
        mem[dest + done + i] := fill[i];
      }
      done, left := done + unit, left - unit;
    }
  }
}
