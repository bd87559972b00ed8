/** Scatterlists over one memory: which addresses they cover, reading and writing through them. */
module Scatter {
  import opened Bytes

  /** One entry of a scatterlist. */
  datatype Seg = Seg(at: nat, len: nat)

  /** The addresses of a list, in order. */
  function Addresses(list: seq<Seg>): (r: seq<nat>) {
    if list == [] then []
    else seq(list[0].len, i requires 0 <= i < list[0].len => list[0].at + i) + Addresses(list[1..])
  }

  function HeadLen(list: seq<Seg>): nat {
    if list == [] then 0 else list[0].len
  }

  function HeadAt(list: seq<Seg>): nat {
    if list == [] then 0 else list[0].at
  }

  /** The first entry is contiguous. */
  lemma {:induction false} HeadAddresses(list: seq<Seg>)
    ensures HeadLen(list) <= |Addresses(list)|
    ensures forall i :: 0 <= i < HeadLen(list) ==> Addresses(list)[i] == HeadAt(list) + i
  {
  }

  /** One entry covers its bytes in order. */
  lemma {:induction false} OneEntry(seg: Seg)
    ensures Addresses([seg]) == seq(seg.len, i requires 0 <= i < seg.len => seg.at + i)
  {
    assert Addresses([seg][1..]) == [];
  }

  /** A longer list covers the bytes of its parts in order. */
  lemma {:induction false} AddressesAppend(a: seq<Seg>, b: seq<Seg>)
    ensures Addresses(a + b) == Addresses(a) + Addresses(b)
  {
    if a == [] {
      assert a + b == b;
    } else {
      assert (a + b)[0] == a[0] && (a + b)[1..] == a[1..] + b;
      AddressesAppend(a[1..], b);
    }
  }

  predicate InMemory(addrs: seq<nat>, size: nat) {
    forall i :: 0 <= i < |addrs| ==> addrs[i] < size
  }

  /** No address twice. */
  predicate Distinct(addrs: seq<nat>) {
    forall i, j :: 0 <= i < j < |addrs| ==> addrs[i] != addrs[j]
  }

  predicate Apart(xs: seq<nat>, ys: seq<nat>) {
    forall i :: 0 <= i < |xs| ==> xs[i] !in ys
  }

  /** The bytes of `mem` at positions `lo` to `hi` of the list. */
  function Gather(mem: seq<byte>, addrs: seq<nat>, lo: nat, hi: nat): (r: seq<byte>)
    requires lo <= hi <= |addrs| && InMemory(addrs, |mem|)
    ensures |r| == hi - lo
  {
    seq(hi - lo, i requires 0 <= i < hi - lo => mem[addrs[lo + i]])
  }

  /** `bytes` stand at position `lo` of the list; every other byte of memory is as before. */
  ghost predicate Written(before: seq<byte>, now: seq<byte>, addrs: seq<nat>, lo: nat, bytes: seq<byte>)
    requires InMemory(addrs, |before|) && lo + |bytes| <= |addrs|
  {
    && |now| == |before|
    && (forall i :: 0 <= i < |addrs| ==> now[addrs[i]] == if lo <= i < lo + |bytes| then bytes[i - lo] else before[addrs[i]])
    && (forall p :: 0 <= p < |now| && p !in addrs ==> now[p] == before[p])
  }

  /** Adjacent writes are one write. */
  lemma {:induction false} WrittenAppend(a: seq<byte>, b: seq<byte>, c: seq<byte>, addrs: seq<nat>, lo: nat, mid: nat, x: seq<byte>, y: seq<byte>, xy: seq<byte>)
    requires InMemory(addrs, |a|) && mid == lo + |x| && mid + |y| <= |addrs| && xy == x + y
    requires Written(a, b, addrs, lo, x) && Written(b, c, addrs, mid, y)
    ensures Written(a, c, addrs, lo, xy)
  {
  }

  /** Reading back what was written. */
  lemma {:induction false} GatherWritten(before: seq<byte>, now: seq<byte>, addrs: seq<nat>, lo: nat, bytes: seq<byte>)
    requires InMemory(addrs, |before|) && lo + |bytes| <= |addrs| && Written(before, now, addrs, lo, bytes)
    ensures Gather(now, addrs, lo, lo + |bytes|) == bytes
    ensures forall n :: 0 <= n <= lo ==> Gather(now, addrs, 0, n) == Gather(before, addrs, 0, n)
  {
  }

  lemma {:induction false} GatherSlice(mem: seq<byte>, addrs: seq<nat>, lo: nat, hi: nat, n: nat, s: seq<byte>)
    requires lo <= hi <= n <= |addrs| && InMemory(addrs, |mem|) && s == Gather(mem, addrs, 0, n)
    ensures s[lo..hi] == Gather(mem, addrs, lo, hi)
  {
    assert forall i :: 0 <= i < n ==> s[i] == mem[addrs[i]];
  }

  /** Reading back the second part of what was written at the front. */
  lemma {:induction false} GatherBehind(before: seq<byte>, now: seq<byte>, addrs: seq<nat>, front: seq<byte>, bytes: seq<byte>, hi: nat)
    requires InMemory(addrs, |before|) && hi == |front| + |bytes| <= |addrs| && Written(before, now, addrs, 0, front + bytes)
    ensures Gather(now, addrs, 0, |front|) == front
    ensures Gather(now, addrs, |front|, hi) == bytes
  {
    forall i | 0 <= i < hi ensures now[addrs[i]] == if i < |front| then front[i] else bytes[i - |front|] {
    }
  }

  /** `scatterwalk_map_and_copy` into the list. */
  method CopyTo(mem: array<byte>, addrs: seq<nat>, lo: nat, bytes: seq<byte>, ghost was: seq<byte>) returns (ghost now: seq<byte>)
    requires InMemory(addrs, mem.Length) && Distinct(addrs) && lo + |bytes| <= |addrs| && was == mem[..]
    modifies mem
    ensures now == mem[..] && Written(was, now, addrs, lo, bytes)
  {
    now := was;
    var k: nat := 0;
    while k < |bytes|
      invariant k <= |bytes| && now == mem[..]
      invariant Written(was, now, addrs, lo, bytes[..k])
    {
      ghost var next := now[addrs[lo + k] := bytes[k]];
      mem[addrs[lo + k]] := bytes[k];
      WrittenOne(now, addrs, lo + k, bytes[k], next);
      WrittenAppend(was, now, next, addrs, lo, lo + k, bytes[..k], [bytes[k]], bytes[..k + 1]);
      now, k := next, k + 1;
    }
    assert bytes[..k] == bytes;
  }

  lemma {:induction false} WrittenOne(now: seq<byte>, addrs: seq<nat>, at: nat, b: byte, next: seq<byte>)
    requires InMemory(addrs, |now|) && Distinct(addrs) && at < |addrs|
    requires next == now[addrs[at] := b]
    ensures Written(now, next, addrs, at, [b])
  {
  }

  /** A store into mapped memory, at the contiguous head of the list. */
  lemma {:induction false} WrittenHead(was: seq<byte>, list: seq<Seg>, addrs: seq<nat>, lo: nat, bytes: seq<byte>)
    requires addrs == Addresses(list) && InMemory(addrs, |was|) && Distinct(addrs)
    requires lo + |bytes| <= HeadLen(list) && HeadAt(list) + lo + |bytes| <= |was|
    requires lo + |bytes| <= |addrs|
    ensures Written(was, Splice(was, HeadAt(list) + lo, bytes), addrs, lo, bytes)
  {
    HeadAddresses(list);
    var at := HeadAt(list) + lo;
    var now := Splice(was, at, bytes);
    forall i | 0 <= i < |addrs| ensures now[addrs[i]] == if lo <= i < lo + |bytes| then bytes[i - lo] else was[addrs[i]] {
      assert at <= addrs[i] < at + |bytes| ==> addrs[lo + (addrs[i] - at)] == addrs[i];
    }
    forall q | HeadAt(list) <= q < HeadAt(list) + HeadLen(list) ensures q in addrs {
      assert addrs[q - HeadAt(list)] == q;
    }
  }

  /** Reading mapped memory at the head of the list. */
  lemma {:induction false} GatherHead(mem: seq<byte>, list: seq<Seg>, addrs: seq<nat>, lo: nat, hi: nat, from: nat, upto: nat)
    requires from == HeadAt(list) + lo && upto == HeadAt(list) + hi
    requires addrs == Addresses(list) && InMemory(addrs, |mem|)
    requires lo <= hi <= HeadLen(list) && hi <= |addrs| && HeadAt(list) + hi <= |mem|
    ensures Gather(mem, addrs, lo, hi) == mem[from..upto]
  {
    HeadAddresses(list);
  }
}
