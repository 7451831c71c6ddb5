/** Circular reads and writes over a window of a word memory.

    A ring occupies the `w` cells `lo .. lo + w` of a memory. Positions inside the ring are
    numbered from 0; every access wraps at most once, because no access is longer than the ring. */
module Ring {

  /** The ring position `k` cells after `start`. */
  function Slot(w: nat, start: nat, k: nat): (p: nat)
    requires start < w && k <= w
    ensures p < w
  {
    if start + k < w then start + k else start + k - w
  }

  /** How many cells after `start` the position `i` lies: the inverse of `Slot`. */
  function Distance(w: nat, start: nat, i: nat): (k: nat)
    requires start < w && i < w
    ensures k < w && Slot(w, start, k) == i
  {
    if start <= i then i - start else i + w - start
  }

  ghost function Read<T>(mem: seq<T>, lo: nat, w: nat, start: nat, n: nat): (r: seq<T>)
    requires lo + w <= |mem| && start < w && n <= w
    ensures |r| == n
  {
    seq(n, k requires 0 <= k < n => mem[lo + Slot(w, start, k)])
  }

  ghost function Write<T>(mem: seq<T>, lo: nat, w: nat, start: nat, data: seq<T>): (r: seq<T>)
    requires lo + w <= |mem| && start < w && |data| <= w
    ensures |r| == |mem|
    ensures forall i :: 0 <= i < |mem| && !(lo <= i < lo + w) ==> r[i] == mem[i]
  {
    seq(|mem|, i requires 0 <= i < |mem| =>
      if lo <= i < lo + w && Distance(w, start, i - lo) < |data|
      then data[Distance(w, start, i - lo)] else mem[i])
  }

  lemma SlotSlot(w: nat, start: nat, m: nat, k: nat)
    requires start < w && m + k <= w
    ensures Slot(w, Slot(w, start, m), k) == Slot(w, start, m + k)
  {}

  lemma ReadSplit<T>(mem: seq<T>, lo: nat, w: nat, start: nat, m: nat, n: nat)
    requires lo + w <= |mem| && start < w && m + n <= w
    ensures Read(mem, lo, w, start, m + n)
         == Read(mem, lo, w, start, m) + Read(mem, lo, w, Slot(w, start, m), n)
  {
    forall k | 0 <= k < n
      ensures Read(mem, lo, w, start, m + n)[m + k] == Read(mem, lo, w, Slot(w, start, m), n)[k]
    {
      SlotSlot(w, start, m, k);
    }
  }

  lemma ReadFirst<T>(mem: seq<T>, lo: nat, w: nat, start: nat, n: nat)
    requires lo + w <= |mem| && start < w && 0 < n <= w
    ensures Read(mem, lo, w, start, n) == [mem[lo + start]] + Read(mem, lo, w, Slot(w, start, 1), n - 1)
  {
    ReadSplit(mem, lo, w, start, 1, n - 1);
  }

  /** A circular read that starts after the cell `h` is one straight piece, or two. */
  lemma ReadPieces<T>(mem: seq<T>, w: nat, h: nat, n: nat)
    requires w <= |mem| && h < w && n < w
    ensures h + 1 + n <= w ==> Read(mem, 0, w, Slot(w, h, 1), n) == mem[h + 1..h + 1 + n]
    ensures h + 1 + n > w ==>
      Read(mem, 0, w, Slot(w, h, 1), n) == mem[h + 1..w] + mem[0..h + 1 + n - w]
  {}

  /** The memory with `data` laid over the cells from `at` on. */
  ghost function Splice<T>(mem: seq<T>, at: nat, data: seq<T>): (r: seq<T>)
    requires at + |data| <= |mem|
    ensures |r| == |mem|
  {
    seq(|mem|, i requires 0 <= i < |mem| => if at <= i < at + |data| then data[i - at] else mem[i])
  }

  lemma SpliceTwice<T>(mem: seq<T>, at: nat, x: seq<T>, y: seq<T>)
    requires at + |x| + |y| <= |mem|
    ensures Splice(Splice(mem, at, x), at + |x|, y) == Splice(mem, at, x + y)
  {}

  /** A circular write that does not reach the end of the ring is one straight piece. */
  lemma WriteStraight<T>(mem: seq<T>, lo: nat, w: nat, start: nat, data: seq<T>)
    requires lo + w <= |mem| && start + |data| < w
    ensures Write(mem, lo, w, start, data) == Splice(mem, lo + start, data)
  {
    var a, b := Write(mem, lo, w, start, data), Splice(mem, lo + start, data);
    forall i | 0 <= i < |mem| ensures a[i] == b[i] {
      if lo <= i < lo + w {
        assert Distance(w, start, i - lo) < |data| <==> lo + start <= i < lo + start + |data|;
      }
    }
  }

  /** A circular write that reaches it is a piece up to the end and a piece from the start. */
  lemma WriteWrapped<T>(mem: seq<T>, lo: nat, w: nat, start: nat, data: seq<T>)
    requires lo + w <= |mem| && start < w <= start + |data| && |data| <= w
    ensures Write(mem, lo, w, start, data)
         == Splice(Splice(mem, lo + start, data[..w - start]), lo, data[w - start..])
  {
    var k := w - start;
    var x, y := data[..k], data[k..];
    var mid := Splice(mem, lo + start, x);
    var a, b := Write(mem, lo, w, start, data), Splice(mid, lo, y);
    forall i | 0 <= i < |mem| ensures a[i] == b[i] {
      if lo + start <= i < lo + w {
        assert Distance(w, start, i - lo) == i - lo - start < k;
        assert b[i] == mid[i] == x[i - lo - start];
        assert a[i] == data[i - lo - start];
      } else if lo <= i < lo + |y| {
        assert Distance(w, start, i - lo) == k + (i - lo) < |data|;
        assert b[i] == y[i - lo];
        assert a[i] == data[k + (i - lo)];
      } else {
        assert b[i] == mid[i] == mem[i];
        assert lo <= i < lo + w ==> Distance(w, start, i - lo) == k + (i - lo) >= |data|;
        assert a[i] == mem[i];
      }
    }
  }

  /** What was written is read back. */
  lemma ReadBack<T>(mem: seq<T>, lo: nat, w: nat, start: nat, data: seq<T>)
    requires lo + w <= |mem| && start < w && |data| <= w
    ensures Read(Write(mem, lo, w, start, data), lo, w, start, |data|) == data
  {
    forall k | 0 <= k < |data|
      ensures Read(Write(mem, lo, w, start, data), lo, w, start, |data|)[k] == data[k]
    {
      assert Distance(w, start, Slot(w, start, k)) == k;
    }
  }

  /** A write that starts `m` cells on, and fits in what is left of the ring, leaves the first
      `m` cells alone. */
  lemma ReadBefore<T>(mem: seq<T>, lo: nat, w: nat, start: nat, m: nat, data: seq<T>)
    requires lo + w <= |mem| && start < w && m + |data| <= w
    ensures Read(Write(mem, lo, w, Slot(w, start, m), data), lo, w, start, m)
         == Read(mem, lo, w, start, m)
  {
    forall k | 0 <= k < m
      ensures Distance(w, Slot(w, start, m), Slot(w, start, k)) >= |data|
    {}
  }

  /** Appending `data` behind `m` cells in use extends the contents by exactly `data`. */
  lemma Append<T>(mem: seq<T>, lo: nat, w: nat, start: nat, m: nat, data: seq<T>)
    requires lo + w <= |mem| && start < w && m + |data| <= w
    ensures Read(Write(mem, lo, w, Slot(w, start, m), data), lo, w, start, m + |data|)
         == Read(mem, lo, w, start, m) + data
  {
    var mem' := Write(mem, lo, w, Slot(w, start, m), data);
    ReadSplit(mem', lo, w, start, m, |data|);
    ReadBefore(mem, lo, w, start, m, data);
    ReadBack(mem, lo, w, Slot(w, start, m), data);
  }

  /** The same when one more cell is taken up than is written. */
  lemma AppendGap<T>(mem: seq<T>, lo: nat, w: nat, start: nat, m: nat, data: seq<T>) returns (gap: T)
    requires lo + w <= |mem| && start < w && m + |data| + 1 <= w
    ensures Read(Write(mem, lo, w, Slot(w, start, m), data), lo, w, start, m + (|data| + 1))
         == Read(mem, lo, w, start, m) + (data + [gap])
  {
    var mem' := Write(mem, lo, w, Slot(w, start, m), data);
    ReadSplit(mem', lo, w, start, m + |data|, 1);
    Append(mem, lo, w, start, m, data);
    gap := Read(mem', lo, w, Slot(w, start, m + |data|), 1)[0];
  }
}
