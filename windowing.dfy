/** Fixed-size windows over a sequence, started every `step` positions from 0 while the
    start lies inside the sequence. Both chunkers of the system cut their input this way:
    one over the list of words, the other over the characters of a string. */
module Windowing {
  import PySeq

  /** The windows `s[start:start+size]`, `s[start+step:start+step+size]`, ... for every
      start below `|s|`. */
  function WindowsFrom<T>(s: seq<T>, size: int, step: int, start: nat): seq<seq<T>>
    requires step > 0
    decreases |s| - start
  {
    if start >= |s| then []
    else [PySeq.Slice(s, start, start + size)] + WindowsFrom(s, size, step, start + step)
  }

  function Windows<T>(s: seq<T>, size: int, step: int): seq<seq<T>>
    requires step > 0
  {
    WindowsFrom(s, size, step, 0)
  }

  lemma {:induction false} CountFrom<T>(s: seq<T>, size: int, step: int, start: nat)
    requires step > 0 && start <= |s|
    ensures var c := |WindowsFrom(s, size, step, start)|;
      (c == 0 <==> start == |s|) && (c - 1) * step < |s| - start <= c * step
    decreases |s| - start
  {
    if start < |s| {
      if start + step >= |s| {
        assert WindowsFrom(s, size, step, start + step) == [];
      } else {
        CountFrom(s, size, step, start + step);
        var c' := |WindowsFrom(s, size, step, start + step)|;
        MulPred(c' + 1, step);
      }
    }
  }

  /** There are ceil(|s| / step) windows: the least count c with c * step >= |s|. */
  lemma WindowCount<T>(s: seq<T>, size: int, step: int)
    requires step > 0
    ensures var c := |Windows(s, size, step)|;
      (c == 0 <==> |s| == 0) && (c - 1) * step < |s| <= c * step
  {
    CountFrom(s, size, step, 0);
  }

  lemma {:induction false} WindowAtFrom<T>(s: seq<T>, size: int, step: int, start: nat, i: nat, lo: int)
    requires step > 0 && i < |WindowsFrom(s, size, step, start)|
    requires lo == start + i * step
    ensures lo < |s|
    ensures WindowsFrom(s, size, step, start)[i] == PySeq.Slice(s, lo, lo + size)
    decreases i
  {
    if i > 0 {
      MulPred(i, step);
      WindowAtFrom(s, size, step, start + step, i - 1, lo);
    }
  }

  /** Window i is `s[i*step : i*step+size]`, and its start lies inside `s`. */
  lemma WindowAt<T>(s: seq<T>, size: int, step: int, i: nat)
    requires step > 0 && i < |Windows(s, size, step)|
    ensures 0 <= i * step < |s|
    ensures Windows(s, size, step)[i] == PySeq.Slice(s, i * step, i * step + size)
    ensures size >= 0 ==> Windows(s, size, step)[i] == s[i * step..PySeq.Min(i * step + size, |s|)]
  {
    var lo := i * step;
    WindowAtFrom(s, size, step, 0, i, lo);
    MulNonneg(i, step);
    assert Windows(s, size, step)[i] == PySeq.Slice(s, lo, lo + size);
    if size >= 0 {
      SliceInside(s, lo, size);
    }
  }

  lemma SliceInside<T>(s: seq<T>, lo: int, size: int)
    requires 0 <= lo < |s| && 0 <= size
    ensures PySeq.Slice(s, lo, lo + size) == s[lo..PySeq.Min(lo + size, |s|)]
  {
  }

  /** Every element of a window is an element of `s`. */
  lemma WindowWithin<T>(s: seq<T>, size: int, step: int, i: nat)
    requires step > 0 && i < |Windows(s, size, step)|
    ensures forall x :: x in Windows(s, size, step)[i] ==> x in s
  {
    WindowAt(s, size, step, i);
  }

  /** With a positive size, every window is non-empty and holds at most `size` elements. */
  lemma WindowBounds<T>(s: seq<T>, size: int, step: int, i: nat)
    requires step > 0 && size >= 1 && i < |Windows(s, size, step)|
    ensures 1 <= |Windows(s, size, step)[i]| <= size
  {
    WindowAt(s, size, step, i);
  }

  /** When windows overlap or touch (step <= size), the last window ends at the end of `s`. */
  lemma LastWindowEnds<T>(s: seq<T>, size: int, step: int)
    requires 0 < step <= size && |s| > 0
    ensures var ws := Windows(s, size, step);
      |ws| > 0 && (|ws| - 1) * step < |s| && ws[|ws| - 1] == s[(|ws| - 1) * step..]
  {
    var ws := Windows(s, size, step);
    var c := |ws|;
    WindowCount(s, size, step);
    WindowAt(s, size, step, c - 1);
    MulPred(c, step);
  }

  lemma MulNonneg(i: nat, step: nat)
    ensures 0 <= i * step
  {
  }

  lemma MulPred(c: int, step: int)
    ensures c * step == (c - 1) * step + step
  {
  }

  /** The concatenation of `w[k:]` over the windows `ws`. */
  function DropEach<T>(ws: seq<seq<T>>, k: nat): seq<T>
  {
    if ws == [] then [] else PySeq.Drop(ws[0], k) + DropEach(ws[1..], k)
  }

  /** The first window followed by every later window without its first `overlap` elements. */
  function Reassemble<T>(ws: seq<seq<T>>, overlap: nat): seq<T>
  {
    if ws == [] then [] else ws[0] + DropEach(ws[1..], overlap)
  }

  lemma {:induction false} DropEachFrom<T>(s: seq<T>, size: int, overlap: int, start: nat)
    requires 0 <= overlap < size
    ensures DropEach(WindowsFrom(s, size, size - overlap, start), overlap)
         == s[PySeq.Min(start + overlap, |s|)..]
    decreases |s| - start
  {
    var step, n := size - overlap, |s|;
    if start < n {
      var w := PySeq.Slice(s, start, start + size);
      var rest := WindowsFrom(s, size, step, start + step);
      assert WindowsFrom(s, size, step, start) == [w] + rest;
      assert DropEach([w] + rest, overlap) == PySeq.Drop(w, overlap) + DropEach(rest, overlap) by {
        assert ([w] + rest)[1..] == rest;
      }
      DropEachFrom(s, size, overlap, start + step);
      assert start + step + overlap == start + size;
      DropWindow(s, start, size, overlap);
    } else {
      assert s[PySeq.Min(start + overlap, n)..] == [];
    }
  }

  /** Dropping `overlap` elements from the window at `start` leaves the part of `s` between
      `start + overlap` and the window's end; the rest of `s` follows it. */
  lemma DropWindow<T>(s: seq<T>, start: nat, size: int, overlap: int)
    requires 0 <= overlap < size && start < |s|
    ensures PySeq.Drop(PySeq.Slice(s, start, start + size), overlap) + s[PySeq.Min(start + size, |s|)..]
         == s[PySeq.Min(start + overlap, |s|)..]
  {
    var n := |s|;
    var w := PySeq.Slice(s, start, start + size);
    assert w == s[start..PySeq.Min(start + size, n)];
    assert PySeq.Drop(w, overlap) == s[PySeq.Min(start + overlap, n)..PySeq.Min(start + size, n)];
    assert s[PySeq.Min(start + overlap, n)..] ==
      s[PySeq.Min(start + overlap, n)..PySeq.Min(start + size, n)] + s[PySeq.Min(start + size, n)..];
  }

  /** With 0 <= overlap < size, dropping the declared overlap from every window after the
      first and concatenating gives back exactly the input. */
  lemma Reconstruct<T>(s: seq<T>, size: int, overlap: int)
    requires 0 <= overlap < size
    ensures Reassemble(Windows(s, size, size - overlap), overlap) == s
  {
    var step := size - overlap;
    if |s| > 0 {
      var ws := Windows(s, size, step);
      assert ws[1..] == WindowsFrom(s, size, step, step);
      DropEachFrom(s, size, overlap, step);
      assert ws[0] == s[..PySeq.Min(size, |s|)];
      assert s == s[..PySeq.Min(size, |s|)] + s[PySeq.Min(size, |s|)..];
    }
  }
}
