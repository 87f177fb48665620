/** Writes through a seekable cursor into a preallocated buffer, as the
    region writer does: each write puts some bytes at an offset, and a
    buffer's final contents are those of its writes applied in order. */
module Writes {
  import opened Bytes

  datatype Write = Write(off: nat, bytes: seq<u8>)

  function End(w: Write): nat {
    w.off + |w.bytes|
  }

  /** Two writes touch no common byte. */
  predicate Disjoint(a: Write, b: Write) {
    a.bytes == [] || b.bytes == [] || End(a) <= b.off || End(b) <= a.off
  }

  /** Every write lies inside a buffer of `len` bytes. */
  predicate Fits(ws: seq<Write>, len: nat) {
    forall k :: 0 <= k < |ws| ==> End(ws[k]) <= len
  }

  /** One write: its bytes replace those at its offset, the rest stay. */
  function Put(buf: seq<u8>, w: Write): (r: seq<u8>)
    requires End(w) <= |buf|
    ensures |r| == |buf|
    ensures r[w.off..End(w)] == w.bytes
    ensures forall i :: 0 <= i < |buf| && !(w.off <= i < End(w)) ==> r[i] == buf[i]
  {
    buf[..w.off] + w.bytes + buf[End(w)..]
  }

  /** The buffer after the writes, first to last. */
  function Apply(buf: seq<u8>, ws: seq<Write>): (r: seq<u8>)
    requires Fits(ws, |buf|)
    ensures |r| == |buf|
    decreases |ws|
  {
    if ws == [] then buf else Put(Apply(buf, ws[..|ws| - 1]), ws[|ws| - 1])
  }

  /** Applying one more write puts it on top of the others. */
  lemma ApplyStep(buf: seq<u8>, ws: seq<Write>, w: Write)
    requires Fits(ws, |buf|) && End(w) <= |buf|
    ensures Fits(ws + [w], |buf|)
    ensures Apply(buf, ws + [w]) == Put(Apply(buf, ws), w)
  {
    assert (ws + [w])[..|ws|] == ws;
  }

  /** A byte that no write touches keeps its value. */
  lemma {:induction false} ApplyKeeps(buf: seq<u8>, ws: seq<Write>, i: nat)
    requires Fits(ws, |buf|) && i < |buf|
    requires forall k :: 0 <= k < |ws| ==> !(ws[k].off <= i < End(ws[k]))
    ensures Apply(buf, ws)[i] == buf[i]
    decreases |ws|
  {
    if ws != [] {
      ApplyKeeps(buf, ws[..|ws| - 1], i);
    }
  }

  /** A byte of a write that no later write overlaps reads back. */
  lemma {:induction false} ApplyReadsAt(buf: seq<u8>, ws: seq<Write>, k: nat, i: nat)
    requires Fits(ws, |buf|) && k < |ws|
    requires forall j :: k < j < |ws| ==> Disjoint(ws[j], ws[k])
    requires ws[k].off <= i < End(ws[k])
    ensures Apply(buf, ws)[i] == ws[k].bytes[i - ws[k].off]
    decreases |ws|
  {
    var last := ws[|ws| - 1];
    var prefix := ws[..|ws| - 1];
    if k < |ws| - 1 {
      assert Disjoint(last, ws[k]);
      ApplyReadsAt(buf, prefix, k, i);
    }
  }

  /** A write that no later write overlaps reads back whole. */
  lemma ApplyReads(buf: seq<u8>, ws: seq<Write>, k: nat)
    requires Fits(ws, |buf|) && k < |ws|
    requires forall j :: k < j < |ws| ==> Disjoint(ws[j], ws[k])
    ensures Apply(buf, ws)[ws[k].off..End(ws[k])] == ws[k].bytes
  {
    var r := Apply(buf, ws);
    forall i | ws[k].off <= i < End(ws[k])
      ensures r[i] == ws[k].bytes[i - ws[k].off]
    {
      ApplyReadsAt(buf, ws, k, i);
    }
  }

  /** A stretch of bytes no write touches keeps its contents. */
  lemma ApplyKeepsRange(buf: seq<u8>, ws: seq<Write>, a: nat, b: nat)
    requires Fits(ws, |buf|) && a <= b <= |buf|
    requires forall k :: 0 <= k < |ws| ==> ws[k].bytes == [] || End(ws[k]) <= a || b <= ws[k].off
    ensures Apply(buf, ws)[a..b] == buf[a..b]
  {
    var r := Apply(buf, ws);
    forall i | a <= i < b
      ensures r[i] == buf[i]
    {
      ApplyKeeps(buf, ws, i);
    }
  }

  /** A table of 4-byte words from `base` on, one per entry, as the region
      writer's location and timestamp loops emit. */
  predicate WordTable(ws: seq<Write>, base: nat) {
    forall k :: 0 <= k < |ws| ==> ws[k].off == base + 4 * k && |ws[k].bytes| == 4
  }

  /** Each entry of a word table reads back. */
  lemma WordTableReads(buf: seq<u8>, ws: seq<Write>, base: nat, k: nat)
    requires WordTable(ws, base) && base + 4 * |ws| <= |buf| && k < |ws|
    ensures Fits(ws, |buf|)
    ensures Apply(buf, ws)[base + 4 * k..base + 4 * k + 4] == ws[k].bytes
  {
    forall j | k < j < |ws|
      ensures Disjoint(ws[j], ws[k])
    {
    }
    ApplyReads(buf, ws, k);
  }

  /** A word table leaves the bytes before it alone. */
  lemma WordTableKeeps(buf: seq<u8>, ws: seq<Write>, base: nat, a: nat, b: nat)
    requires WordTable(ws, base) && base + 4 * |ws| <= |buf| && a <= b <= base
    ensures Fits(ws, |buf|)
    ensures Apply(buf, ws)[a..b] == buf[a..b]
  {
    ApplyKeepsRange(buf, ws, a, b);
  }

  /** Writes that all start at or after `b` (or write nothing) leave the
      bytes before `b` alone. */
  lemma ApplyKeepsPrefix(buf: seq<u8>, ws: seq<Write>, b: nat)
    requires Fits(ws, |buf|) && b <= |buf|
    requires forall k :: 0 <= k < |ws| ==> ws[k].bytes == [] || b <= ws[k].off
    ensures Apply(buf, ws)[..b] == buf[..b]
  {
    ApplyKeepsRange(buf, ws, 0, b);
    assert Apply(buf, ws)[..b] == Apply(buf, ws)[0..b];
  }

  /** The cursor's write into the preallocated buffer: the bytes of `w` go
      to its offset and the rest of the buffer stays. */
  method WriteAt(a: array<u8>, w: Write)
    requires End(w) <= a.Length
    modifies a
    ensures a[..] == Put(old(a[..]), w)
  {
    forall j | 0 <= j < |w.bytes| {
      a[w.off + j] := w.bytes[j];
    }
    assert a[..] == Put(old(a[..]), w) by {
      forall i | 0 <= i < a.Length
        ensures a[..][i] == Put(old(a[..]), w)[i]
      {
        if w.off <= i < End(w) {
          assert Put(old(a[..]), w)[w.off..End(w)][i - w.off] == w.bytes[i - w.off];
        }
      }
    }
  }

  /** Two writes, the second starting where the first ends, put the same
      bytes as one write of both. */
  lemma PutConcat(buf: seq<u8>, off: nat, x: seq<u8>, y: seq<u8>)
    requires off + |x| + |y| <= |buf|
    ensures Put(Put(buf, Write(off, x)), Write(off + |x|, y)) == Put(buf, Write(off, x + y))
  {
    var r := Put(Put(buf, Write(off, x)), Write(off + |x|, y));
    var q := Put(buf, Write(off, x + y));
    forall i | 0 <= i < |buf|
      ensures r[i] == q[i]
    {
      if off <= i < off + |x| {
        assert q[off..off + |x| + |y|][i - off] == (x + y)[i - off];
        assert Put(buf, Write(off, x))[off..off + |x|][i - off] == x[i - off];
      } else if off + |x| <= i < off + |x| + |y| {
        assert q[off..off + |x| + |y|][i - off] == (x + y)[i - off];
        assert r[off + |x|..off + |x| + |y|][i - off - |x|] == y[i - off - |x|];
      }
    }
  }

  /** A write of no bytes changes nothing. */
  lemma PutNothing(buf: seq<u8>, off: nat)
    requires off <= |buf|
    ensures Put(buf, Write(off, [])) == buf
  {
  }

  /** The writes up to `k + 1` are those up to `k` and then write `k`. */
  lemma ApplyPrefix(buf: seq<u8>, ws: seq<Write>, k: nat)
    requires Fits(ws, |buf|) && k < |ws|
    ensures Fits(ws[..k], |buf|) && Fits(ws[..k + 1], |buf|)
    ensures Apply(buf, ws[..k + 1]) == Put(Apply(buf, ws[..k]), ws[k])
  {
    var p := ws[..k + 1];
    assert p[..k] == ws[..k];
    assert p[k] == ws[k];
    assert Fits(p, |buf|) by {
      forall j | 0 <= j < |p|
        ensures End(p[j]) <= |buf|
      {
        assert p[j] == ws[j];
      }
    }
  }
}
