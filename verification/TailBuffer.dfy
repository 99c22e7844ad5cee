/** A fixed-size ring that keeps the last bytes of everything appended to it, however the appends were cut into chunks. */
module TailBuffer {
  import opened Prelude

  type Byte = bv8

  /** The last `n` elements, or all of them. */
  function LastOf(s: seq<Byte>, n: nat): seq<Byte> {
    s[SatSub(|s|, n)..]
  }

  class TailBuffer {
    const buffer: array<Byte>
    var position: nat
    var used: nat
    ghost var history: seq<Byte>  // everything appended so far

    ghost predicate Valid()
      reads this, buffer
    {
      && buffer.Length > 0 && position < buffer.Length
      && used == Min(buffer.Length, |history|)
      && (used < buffer.Length ==> position == used)
      && Content(buffer[..], position, used) == LastOf(history, buffer.Length)
    }

    constructor (capacity: nat)
      requires capacity > 0
      ensures Valid() && history == [] && buffer.Length == capacity && fresh(buffer)
    {
      buffer := new Byte[capacity](_ => 0);
      position, used, history := 0, 0, [];
    }

    /** Overwrites `buffer[from .. from + |s|]`. */
    method Overwrite(from: nat, s: seq<Byte>)
      requires from + |s| <= buffer.Length
      modifies buffer
      ensures buffer[..] == Splice(old(buffer[..]), from, s)
    {
      for i := 0 to |s|
        invariant buffer[..] == Splice(old(buffer[..]), from, s[..i])
      {
        SpliceOne(old(buffer[..]), from, s[..i], s[i]);
        buffer[from + i] := s[i];
        assert s[..i + 1] == s[..i] + [s[i]];
      }
      assert s[..|s|] == s;
    }

    /** Writes a chunk from the current position on, wrapping round to the start. */
    method Store(chunk: seq<Byte>)
      requires position < buffer.Length && |chunk| <= buffer.Length
      modifies buffer
      ensures buffer[..] == Written(old(buffer[..]), position, chunk)
    {
      var first := Min(|chunk|, buffer.Length - position);
      Overwrite(position, chunk[..first]);
      Overwrite(0, chunk[first..]);
    }

    method Append(data: seq<Byte>)
      requires Valid()
      modifies this`position, this`used, this`history, buffer
      ensures Valid() && history == old(history) + data
    {
      var capacity := buffer.Length;
      var chunk := LastOf(data, capacity);
      RingKeepsTail(buffer[..], position, used, history, data);
      AdvanceMod(position, |chunk|, capacity);
      Store(chunk);
      position := (position + |chunk|) % capacity;
      used := Min(capacity, used + |chunk|);
      history := history + data;
    }

    method Snapshot() returns (tail: seq<Byte>)
      requires Valid()
      ensures tail == LastOf(history, buffer.Length)
      ensures |tail| == Min(buffer.Length, |history|)
    {
      assert buffer[..][position..] == buffer[position..] && buffer[..][..position] == buffer[..position];
      assert buffer[..][..used] == buffer[..used];
      if used < buffer.Length {
        return buffer[..used];
      }
      return buffer[position..] + buffer[..position];
    }
  }

  /** The contents of a ring as a value. */
  function Content(ring: seq<Byte>, position: nat, used: nat): seq<Byte>
    requires position <= |ring| && used <= |ring|
  {
    if used < |ring| then ring[..used] else ring[position..] + ring[..position]
  }

  function Splice(ring: seq<Byte>, from: nat, s: seq<Byte>): seq<Byte>
    requires from + |s| <= |ring|
  {
    ring[..from] + s + ring[from + |s|..]
  }

  lemma SpliceOne(ring: seq<Byte>, from: nat, s: seq<Byte>, b: Byte)
    requires from + |s| < |ring|
    ensures |Splice(ring, from, s)| == |ring| && Splice(ring, from, s)[from + |s| := b] == Splice(ring, from, s + [b])
  {
  }

  /** What an append leaves in the array: the chunk from `position` on, wrapped round to the start. */
  function Written(ring: seq<Byte>, position: nat, chunk: seq<Byte>): seq<Byte>
    requires position < |ring| && |chunk| <= |ring|
  {
    var first := Min(|chunk|, |ring| - position);
    Splice(Splice(ring, position, chunk[..first]), 0, chunk[first..])
  }

  function Advanced(p: nat, n: nat, capacity: nat): nat
    requires p < capacity && n <= capacity
  {
    if p + n < capacity then p + n else p + n - capacity
  }

  lemma AdvanceMod(p: nat, n: nat, capacity: nat)
    requires p < capacity && n <= capacity
    ensures (p + n) % capacity == Advanced(p, n, capacity)
  {
    if p + n >= capacity {
      ModWraps(p + n, capacity);
    }
  }

  lemma ModWraps(x: nat, n: nat)
    requires n <= x < 2 * n
    ensures x % n == x - n
  {
    var d := x / n;
    assert x == d * n + x % n;
    assert d >= 2 ==> d * n >= 2 * n;
  }

  /** An append leaves in the ring the last bytes of everything appended, however long the chunk. */
  lemma RingKeepsTail(ring: seq<Byte>, p: nat, u: nat, history: seq<Byte>, data: seq<Byte>)
    requires p < |ring| && u == Min(|ring|, |history|) && (u < |ring| ==> p == u)
    requires Content(ring, p, u) == LastOf(history, |ring|)
    ensures var chunk := LastOf(data, |ring|);
            var (q, v) := (Advanced(p, |chunk|, |ring|), Min(|ring|, u + |chunk|));
            && |Written(ring, p, chunk)| == |ring|
            && v == Min(|ring|, |history + data|) && (v < |ring| ==> q == v)
            && Content(Written(ring, p, chunk), q, v) == LastOf(history + data, |ring|)
  {
    RingAdvances(ring, p, u, LastOf(data, |ring|));
    TailOfAppend(history, data, |ring|);
  }

  /** Appending a chunk no longer than the ring keeps the last bytes of what was there followed by the chunk. */
  lemma RingAdvances(ring: seq<Byte>, p: nat, u: nat, chunk: seq<Byte>)
    requires p < |ring| && u <= |ring| && (u < |ring| ==> p == u) && |chunk| <= |ring|
    ensures var (q, v) := (Advanced(p, |chunk|, |ring|), Min(|ring|, u + |chunk|));
            && |Written(ring, p, chunk)| == |ring|
            && (v < |ring| ==> q == v)
            && Content(Written(ring, p, chunk), q, v) == LastOf(Content(ring, p, u) + chunk, |ring|)
  {
    var (q, v) := (Advanced(p, |chunk|, |ring|), Min(|ring|, u + |chunk|));
    var (x, y) := (Content(Written(ring, p, chunk), q, v), LastOf(Content(ring, p, u) + chunk, |ring|));
    RingLengths(ring, p, u, chunk);
    forall k | 0 <= k < u ensures Content(ring, p, u)[k] == ring[Cell(|ring|, p, u, k)] {
      ContentAt(ring, p, u, k);
    }
    forall i | 0 <= i < v ensures x[i] == y[i] {
      WrittenAt(ring, p, chunk, Cell(|ring|, q, v, i));
      ContentAt(Written(ring, p, chunk), q, v, i);
      RingAt(ring, p, u, Content(ring, p, u), chunk, i);
    }
  }

  lemma RingLengths(ring: seq<Byte>, p: nat, u: nat, chunk: seq<Byte>)
    requires p < |ring| && u <= |ring| && (u < |ring| ==> p == u) && |chunk| <= |ring|
    ensures var (q, v) := (Advanced(p, |chunk|, |ring|), Min(|ring|, u + |chunk|));
            && |Written(ring, p, chunk)| == |ring|
            && |Content(ring, p, u)| == u && |Content(Written(ring, p, chunk), q, v)| == v && |LastOf(Content(ring, p, u) + chunk, |ring|)| == v
  {
  }

  /** Where in an array of `n` cells the k-th byte of the contents is. */
  function Cell(n: nat, p: nat, u: nat, k: nat): (c: nat)
    requires p < n && k < u <= n && (u < n ==> p == u)
    ensures c < n
  {
    if u < n then k else if k < n - p then p + k else k - (n - p)
  }

  lemma ContentAt(ring: seq<Byte>, p: nat, u: nat, k: nat)
    requires p < |ring| && k < u <= |ring| && (u < |ring| ==> p == u)
    ensures |Content(ring, p, u)| == u && Content(ring, p, u)[k] == ring[Cell(|ring|, p, u, k)]
  {
  }

  /** What an append leaves in one cell. */
  function CellAfter(ring: seq<Byte>, p: nat, chunk: seq<Byte>, c: nat): Byte
    requires p < |ring| && |chunk| <= |ring| && c < |ring|
  {
    if p <= c < p + |chunk| then chunk[c - p]
    else if c + |ring| < p + |chunk| then chunk[c + |ring| - p]
    else ring[c]
  }

  lemma WrittenAt(ring: seq<Byte>, p: nat, chunk: seq<Byte>, c: nat)
    requires p < |ring| && |chunk| <= |ring| && c < |ring|
    ensures |Written(ring, p, chunk)| == |ring| && Written(ring, p, chunk)[c] == CellAfter(ring, p, chunk, c)
  {
  }

  lemma TailAt(s: seq<Byte>, t: seq<Byte>, n: nat, i: nat)
    requires i < Min(n, |s| + |t|)
    ensures var k := SatSub(|s| + |t|, n) + i;
            |LastOf(s + t, n)| == Min(n, |s| + |t|) && LastOf(s + t, n)[i] == if k < |s| then s[k] else t[k - |s|]
  {
  }

  /** The i-th byte of the new contents is the i-th byte of the tail of old contents and chunk. */
  lemma RingAt(ring: seq<Byte>, p: nat, u: nat, content: seq<Byte>, chunk: seq<Byte>, i: nat)
    requires p < |ring| && u <= |ring| && (u < |ring| ==> p == u) && |chunk| <= |ring|
    requires |content| == u && forall k :: 0 <= k < u ==> content[k] == ring[Cell(|ring|, p, u, k)]
    requires i < Min(|ring|, u + |chunk|)
    ensures |LastOf(content + chunk, |ring|)| == Min(|ring|, u + |chunk|)
    ensures var (q, v) := (Advanced(p, |chunk|, |ring|), Min(|ring|, u + |chunk|));
            (v < |ring| ==> q == v)
            && CellAfter(ring, p, chunk, Cell(|ring|, q, v, i)) == LastOf(content + chunk, |ring|)[i]
  {
    TailAt(content, chunk, |ring|, i);
    CellMoves(|ring|, p, u, |chunk|, i);
  }

  /** The cell of the i-th byte after an append of `len` bytes: an old one still in place, or one just written. */
  lemma CellMoves(n: nat, p: nat, u: nat, len: nat, i: nat)
    requires p < n && u <= n && (u < n ==> p == u) && len <= n && i < Min(n, u + len)
    ensures Min(n, u + len) < n ==> Advanced(p, len, n) == Min(n, u + len)
    ensures var k := SatSub(u + len, n) + i;
            var c := Cell(n, Advanced(p, len, n), Min(n, u + len), i);
            if k < u then !(p <= c < p + len) && !(c + n < p + len) && c == Cell(n, p, u, k)
            else (p <= c < p + len && c - p == k - u) || (c < p && c + n < p + len && c + n - p == k - u)
  {
  }

  /** Only the last bytes of a long chunk matter. */
  lemma TailOfAppend(history: seq<Byte>, data: seq<Byte>, n: nat)
    ensures LastOf(LastOf(history, n) + LastOf(data, n), n) == LastOf(history + data, n)
  {
  }
}
