/** The memory buffer of fmbuf/fmbuf.c: a byte ring of size + 1 cells, one of them always kept empty. */
module Fmbuf {
  import opened Bytes
  import opened Options

  function Max(a: nat, b: nat): nat { if a < b then b else a }

  /** MBUF_USED, for a head and tail read at some moment. */
  function UsedOf(size: nat, head: nat, tail: nat): int {
    if head <= tail then tail - head else size - (head - tail) + 1
  }

  /** MBUF_FREE. */
  function FreeOf(size: nat, head: nat, tail: nat): int {
    if head <= tail then size - (tail - head) else head - tail - 1
  }

  /** A push of `n` bytes ends exactly behind the last cell. */
  predicate Lands(size: nat, tail: nat, n: nat) {
    tail + n == size + 1
  }

  /** Where the tail is after a push of `n` bytes. */
  function TailAfter(size: nat, tail: nat, n: nat): nat {
    if tail + n <= size then tail + n else if tail + n > size + 1 then tail + n - (size + 1) else 0
  }

  /** The values the tail is given on the way: one past the last cell first when the push lands there. */
  function TailsOf(size: nat, tail: nat, n: nat): seq<nat> {
    (if Lands(size, tail, n) then [size + 1] else []) + [TailAfter(size, tail, n)]
  }

  /** The queued bytes: from head up to tail, around the end of the cells if need be. */
  function Window(cells: seq<byte>, head: nat, tail: nat): seq<byte>
    requires head < |cells| && tail < |cells|
  {
    if head <= tail then cells[head..tail] else cells[head..] + cells[..tail]
  }

  lemma WindowLength(cells: seq<byte>, head: nat, tail: nat)
    requires head < |cells| && tail < |cells|
    ensures |Window(cells, head, tail)| == UsedOf(|cells| - 1, head, tail)
    ensures UsedOf(|cells| - 1, head, tail) + FreeOf(|cells| - 1, head, tail) == |cells| - 1
    ensures head == tail <==> Window(cells, head, tail) == []
  {
  }

  /** The cell `i` places after head, going around the end. */
  function CellAt(cells: seq<byte>, head: nat, i: nat): byte
    requires head < |cells| && i < |cells|
  {
    if head + i < |cells| then cells[head + i] else cells[head + i - |cells|]
  }

  lemma WindowAt(cells: seq<byte>, head: nat, tail: nat, i: nat)
    requires head < |cells| && tail < |cells| && i < |Window(cells, head, tail)|
    ensures Window(cells, head, tail)[i] == CellAt(cells, head, i)
  {
  }

  /** Two layouts hold the same queue when they agree cell by cell, counted from their heads. */
  lemma SameWindow(c: seq<byte>, h: nat, t: nat, c': seq<byte>, h': nat, t': nat)
    requires h < |c| && t < |c| && h' < |c'| && t' < |c'|
    requires UsedOf(|c| - 1, h, t) == UsedOf(|c'| - 1, h', t')
    requires forall i :: 0 <= i < UsedOf(|c| - 1, h, t) ==> CellAt(c', h', i) == CellAt(c, h, i)
    ensures Window(c', h', t') == Window(c, h, t)
  {
    forall i | 0 <= i < |Window(c, h, t)| ensures Window(c', h', t')[i] == Window(c, h, t)[i] {
      WindowAt(c, h, t, i);
      WindowAt(c', h', t', i);
    }
  }

  /** The part at the start, moved behind the part at the end of a longer run of cells. */
  lemma MovedBehind(c: seq<byte>, h: nat, t: nat, c': seq<byte>, t': nat)
    requires t < h < |c| && |c| + t <= |c'| && t' == if |c| + t == |c'| then 0 else |c| + t
    requires forall i :: 0 <= i < |c| ==> c'[i] == c[i]
    requires forall i :: |c| <= i < |c| + t ==> c'[i] == c[i - |c|]
    ensures h < |c'| && t' < |c'| && Window(c', h, t') == Window(c, h, t)
  {
    SameWindow(c, h, t, c', h, t');
  }

  /** The part at the end, moved to the end of a longer or a shorter run of cells. */
  lemma MovedToEnd(c: seq<byte>, h: nat, t: nat, c': seq<byte>, h': nat)
    requires t < h < |c| && t < h' < |c'| && |c'| - h' == |c| - h
    requires forall i :: 0 <= i < t ==> c'[i] == c[i]
    requires forall i :: h' <= i < |c'| ==> c'[i] == c[i - h' + h]
    ensures Window(c', h', t) == Window(c, h, t)
  {
    SameWindow(c, h, t, c', h', t);
  }

  /** Cells filled behind tail are the queue's new last bytes, as long as they were free. */
  lemma WindowAppend(c: seq<byte>, h: nat, t: nat, data: seq<byte>, c': seq<byte>, t': nat)
    requires h < |c| == |c'| && t < |c| && |data| <= FreeOf(|c| - 1, h, t)
    requires t' == if t + |data| < |c| then t + |data| else t + |data| - |c|
    requires forall i :: 0 <= i < |data| ==> CellAt(c', t, i) == data[i]
    requires forall i :: 0 <= i < UsedOf(|c| - 1, h, t) ==> CellAt(c', h, i) == CellAt(c, h, i)
    ensures Window(c', h, t') == Window(c, h, t) + data
  {
    var n := |Window(c, h, t)|;
    forall i | 0 <= i < n + |data| ensures Window(c', h, t')[i] == (Window(c, h, t) + data)[i] {
      WindowAt(c', h, t', i);
      if i < n {
        WindowAt(c, h, t, i);
      } else {
        assert CellAt(c', t, i - n) == data[i - n];
      }
    }
  }

  class Fmbuf {
    var size: nat
    var head: nat
    var tail: nat
    var buf: array<byte>

    ghost predicate Valid()
      reads this
    {
      buf.Length == size + 1 && head <= size && tail <= size
    }

    ghost function Contents(): seq<byte>
      requires Valid()
      reads this, buf
    {
      Window(buf[..], head, tail)
    }

    constructor (n: nat)
      ensures Valid() && fresh(buf) && size == n && Contents() == [] && head == 0
    {
      size := n;
      buf := new byte[n + 1];
      head, tail := 0, 0;
    }

    function Used(): (n: nat)
      requires Valid()
      reads this, buf
      ensures n == |Contents()| <= size
    {
      UsedOf(size, head, tail)
    }

    function Free(): (n: nat)
      requires Valid()
      reads this, buf
      ensures n == size - |Contents()|
    {
      FreeOf(size, head, tail)
    }

    function TailFree(): nat
      requires Valid()
      reads this
    {
      size - tail
    }

    predicate Empty()
      requires Valid()
      reads this, buf
      ensures Empty() <==> Contents() == []
    {
      Used() == 0
    }

    method Clear()
      requires Valid()
      modifies this`head, this`tail
      ensures Valid() && Contents() == []
    {
      head, tail := 0, 0;
    }

    /** memcpy into the cells. */
    method Store(at: nat, data: seq<byte>)
      requires at + |data| <= buf.Length
      modifies buf
      ensures forall i :: 0 <= i < buf.Length ==> buf[i] == if at <= i < at + |data| then data[i - at] else old(buf[i])
    {
      forall i | 0 <= i < |data| { buf[at + i] := data[i]; }
    }

    /** Copy into the free cells behind tail, around the end if need be. */
    method CopyBehind(data: seq<byte>) returns (ghost tails: seq<nat>)
      requires Valid() && 0 < |data| <= FreeOf(size, head, tail)
      modifies this`tail, buf
      ensures Valid() && tail == TailAfter(size, old(tail), |data|) && tails == TailsOf(size, old(tail), |data|)
      ensures forall i :: 0 <= i < |data| ==> CellAt(buf[..], old(tail), i) == data[i]
      ensures forall i :: 0 <= i < UsedOf(size, head, old(tail)) ==>
                CellAt(buf[..], head, i) == CellAt(old(buf[..]), head, i)
    {
      hide Window;
      var tailFree := TailFree() + 1;
      if tailFree >= |data| {
        Store(tail, data);
        tail := tail + |data|;
        tails := [tail];
        if tail > size {
          tail := 0;
          tails := tails + [tail];
        }
      } else {
        Store(tail, data[..tailFree]);
        var left := |data| - tailFree;
        Store(0, data[tailFree..]);
        tail := left;
        tails := [tail];
      }
    }

    /** All or nothing: either the whole of `data` is appended or nothing changes. */
    method Push(data: seq<byte>) returns (failed: bool, ghost tails: seq<nat>)
      requires Valid()
      modifies this`tail, buf
      ensures Valid()
      ensures failed <==> data == [] || |data| > size - |old(Contents())|
      ensures Contents() == old(Contents()) + (if failed then [] else data)
      ensures failed ==> tail == old(tail) && buf[..] == old(buf[..])
      ensures tails == if failed then [] else TailsOf(size, old(tail), |data|)
      ensures !failed ==> tail == TailAfter(size, old(tail), |data|)
    {
      if data == [] || Free() < |data| {
        return true, [];
      }
      hide Window, CellAt, TailsOf;
      ghost var was, t := buf[..], tail;
      tails := CopyBehind(data);
      WindowAppend(was, head, t, data, buf[..], tail);
      return false, tails;
    }

    /** The first `n` queued bytes, read where they lie or put together from both ends of the cells. */
    method Peek(n: nat) returns (data: seq<byte>)
      requires Valid() && n <= |Contents()|
      ensures data == Contents()[..n]
    {
      var tailUse := size - head + 1;
      if tailUse >= n {
        data := buf[head..head + n];
      } else {
        data := buf[head..] + buf[..n - tailUse];
      }
    }

    method Advance(n: nat)
      requires Valid() && n <= |Contents()|
      modifies this`head
      ensures Valid() && Contents() == old(Contents())[n..]
    {
      var tailUse := size - head + 1;
      if tailUse >= n {
        head := head + n;
        if head > size {
          head := 0;
        }
      } else {
        head := n - tailUse;
      }
    }

    method Pop(n: nat) returns (failed: bool, data: seq<byte>)
      requires Valid()
      modifies this`head
      ensures Valid()
      ensures failed <==> n == 0 || n > |old(Contents())|
      ensures !failed ==> data == old(Contents())[..n] && Contents() == old(Contents())[n..]
      ensures failed ==> data == [] && head == old(head)
    {
      if n == 0 || n > Used() {
        return true, [];
      }
      data := Peek(n);
      Advance(n);
      return false, data;
    }

    /** Like Pop, but refused when the caller brings no scratch buffer. */
    method VPop(scratch: bool, n: nat) returns (r: Option<seq<byte>>)
      requires Valid()
      modifies this`head
      ensures Valid()
      ensures r.None? <==> !scratch || n == 0 || n > |old(Contents())|
      ensures r.Some? ==> r.value == old(Contents())[..n] && Contents() == old(Contents())[n..]
      ensures r.None? ==> head == old(head)
    {
      if !scratch || n == 0 || n > Used() {
        return None;
      }
      var data := Peek(n);
      Advance(n);
      return Some(data);
    }

    method RawGet(scratch: bool, n: nat) returns (r: Option<seq<byte>>)
      requires Valid()
      ensures r.None? <==> !scratch || n == 0 || n > |Contents()|
      ensures r.Some? ==> r.value == Contents()[..n]
    {
      if !scratch || n == 0 || n > Used() {
        return None;
      }
      var data := Peek(n);
      return Some(data);
    }

    // ---------------------------------------------------------------- array mode

    method HeadSeek(offset: nat, right: bool)
      requires Valid() && (if right then head + offset <= size else offset <= head)
      modifies this`head
      ensures Valid() && head == if right then old(head) + offset else old(head) - offset
    {
      head := if right then head + offset else head - offset;
    }

    method TailSeek(offset: nat, right: bool)
      requires Valid() && (if right then tail + offset <= size else offset <= tail)
      modifies this`tail
      ensures Valid() && tail == if right then old(tail) + offset else old(tail) - offset
    {
      tail := if right then tail + offset else tail - offset;
    }

    /** Slide the queued bytes to the start of the cells. */
    method Rewind()
      requires Valid() && head <= tail
      modifies this`head, this`tail, buf
      ensures Valid() && head == 0 && Contents() == old(Contents())
    {
      if head == 0 {
        return;
      }
      var n := Used();
      forall i | 0 <= i < n { buf[i] := buf[head + i]; }
      head, tail := 0, tail - head;
    }

    /** Room for `n` more bytes behind the queued ones; found whenever that much is free anywhere. */
    method Alloc(n: nat) returns (at: Option<nat>)
      requires Valid() && head <= tail
      modifies this`head, this`tail, buf
      ensures Valid() && head <= tail
      ensures at.Some? <==> n <= size - |old(Contents())|
      ensures at.Some? ==> at.value + n == tail && |Contents()| == |old(Contents())| + n
      ensures at.Some? ==> Contents()[..|old(Contents())|] == old(Contents())
      ensures at.None? ==> Contents() == old(Contents())
    {
      if TailFree() < n {
        Rewind();
      }
      if TailFree() >= n {
        var p := tail;
        tail := tail + n;
        return Some(p);
      }
      return None;
    }

    // ---------------------------------------------------------------- resizing

    /** realloc: a block of another length that starts with the old cells. */
    method Resized(n: nat) returns (cells: array<byte>)
      requires Valid()
      ensures fresh(cells) && cells.Length == n + 1
      ensures forall i :: 0 <= i < cells.Length && i < buf.Length ==> cells[i] == buf[i]
    {
      cells := new byte[n + 1];
      forall i | 0 <= i < cells.Length && i < buf.Length { cells[i] := buf[i]; }
    }

    /** _increase_buf: a wrapped queue gets the new cells in its gap, by moving the part cheaper to move. */
    method Increase(n: nat)
      requires Valid() && size < n
      modifies this
      ensures Valid() && fresh(buf) && size == n && Contents() == old(Contents())
    {
      var cells := Resized(n);
      if head <= tail {
        assert cells[head..tail] == buf[head..tail];
        buf, size := cells, n;
      } else {
        WidenGap(cells, n);
      }
    }

    method WidenGap(cells: array<byte>, n: nat)
      requires Valid() && tail < head && size < n && cells != buf && cells.Length == n + 1
      requires forall i :: 0 <= i < buf.Length ==> cells[i] == buf[i]
      modifies this, cells
      ensures Valid() && buf == cells && size == n && Contents() == old(Contents())
    {
      ghost var was, h, t := buf[..], head, tail;
      var increased := n - size;
      var leftUsed := tail;
      var rightUsed := Used() - leftUsed;
      if leftUsed <= rightUsed && leftUsed <= increased {
        // move the part at the start behind the part at the end
        forall i | 0 <= i < leftUsed { cells[size + 1 + i] := cells[i]; }
        tail := size + 1 + leftUsed;
        if tail > n {
          tail := 0;
        }
        MovedBehind(was, h, t, cells[..], tail);
      } else {
        // move the part at the end up to the new end
        forall i | 0 <= i < rightUsed { cells[head + increased + i] := cells[head + i]; }
        head := head + increased;
        MovedToEnd(was, h, t, cells[..], head);
      }
      buf, size := cells, n;
    }

    /** memmove the part at the end, `rightUsed` cells from head on, towards tail. */
    method SlideEnd(move: nat, rightUsed: nat)
      requires Valid() && tail + move < head && head + rightUsed == size + 1
      modifies this`head, buf
      ensures Valid() && head == old(head) - move
      ensures forall i :: head <= i <= size - move ==> buf[i] == old(buf[i + move])
      ensures forall i :: 0 <= i < tail ==> buf[i] == old(buf[i])
    {
      forall i | 0 <= i < rightUsed { buf[head - move + i] := buf[head + i]; }
      head := head - move;
    }

    /** _decrease_buf: give up free cells only; a wrapped queue closes its gap. */
    method Decrease(n: nat)
      requires Valid() && n < size
      modifies this, buf
      ensures Valid() && fresh(buf)
      ensures size == Max(|old(Contents())|, n) && Contents() == old(Contents())
    {
      if head <= tail {
        var newSize := n;
        if tail > n {
          Rewind();
          newSize := if tail > n then tail else n;
        }
        var cells := Resized(newSize);
        assert cells[head..tail] == buf[head..tail];
        buf, size := cells, newSize;
      } else {
        var decreased := size - n;
        NarrowGap(if Free() >= decreased then decreased else Free());
      }
    }

    method NarrowGap(move: nat)
      requires Valid() && tail < head && move <= Free()
      modifies this, buf
      ensures Valid() && fresh(buf) && size == old(size) - move && Contents() == old(Contents())
    {
      ghost var was, h, t := buf[..], head, tail;
      SlideEnd(move, Used() - tail);
      var cells := Resized(size - move);
      buf, size := cells, size - move;
      MovedToEnd(was, h, t, buf[..], head);
    }

    /** Any resize keeps the queue; it yields what was asked for unless the queue itself needs more. */
    method Realloc(n: nat)
      requires Valid()
      modifies this, buf
      ensures Valid() && (fresh(buf) || buf == old(buf))
      ensures size == Max(|old(Contents())|, n) && Contents() == old(Contents())
    {
      if size < n {
        Increase(n);
      } else if size > n {
        Decrease(n);
      }
    }
  }
}
